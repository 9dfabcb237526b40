/**
  * The wire-level vocabulary of the chat relay: socket ids, the text the server sends,
  * and the dispatch of one stripped command line on its prefix.
  */
module Protocol {
  import opened Text

  /** A socket descriptor as returned by `accept`. */
  type Socket = int

  /** One call of `send`: the socket written to and the exact bytes written. */
  datatype Send = Send(to: Socket, text: string)

  // Login handshake.
  const PromptUsername := "Enter Username\n"
  const PromptPassword := "Enter Password\n"
  const AuthSuccessful := "Authentication Successful\n"
  const AuthFailed := "Authentication failed\n"
  const AlreadyLoggedIn := "User already logged in\n"

  // Replies to commands.
  const InvalidMsgFormat := "Invalid command format. Use: /msg <username> <message>\n"
  const EmptyGroupFields := "Error: Group name or message cannot be empty.\n"
  const NotAMember := "Error: You are not a member of the group.\n"
  const NoSuchGroupForMsg := "Group does not exist\n"
  const EmptyGroupName := "Error: Group name cannot be empty.\n"
  const GroupCreated := "Group created successfully.\n"
  const GroupExists := "Group already exists.\n"
  const AlreadyMember := "You are already a member of this group.\n"
  const JoinedGroup := "Joined group successfully.\n"
  const NoSuchGroup := "Group does not exist.\n"
  const LeftGroup := "Left group successfully.\n"
  const LeaveFailed := "Group does not exists or you are not part of this group.\n"
  const IncorrectFormat := "Incorrect Format of message\n"

  /** Join notice; unlike the exit notice it ends in a newline. */
  function JoinNotice(user: string): (r: string)
    ensures |r| == |user| + 22 && r[..|user|] == user && r[|r| - 1] == '\n'
  {
    user + " has joined the chat.\n"
  }

  /** Exit notice, sent without a trailing newline. */
  function ExitNotice(user: string): (r: string)
    ensures |r| == |user| + 21 && r[..|user|] == user && r[|r| - 1] != '\n'
  {
    user + " has exited the chat."
  }

  /** The broadcast as delivered: the sender's name after a fixed header, then the text verbatim. */
  function BroadcastText(sender: string, text: string): (r: string)
    ensures |r| == |sender| + |text| + 17
    ensures r[15..15 + |sender|] == sender && r[|r| - |text|..] == text
  {
    "Broadcast from " + sender + ": " + text
  }

  /** The private message as delivered: the sender's name, then the content verbatim. */
  function PrivateText(sender: string, content: string): (r: string)
    ensures |r| == |sender| + |content| + 23
    ensures r[21..21 + |sender|] == sender && r[|r| - |content|..] == content
  {
    "Private message from " + sender + ": " + content
  }

  /** The not-found notice names the recipient asked for and, unlike a delivered message, ends in a newline. */
  function UserNotFound(recipient: string): (r: string)
    ensures |r| == |recipient| + 43
    ensures r[13..13 + |recipient|] == recipient && r[|r| - 1] == '\n'
  {
    "Error: User '" + recipient + "' not found or not connected.\n"
  }

  /** The group message as delivered: sender, then group, then the content verbatim. */
  function GroupText(sender: string, group: string, content: string): (r: string)
    ensures |r| == |sender| + |group| + |content| + 25
    ensures r[19..19 + |sender|] == sender
    ensures r[23 + |sender|..23 + |sender| + |group|] == group
    ensures r[|r| - |content|..] == content
  {
    "Group message from " + sender + " in " + group + ": " + content
  }

  // Command prefixes, in the order the command loop tests them.
  const BroadcastPrefix := "/broadcast "
  const MsgPrefix := "/msg "
  const GroupMsgPrefix := "/group_msg "
  const CreateGroupPrefix := "/create_group "
  const JoinGroupPrefix := "/join_group "
  const LeaveGroupPrefix := "/leave_group "

  /** A command line after dispatch and argument splitting, before any validity check. */
  datatype Command =
    | Broadcast(text: string)
    | PrivateMsg(recipient: string, content: string)
    | GroupMsg(group: string, content: string)
    | CreateGroup(name: string)
    | JoinGroup(name: string)
    | LeaveGroup(name: string)
    | Unrecognised

  /**
    * The if/else-if chain of the command loop on a line whose newlines are already
    * removed. The prefixes are tried in a fixed order and the first one that matches
    * decides; the argument is the text after the prefix (`substr(11)`, `substr(5)`, ...),
    * split into a first token and the rest for `/msg` and `/group_msg`.
    */
  function Parse(line: string): Command
  {
    if StartsWith(line, BroadcastPrefix) then Broadcast(line[11..])
    else if StartsWith(line, MsgPrefix) then
      var (recipient, content) := SplitFirstToken(line[5..]);
      PrivateMsg(recipient, content)
    else if StartsWith(line, GroupMsgPrefix) then
      var (group, content) := SplitFirstToken(line[11..]);
      GroupMsg(group, content)
    else if StartsWith(line, CreateGroupPrefix) then CreateGroup(line[14..])
    else if StartsWith(line, JoinGroupPrefix) then JoinGroup(line[12..])
    else if StartsWith(line, LeaveGroupPrefix) then LeaveGroup(line[13..])
    else Unrecognised
  }

  /**
    * The dispatch: each command is chosen exactly when its prefix matches and none of the
    * prefixes tested before it does; a line matching none is unrecognised.
    */
  lemma ParseDispatch(line: string)
    ensures Parse(line).Broadcast? <==> StartsWith(line, BroadcastPrefix)
    ensures Parse(line).PrivateMsg? <==> !StartsWith(line, BroadcastPrefix) && StartsWith(line, MsgPrefix)
    ensures Parse(line).GroupMsg? <==>
      !StartsWith(line, BroadcastPrefix) && !StartsWith(line, MsgPrefix) && StartsWith(line, GroupMsgPrefix)
    ensures Parse(line).CreateGroup? <==>
      !StartsWith(line, BroadcastPrefix) && !StartsWith(line, MsgPrefix) && !StartsWith(line, GroupMsgPrefix)
      && StartsWith(line, CreateGroupPrefix)
    ensures Parse(line).JoinGroup? <==>
      !StartsWith(line, BroadcastPrefix) && !StartsWith(line, MsgPrefix) && !StartsWith(line, GroupMsgPrefix)
      && !StartsWith(line, CreateGroupPrefix) && StartsWith(line, JoinGroupPrefix)
    ensures Parse(line).LeaveGroup? <==>
      !StartsWith(line, BroadcastPrefix) && !StartsWith(line, MsgPrefix) && !StartsWith(line, GroupMsgPrefix)
      && !StartsWith(line, CreateGroupPrefix) && !StartsWith(line, JoinGroupPrefix)
      && StartsWith(line, LeaveGroupPrefix)
    ensures Parse(line).Unrecognised? <==>
      !StartsWith(line, BroadcastPrefix) && !StartsWith(line, MsgPrefix) && !StartsWith(line, GroupMsgPrefix)
      && !StartsWith(line, CreateGroupPrefix) && !StartsWith(line, JoinGroupPrefix)
      && !StartsWith(line, LeaveGroupPrefix)
  {
  }

  /** The argument is the exact text after the prefix; `/msg` and `/group_msg` split it at the first token. */
  lemma ParseArguments(line: string)
    ensures Parse(line).Broadcast? ==> line == BroadcastPrefix + Parse(line).text
    ensures Parse(line).PrivateMsg? ==>
      (Parse(line).recipient, Parse(line).content) == SplitFirstToken(line[|MsgPrefix|..])
    ensures Parse(line).GroupMsg? ==>
      (Parse(line).group, Parse(line).content) == SplitFirstToken(line[|GroupMsgPrefix|..])
    ensures Parse(line).CreateGroup? ==> line == CreateGroupPrefix + Parse(line).name
    ensures Parse(line).JoinGroup? ==> line == JoinGroupPrefix + Parse(line).name
    ensures Parse(line).LeaveGroup? ==> line == LeaveGroupPrefix + Parse(line).name
  {
    if StartsWith(line, BroadcastPrefix) {
      StartsWithSplit(line, BroadcastPrefix);
    } else if StartsWith(line, MsgPrefix) || StartsWith(line, GroupMsgPrefix) {
    } else if StartsWith(line, CreateGroupPrefix) {
      StartsWithSplit(line, CreateGroupPrefix);
    } else if StartsWith(line, JoinGroupPrefix) {
      StartsWithSplit(line, JoinGroupPrefix);
    } else if StartsWith(line, LeaveGroupPrefix) {
      StartsWithSplit(line, LeaveGroupPrefix);
    }
  }

  /** A line that starts with a prefix agrees with it in the second character. */
  lemma SecondChar(line: string, prefix: string)
    requires |prefix| >= 2 && StartsWith(line, prefix)
    ensures |line| >= 2 && line[1] == prefix[1]
  {
    assert line[..|prefix|][1] == line[1];
  }

  /**
    * No line starts with two of the six prefixes, so the order of the tests never
    * hides a command (in particular `/msg ` never captures a `/group_msg ` line).
    */
  lemma PrefixesExclusive(line: string)
    ensures StartsWith(line, BroadcastPrefix) ==>
      !StartsWith(line, MsgPrefix) && !StartsWith(line, GroupMsgPrefix)
      && !StartsWith(line, CreateGroupPrefix) && !StartsWith(line, JoinGroupPrefix) && !StartsWith(line, LeaveGroupPrefix)
    ensures StartsWith(line, MsgPrefix) ==>
      !StartsWith(line, GroupMsgPrefix)
      && !StartsWith(line, CreateGroupPrefix) && !StartsWith(line, JoinGroupPrefix) && !StartsWith(line, LeaveGroupPrefix)
    ensures StartsWith(line, GroupMsgPrefix) ==>
      !StartsWith(line, CreateGroupPrefix) && !StartsWith(line, JoinGroupPrefix) && !StartsWith(line, LeaveGroupPrefix)
    ensures StartsWith(line, CreateGroupPrefix) ==> !StartsWith(line, JoinGroupPrefix) && !StartsWith(line, LeaveGroupPrefix)
    ensures StartsWith(line, JoinGroupPrefix) ==> !StartsWith(line, LeaveGroupPrefix)
  {
    // The six prefixes already differ in their second character.
    var prefixes := [BroadcastPrefix, MsgPrefix, GroupMsgPrefix, CreateGroupPrefix, JoinGroupPrefix, LeaveGroupPrefix];
    forall i | 0 <= i < |prefixes| && StartsWith(line, prefixes[i]) ensures line[1] == prefixes[i][1] {
      SecondChar(line, prefixes[i]);
    }
    assert prefixes[0][1] == 'b' && prefixes[1][1] == 'm' && prefixes[2][1] == 'g';
    assert prefixes[3][1] == 'c' && prefixes[4][1] == 'j' && prefixes[5][1] == 'l';
  }

  /**
    * `/msg R C` with a one-token recipient: the recipient is R and the content keeps the
    * separating space, so the delivered text reads "Private message from S:  C".
    */
  lemma ParsePrivateMsg(recipient: string, content: string)
    requires recipient != [] && forall c :: c in recipient ==> !IsSpace(c)
    ensures Parse(MsgPrefix + recipient + " " + content) == PrivateMsg(recipient, " " + content)
  {
    var line := MsgPrefix + recipient + " " + content;
    StartsWithConcat(MsgPrefix, recipient + " " + content);
    assert line == MsgPrefix + (recipient + " " + content);
    assert !StartsWith(line, BroadcastPrefix) by { assert line[1] == 'm'; }
    assert line[|MsgPrefix|..] == [] + recipient + (" " + content);
    SplitFirstTokenOf([], recipient, " " + content);
  }

  /** `/group_msg G T` with a one-token group name, the same way. */
  lemma ParseGroupMsg(group: string, content: string)
    requires group != [] && forall c :: c in group ==> !IsSpace(c)
    ensures Parse(GroupMsgPrefix + group + " " + content) == GroupMsg(group, " " + content)
  {
    var line := GroupMsgPrefix + group + " " + content;
    StartsWithConcat(GroupMsgPrefix, group + " " + content);
    assert line == GroupMsgPrefix + (group + " " + content);
    assert !StartsWith(line, BroadcastPrefix) by { assert line[1] == 'g'; }
    assert !StartsWith(line, MsgPrefix) by { assert line[1] == 'g'; }
    assert line[|GroupMsgPrefix|..] == [] + group + (" " + content);
    SplitFirstTokenOf([], group, " " + content);
  }

  /** `/broadcast ` followed by any text parses back to that text, spaces and all. */
  lemma ParseBroadcast(text: string)
    ensures Parse(BroadcastPrefix + text) == Broadcast(text)
  {
    StartsWithConcat(BroadcastPrefix, text);
  }

  /** The group-name commands take the whole rest of the line as the name. */
  lemma ParseCreateGroup(name: string)
    ensures Parse(CreateGroupPrefix + name) == CreateGroup(name)
  {
    var line := CreateGroupPrefix + name;
    StartsWithConcat(CreateGroupPrefix, name);
    assert !StartsWith(line, BroadcastPrefix) && !StartsWith(line, MsgPrefix) && !StartsWith(line, GroupMsgPrefix) by {
      assert line[1] == 'c';
    }
  }

  lemma ParseJoinGroup(name: string)
    ensures Parse(JoinGroupPrefix + name) == JoinGroup(name)
  {
    var line := JoinGroupPrefix + name;
    StartsWithConcat(JoinGroupPrefix, name);
    assert !StartsWith(line, BroadcastPrefix) && !StartsWith(line, MsgPrefix) && !StartsWith(line, GroupMsgPrefix)
      && !StartsWith(line, CreateGroupPrefix) by {
      assert line[1] == 'j';
    }
  }

  lemma ParseLeaveGroup(name: string)
    ensures Parse(LeaveGroupPrefix + name) == LeaveGroup(name)
  {
    var line := LeaveGroupPrefix + name;
    StartsWithConcat(LeaveGroupPrefix, name);
    assert !StartsWith(line, BroadcastPrefix) && !StartsWith(line, MsgPrefix) && !StartsWith(line, GroupMsgPrefix)
      && !StartsWith(line, CreateGroupPrefix) && !StartsWith(line, JoinGroupPrefix) by {
      assert line[1] == 'l';
    }
  }

  /** A `/msg ` line with nothing but separators after the prefix has no recipient. */
  lemma ParsePrivateMsgBlank(blank: string)
    requires AllSpace(blank)
    ensures Parse(MsgPrefix + blank) == PrivateMsg("", "")
  {
    var line := MsgPrefix + blank;
    StartsWithConcat(MsgPrefix, blank);
    assert !StartsWith(line, BroadcastPrefix) by { assert line[1] == 'm'; }
  }
}
