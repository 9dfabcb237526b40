/**
  * Short end-to-end runs of the relay from a fresh registry, with the exact sends each one
  * produces. Usernames, passwords and message texts are parameters (any single word with
  * no newline); socket numbers stand for the descriptors `accept` would hand out.
  */
module Scenarios {
  import opened Text
  import opened Protocol
  import opened Router
  import opened Server

  /** A line as a client sends it, terminated by Enter, is stripped back to what was typed. */
  lemma TypedLine(s: string)
    requires '\n' !in s
    ensures StripAllNewlines(s + "\n") == s
  {
    StripAllNewlinesConcat(s, "\n");
  }

  /** A non-empty name or word without separators or newlines. */
  predicate Word(s: string) {
    s != [] && '\n' !in s && forall c :: c in s ==> !IsSpace(c)
  }

  /** `name` logs in on a fresh socket with its password (and, with the guard, is not logged in yet). */
  method LogIn(server: ChatServer, sock: Socket, name: string, password: string)
    requires server.Valid() && sock !in server.sessions
    requires Word(name) && '\n' !in password
    requires name in server.users && server.users[name] == password
    requires server.variant == Updated ==> name !in server.activeUsers
    modifies server
    ensures server.Valid()
    ensures server.connectedClients == old(server.connectedClients) + [sock]
    ensures server.usernameToSocket == old(server.usernameToSocket)[name := sock]
    ensures server.sessions == old(server.sessions)[sock := name]
    ensures server.groupMembers == old(server.groupMembers)
    ensures server.activeUsers ==
      if server.variant == Updated then old(server.activeUsers) + {name} else old(server.activeUsers)
  {
    TypedLine(name);
    TypedLine(password);
    var out, admitted := server.Login(sock, name + "\n", password + "\n");
  }

  /**
    * The worker of `name` on `sock` reaches end of stream with no further command, whether
    * or not its name still maps to its socket.
    */
  method LogOut(server: ChatServer, sock: Socket, name: string)
    requires server.Valid() && sock in server.sessions && server.sessions[sock] == name
    modifies server
    ensures server.Valid()
    ensures server.connectedClients == Without(old(server.connectedClients), sock)
    ensures server.usernameToSocket == old(server.usernameToSocket) - {name}
    ensures server.sessions == old(server.sessions) - {sock}
    ensures server.activeUsers ==
      if server.variant == Updated then old(server.activeUsers) - {name} else old(server.activeUsers)
  {
    var bye := server.Serve(name, sock, []);
  }

  /** `alice` on socket 1 and then `bob` on socket 2 log in; `carol` has an account too. */
  method TwoUsers(variant: Variant, alice: string, pa: string, bob: string, pb: string, carol: string, pc: string)
    returns (server: ChatServer)
    requires Word(alice) && Word(bob) && Word(carol) && alice != bob && carol != alice && carol != bob
    requires '\n' !in pa && '\n' !in pb && '\n' !in pc
    ensures fresh(server) && server.Valid() && server.variant == variant
    ensures server.users == map[alice := pa, bob := pb, carol := pc]
    ensures server.connectedClients == [1, 2]
    ensures server.usernameToSocket == map[alice := 1, bob := 2]
    ensures server.activeUsers == if variant == Updated then {alice, bob} else {}
    ensures server.sessions == map[1 := alice, 2 := bob]
    ensures server.groupMembers == map[]
  {
    server := new ChatServer(variant, map[alice := pa, bob := pb, carol := pc]);
    LogIn(server, 1, alice, pa);
    LogIn(server, 2, bob, pb);
  }

  /** alice sends `/msg bob <word>`: bob alone receives it, the word after two spaces. */
  method PrivateToConnected(alice: string, pa: string, bob: string, pb: string, carol: string, pc: string,
                            hello: string)
    returns (out: seq<Send>)
    requires Word(alice) && Word(bob) && Word(carol) && alice != bob && carol != alice && carol != bob
    requires '\n' !in pa && '\n' !in pb && '\n' !in pc && '\n' !in hello
    ensures out == [Send(2, PrivateText(alice, " " + hello))]
  {
    var server := TwoUsers(Updated, alice, pa, bob, pb, carol, pc);
    var line := MsgPrefix + bob + " " + hello;
    ParsePrivateMsg(bob, hello);
    TypedLine(line);
    assert Parse(StripAllNewlines(line + "\n")) == PrivateMsg(bob, " " + hello);
    out := server.HandleLine(alice, 1, line + "\n");
  }

  /** alice sends `/msg carol <word>` while carol is not connected: only alice hears back. */
  method PrivateToAbsent(alice: string, pa: string, bob: string, pb: string, carol: string, pc: string,
                         hi: string)
    returns (out: seq<Send>)
    requires Word(alice) && Word(bob) && Word(carol) && alice != bob && carol != alice && carol != bob
    requires '\n' !in pa && '\n' !in pb && '\n' !in pc && '\n' !in hi
    ensures out == [Send(1, UserNotFound(carol))]
  {
    var server := TwoUsers(Updated, alice, pa, bob, pb, carol, pc);
    var line := MsgPrefix + carol + " " + hi;
    ParsePrivateMsg(carol, hi);
    TypedLine(line);
    assert Parse(StripAllNewlines(line + "\n")) == PrivateMsg(carol, " " + hi);
    assert carol !in server.usernameToSocket && server.usernameToSocket[alice] == 1;
    out := server.HandleLine(alice, 1, line + "\n");
  }

  /** `/create_group <team>` from a logged-in user, for a free name. */
  method CreateStep(server: ChatServer, user: string, sock: Socket, team: string) returns (out: seq<Send>)
    requires server.Valid() && sock in server.sessions && server.sessions[sock] == user
    requires Word(team) && team !in server.groupMembers
    modifies server
    ensures server.Valid()
    ensures unchanged(server`connectedClients, server`usernameToSocket, server`activeUsers, server`sessions)
    ensures server.groupMembers == old(server.groupMembers)[team := {user}]
    ensures out == [Send(sock, GroupCreated)]
  {
    var line := CreateGroupPrefix + team;
    ParseCreateGroup(team);
    TypedLine(line);
    out := server.HandleLine(user, sock, line + "\n");
  }

  /** `/join_group <team>` from a logged-in user who is not a member of that existing group. */
  method JoinStep(server: ChatServer, user: string, sock: Socket, team: string) returns (out: seq<Send>)
    requires server.Valid() && sock in server.sessions && server.sessions[sock] == user
    requires Word(team) && team in server.groupMembers && user !in server.groupMembers[team]
    modifies server
    ensures server.Valid()
    ensures unchanged(server`connectedClients, server`usernameToSocket, server`activeUsers, server`sessions)
    ensures server.groupMembers == old(server.groupMembers)[team := old(server.groupMembers)[team] + {user}]
    ensures out == [Send(sock, JoinedGroup)]
  {
    var line := JoinGroupPrefix + team;
    ParseJoinGroup(team);
    TypedLine(line);
    out := server.HandleLine(user, sock, line + "\n");
  }

  /** carol logs in too, on socket 3. */
  method ThreeUsers(alice: string, pa: string, bob: string, pb: string, carol: string, pc: string)
    returns (server: ChatServer)
    requires Word(alice) && Word(bob) && Word(carol) && alice != bob && carol != alice && carol != bob
    requires '\n' !in pa && '\n' !in pb && '\n' !in pc
    ensures fresh(server) && server.Valid() && server.variant == Updated
    ensures server.connectedClients == [1, 2, 3]
    ensures server.usernameToSocket == map[alice := 1, bob := 2, carol := 3]
    ensures server.sessions == map[1 := alice, 2 := bob, 3 := carol]
    ensures server.groupMembers == map[]
  {
    server := TwoUsers(Updated, alice, pa, bob, pb, carol, pc);
    LogIn(server, 3, carol, pc);
    assert server.connectedClients == [1, 2, 3];
  }

  /** All three are logged in; alice creates `team` and bob joins it, carol stays out. */
  method FormTeam(alice: string, pa: string, bob: string, pb: string, carol: string, pc: string, team: string)
    returns (server: ChatServer, replies: seq<Send>)
    requires Word(alice) && Word(bob) && Word(carol) && alice != bob && carol != alice && carol != bob
    requires '\n' !in pa && '\n' !in pb && '\n' !in pc && Word(team)
    ensures fresh(server) && server.Valid() && server.variant == Updated
    ensures server.connectedClients == [1, 2, 3]
    ensures server.usernameToSocket == map[alice := 1, bob := 2, carol := 3]
    ensures server.sessions == map[1 := alice, 2 := bob, 3 := carol]
    ensures server.groupMembers == map[team := {alice, bob}]
    ensures replies == [Send(1, GroupCreated), Send(2, JoinedGroup)]
  {
    server := ThreeUsers(alice, pa, bob, pb, carol, pc);
    var created := CreateStep(server, alice, 1, team);
    var joined := JoinStep(server, bob, 2, team);
    assert {alice} + {bob} == {alice, bob};
    replies := created + joined;
  }

  /**
    * alice sends `/group_msg team <word>`: bob receives it once, while alice (the sender)
    * and carol (connected, not a member) receive nothing.
    */
  method TeamMessage(alice: string, pa: string, bob: string, pb: string, carol: string, pc: string,
                     team: string, hi: string)
    returns (out: seq<Send>)
    requires Word(alice) && Word(bob) && Word(carol) && alice != bob && carol != alice && carol != bob
    requires '\n' !in pa && '\n' !in pb && '\n' !in pc && Word(team) && '\n' !in hi
    ensures out == [Send(2, GroupText(alice, team, " " + hi))]
  {
    var server, replies := FormTeam(alice, pa, bob, pb, carol, pc, team);
    var line := GroupMsgPrefix + team + " " + hi;
    ParseGroupMsg(team, hi);
    TypedLine(line);
    out := server.HandleLine(alice, 1, line + "\n");
    TwoMemberDelivery(alice, bob, carol, GroupText(alice, team, " " + hi));
  }

  /** Whatever order a two-member set is walked in, the sender's message reaches the other member once. */
  lemma TwoMemberDelivery(alice: string, bob: string, carol: string, text: string)
    requires alice != bob && carol != alice && carol != bob
    ensures forall order :: Enumerates(order, {alice, bob}) ==>
      GroupDeliveries(order, alice, map[alice := 1, bob := 2, carol := 3], text) == [Send(2, text)]
  {
    var sockets := map[alice := 1, bob := 2, carol := 3];
    forall order | Enumerates(order, {alice, bob})
      ensures GroupDeliveries(order, alice, sockets, text) == [Send(2, text)]
    {
      var out := GroupDeliveries(order, alice, sockets, text);
      GroupDeliveriesOnce(order, alice, sockets, text);
      assert (set m | m in order && m != alice && m in sockets) == {bob};
      GroupDeliveriesOnlyMembers(order, alice, sockets, text, out[0]);
    }
  }

  /**
    * With the guard, a second connection as alice (socket 3) gets the two prompts and the
    * refusal, and the first session keeps its registration.
    */
  method DuplicateLoginRefused(alice: string, pa: string, bob: string, pb: string, carol: string, pc: string)
    returns (out: seq<Send>, admitted: bool, firstIntact: bool)
    requires Word(alice) && Word(bob) && Word(carol) && alice != bob && carol != alice && carol != bob
    requires '\n' !in pa && '\n' !in pb && '\n' !in pc
    ensures !admitted && firstIntact
    ensures out == [Send(3, PromptUsername), Send(3, PromptPassword), Send(3, AlreadyLoggedIn)]
  {
    var server := TwoUsers(Updated, alice, pa, bob, pb, carol, pc);
    TypedLine(alice);
    TypedLine(pa);
    out, admitted := server.Login(3, alice + "\n", pa + "\n");
    firstIntact := server.usernameToSocket == map[alice := 1, bob := 2] && server.connectedClients == [1, 2];
  }

  /** With the guard, once alice's session ends a new login as alice succeeds again. */
  method LoginAgainAfterExit(alice: string, pa: string, bob: string, pb: string, carol: string, pc: string)
    returns (admitted: bool)
    requires Word(alice) && Word(bob) && Word(carol) && alice != bob && carol != alice && carol != bob
    requires '\n' !in pa && '\n' !in pb && '\n' !in pc
    ensures admitted
  {
    var server := TwoUsers(Updated, alice, pa, bob, pb, carol, pc);
    var bye := server.Disconnect(alice, 1);
    TypedLine(alice);
    TypedLine(pa);
    var out;
    out, admitted := server.Login(3, alice + "\n", pa + "\n");
  }

  /** Without the guard, alice logs in a second time on socket 3; her entry now names socket 3. */
  method BaselineSecondLogin(alice: string, pa: string, bob: string, pb: string, carol: string, pc: string)
    returns (server: ChatServer)
    requires Word(alice) && Word(bob) && Word(carol) && alice != bob && carol != alice && carol != bob
    requires '\n' !in pa && '\n' !in pb && '\n' !in pc
    ensures fresh(server) && server.Valid() && server.variant == Baseline
    ensures server.connectedClients == [1, 2, 3]
    ensures server.sessions == map[1 := alice, 2 := bob, 3 := alice]
    ensures server.usernameToSocket == map[alice := 3, bob := 2]
  {
    server := TwoUsers(Baseline, alice, pa, bob, pb, carol, pc);
    LogIn(server, 3, alice, pa);
    assert server.connectedClients == [1, 2, 3];
  }

  /**
    * Then her first session on socket 1 ends. Its cleanup erases the name, so socket 3 is
    * still connected and serving alice but no longer reachable under her name.
    */
  method BaselineOrphanedSession(alice: string, pa: string, bob: string, pb: string, carol: string, pc: string)
    returns (server: ChatServer)
    requires Word(alice) && Word(bob) && Word(carol) && alice != bob && carol != alice && carol != bob
    requires '\n' !in pa && '\n' !in pb && '\n' !in pc
    ensures fresh(server) && server.Valid() && server.variant == Baseline
    ensures server.connectedClients == [2, 3]
    ensures server.sessions == map[2 := bob, 3 := alice]
    ensures server.usernameToSocket == map[bob := 2]
  {
    server := BaselineSecondLogin(alice, pa, bob, pb, carol, pc);
    LogOut(server, 1, alice);
    assert Without([1, 2, 3], 1) == [2, 3] by {
      assert [1, 2, 3][..2] == [1, 2] && [1, 2][..1] == [1];
    }
    assert map[alice := 3, bob := 2] - {alice} == map[bob := 2];
    assert map[1 := alice, 2 := bob, 3 := alice] - {1} == map[2 := bob, 3 := alice];
  }

  /** In that state, bob's `/msg alice <word>` is answered "not found" although alice is connected. */
  method BaselineMessageLost(alice: string, pa: string, bob: string, pb: string, carol: string, pc: string,
                             hi: string)
    returns (out: seq<Send>)
    requires Word(alice) && Word(bob) && Word(carol) && alice != bob && carol != alice && carol != bob
    requires '\n' !in pa && '\n' !in pb && '\n' !in pc && '\n' !in hi
    ensures out == [Send(2, UserNotFound(alice))]
  {
    var server := BaselineOrphanedSession(alice, pa, bob, pb, carol, pc);
    var line := MsgPrefix + alice + " " + hi;
    ParsePrivateMsg(alice, hi);
    TypedLine(line);
    assert Parse(StripAllNewlines(line + "\n")) == PrivateMsg(alice, " " + hi);
    assert alice !in server.usernameToSocket && server.usernameToSocket[bob] == 2;
    out := server.HandleLine(bob, 2, line + "\n");
  }
}
