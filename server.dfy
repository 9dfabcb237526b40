/**
  * The relay's shared registry and the steps one connection worker takes on it. Each
  * step (login, one received line, end of stream) is one atomic transition that updates
  * the collections in place and returns the `send` calls it makes, in order.
  */
module Server {
  import opened Text
  import opened Protocol
  import opened Router
  import AuthGate
  import Groups

  /** The two versions of the server: without and with the duplicate-login guard. */
  datatype Variant = Baseline | Updated

  /** The two prompts every connection receives first. */
  function Handshake(sock: Socket): (r: seq<Send>)
    ensures |r| == 2 && forall p :: p in r ==> p.to == sock
  {
    [Send(sock, PromptUsername), Send(sock, PromptPassword)]
  }

  /**
    * Each live session's socket is listed once in `clients` and nothing else is; every
    * registered name points at a live session opened under that name. The baseline server
    * never fills `active`; the updated one keeps `OneSessionPerUser`.
    */
  ghost predicate Consistent(variant: Variant, clients: seq<Socket>, names: map<string, Socket>,
                             groups: Groups.GroupTable, active: set<string>, sessions: map<Socket, string>)
  {
    && NoDuplicates(clients)
    && (forall k :: k in clients <==> k in sessions)
    && (forall u :: u in names ==> names[u] in sessions && sessions[names[u]] == u)
    && (variant == Baseline ==> active == {})
    && (variant == Updated ==> OneSessionPerUser(names, groups, active, sessions))
  }

  /**
    * What the guard buys: the active set is the key set of `names`, every live session is
    * the one its name maps to (so a name has at most one session), and every group member
    * is a registered name.
    */
  ghost predicate OneSessionPerUser(names: map<string, Socket>, groups: Groups.GroupTable,
                                    active: set<string>, sessions: map<Socket, string>)
  {
    && active == names.Keys
    && (forall k :: k in sessions ==> sessions[k] in names && names[sessions[k]] == k)
    && (forall g, m :: g in groups && m in groups[g] ==> m in names)
  }

  /** A successful login keeps the registry consistent (for the updated server, given the guard let it in). */
  lemma RegisterKeepsConsistent(variant: Variant, clients: seq<Socket>, names: map<string, Socket>,
                                groups: Groups.GroupTable, active: set<string>, sessions: map<Socket, string>,
                                sock: Socket, user: string)
    requires Consistent(variant, clients, names, groups, active, sessions)
    requires sock !in sessions
    requires variant == Updated ==> user !in active
    ensures Consistent(variant, clients + [sock], names[user := sock], groups,
                       if variant == Updated then active + {user} else active, sessions[sock := user])
  {
    assert sock !in clients;
  }

  /** The cleanup at end of stream keeps the registry consistent. */
  lemma UnregisterKeepsConsistent(variant: Variant, clients: seq<Socket>, names: map<string, Socket>,
                                  groups: Groups.GroupTable, active: set<string>, sessions: map<Socket, string>,
                                  sock: Socket, user: string, groups': Groups.GroupTable)
    requires Consistent(variant, clients, names, groups, active, sessions)
    requires sock in sessions && sessions[sock] == user
    requires groups'.Keys == groups.Keys
    requires forall g :: g in groups' ==> groups'[g] == groups[g] - {user}
    ensures Consistent(variant, Without(clients, sock), names - {user}, groups',
                       if variant == Updated then active - {user} else active, sessions - {sock})
  {
  }

  /** A group command keeps the registry consistent: it adds no one to a group but the sender. */
  lemma GroupChangeKeepsConsistent(variant: Variant, clients: seq<Socket>, names: map<string, Socket>,
                                   groups: Groups.GroupTable, active: set<string>, sessions: map<Socket, string>,
                                   user: string, groups': Groups.GroupTable)
    requires Consistent(variant, clients, names, groups, active, sessions)
    requires variant == Updated ==> user in names
    requires forall g, m :: g in groups' && m in groups'[g] ==> m == user || (g in groups && m in groups[g])
    ensures Consistent(variant, clients, names, groups', active, sessions)
  {
  }

  /**
    * What one received line does to the group table: only the three group commands
    * change it, and they add no one but the sender.
    */
  function GroupStep(groups: Groups.GroupTable, user: string, line: string): (r: Groups.GroupTable)
    ensures groups.Keys <= r.Keys
    ensures forall g, m :: g in r && m in r[g] ==> m == user || (g in groups && m in groups[g])
  {
    match Parse(StripAllNewlines(line))
    case CreateGroup(name) => Groups.Create(groups, user, name).groups
    case JoinGroup(name) => Groups.Join(groups, user, name).groups
    case LeaveGroup(name) => Groups.Leave(groups, user, name).groups
    case _ => groups
  }

  /** The group table after a worker's command loop has handled `lines` in order. */
  function GroupsAfter(groups: Groups.GroupTable, user: string, lines: seq<string>): (r: Groups.GroupTable)
    ensures groups.Keys <= r.Keys
  {
    if lines == [] then groups
    else GroupStep(GroupsAfter(groups, user, lines[..|lines| - 1]), user, lines[|lines| - 1])
  }

  /**
    * A well-formed `/msg` to a name that is not registered in `names`: the only line whose
    * reply is addressed through the sender's own entry in the name map.
    */
  predicate RepliesViaSenderEntry(names: map<string, Socket>, line: string) {
    var cmd := Parse(StripAllNewlines(line));
    cmd.PrivateMsg? && cmd.recipient != "" && cmd.content != "" && cmd.recipient !in names
  }

  class ChatServer {
    /** Which of the two servers this instance follows. */
    const variant: Variant
    /** The credential map that `main` builds once and hands to every worker. */
    const users: map<string, string>

    var connectedClients: seq<Socket>
    var usernameToSocket: map<string, Socket>
    var groupMembers: Groups.GroupTable
    /** Only the updated server has this set; the baseline one leaves it empty. */
    var activeUsers: set<string>

    /** The live workers past authentication: each one's socket and the name it logged in with. */
    ghost var sessions: map<Socket, string>

    /** The class invariant: the registry fields are `Consistent`. */
    ghost predicate Valid()
      reads this
    {
      Consistent(variant, connectedClients, usernameToSocket, groupMembers, activeUsers, sessions)
    }

    constructor (variant: Variant, users: map<string, string>)
      ensures Valid()
      ensures this.variant == variant && this.users == users
      ensures connectedClients == [] && usernameToSocket == map[] && groupMembers == map[]
      ensures activeUsers == {} && sessions == map[]
    {
      this.variant := variant;
      this.users := users;
      connectedClients := [];
      usernameToSocket := map[];
      groupMembers := map[];
      activeUsers := {};
      sessions := map[];
    }

    /** `broadcast_message`: the text to every connected socket but the sender's, in list order. */
    method BroadcastMessage(message: string, senderSocket: Socket) returns (out: seq<Send>)
      ensures out == BroadcastTo(connectedClients, message, senderSocket)
    {
      out := [];
      var i := 0;
      while i < |connectedClients|
        invariant 0 <= i <= |connectedClients|
        invariant out == BroadcastTo(connectedClients[..i], message, senderSocket)
      {
        assert connectedClients[..i + 1][..i] == connectedClients[..i];
        if connectedClients[i] != senderSocket {
          out := out + [Send(connectedClients[i], message)];
        }
        i := i + 1;
      }
      assert connectedClients[..i] == connectedClients;
    }

    /**
      * `private_message`: one send, to the recipient's socket when the name is registered,
      * otherwise the not-found notice to the socket registered under the sender's name.
      */
    method PrivateMessage(sender: string, recipient: string, message: string) returns (out: seq<Send>)
      requires recipient in usernameToSocket || sender in usernameToSocket
      ensures recipient in usernameToSocket ==>
        out == [Send(usernameToSocket[recipient], PrivateText(sender, message))]
      ensures recipient !in usernameToSocket ==>
        out == [Send(usernameToSocket[sender], UserNotFound(recipient))]
    {
      if recipient in usernameToSocket {
        out := [Send(usernameToSocket[recipient], PrivateText(sender, message))];
      } else {
        out := [Send(usernameToSocket[sender], UserNotFound(recipient))];
      }
    }

    /**
      * `send_group_message`: walks the member set in some order and writes to each member
      * that is not the sender and is registered. A missing group only logs, so sends nothing.
      */
    method SendGroupMessage(sender: string, group: string, message: string) returns (out: seq<Send>)
      ensures group !in groupMembers ==> out == []
      ensures group in groupMembers ==>
        exists order :: Enumerates(order, groupMembers[group])
          && out == GroupDeliveries(order, sender, usernameToSocket, GroupText(sender, group, message))
    {
      out := [];
      if group in groupMembers {
        var text := GroupText(sender, group, message);
        var members := groupMembers[group];
        var pending := members;
        ghost var visited: seq<string> := [];
        while pending != {}
          invariant pending <= members
          invariant NoDuplicates(visited)
          invariant forall m :: m in visited <==> m in members && m !in pending
          invariant out == GroupDeliveries(visited, sender, usernameToSocket, text)
          decreases pending
        {
          var m :| m in pending;
          assert (visited + [m])[..|visited|] == visited;
          if m != sender && m in usernameToSocket {
            out := out + [Send(usernameToSocket[m], text)];
          }
          visited := visited + [m];
          pending := pending - {m};
        }
        assert Enumerates(visited, members);
      }
    }

    /**
      * The login handshake of `handle_client` on a freshly accepted socket: two prompts,
      * the credential check, the duplicate-login guard in the updated server (checked and
      * the name inserted in one step), registration and the join notice to everyone else.
      * A refused connection is closed with nothing registered.
      */
    method Login(sock: Socket, usernameLine: string, passwordLine: string) returns (out: seq<Send>, admitted: bool)
      requires Valid()
      requires sock !in sessions
      modifies this
      ensures Valid()
      ensures |out| >= 3 && out[..2] == Handshake(sock) && (admitted ==> out[2] == Send(sock, AuthSuccessful))
      ensures var username, password := StripAllNewlines(usernameLine), StripAllNewlines(passwordLine);
        admitted <==> username in users && users[username] == password
                      && !(variant == Updated && username in old(activeUsers))
      ensures var username, password := StripAllNewlines(usernameLine), StripAllNewlines(passwordLine);
        !admitted ==>
          && connectedClients == old(connectedClients) && usernameToSocket == old(usernameToSocket)
          && groupMembers == old(groupMembers) && activeUsers == old(activeUsers) && sessions == old(sessions)
          && out == Handshake(sock) + [Send(sock, if username in users && users[username] == password
                                                  then AlreadyLoggedIn else AuthFailed)]
      ensures var username := StripAllNewlines(usernameLine);
        admitted ==>
          && connectedClients == old(connectedClients) + [sock]
          && usernameToSocket == old(usernameToSocket)[username := sock]
          && activeUsers == (if variant == Updated then old(activeUsers) + {username} else old(activeUsers))
          && groupMembers == old(groupMembers)
          && sessions == old(sessions)[sock := username]
          && out == Handshake(sock) + [Send(sock, AuthSuccessful)]
                    + BroadcastTo(old(connectedClients), JoinNotice(username), sock)
    {
      var username := StripAllNewlines(usernameLine);
      var password := StripAllNewlines(passwordLine);
      out := Handshake(sock);
      var verdict := AuthGate.Authenticate(users, activeUsers, variant == Updated, username, password);
      if verdict == AuthGate.BadCredentials {
        out := out + [Send(sock, AuthFailed)];
        admitted := false;
      } else if verdict == AuthGate.DuplicateLogin {
        out := out + [Send(sock, AlreadyLoggedIn)];
        admitted := false;
      } else {
        var registered := Register(sock, username);
        out := out + registered;
        admitted := true;
      }
    }

    /**
      * The success path of the login: the name goes into the active set (updated server
      * only), the success reply is sent, the socket is appended and the name mapped to it
      * (overwriting any earlier entry), and the join notice goes to everyone else.
      */
    method Register(sock: Socket, username: string) returns (out: seq<Send>)
      requires Valid()
      requires sock !in sessions
      requires variant == Updated ==> username !in activeUsers
      modifies this
      ensures Valid()
      ensures connectedClients == old(connectedClients) + [sock]
      ensures usernameToSocket == old(usernameToSocket)[username := sock]
      ensures activeUsers == (if variant == Updated then old(activeUsers) + {username} else old(activeUsers))
      ensures groupMembers == old(groupMembers)
      ensures sessions == old(sessions)[sock := username]
      ensures out == [Send(sock, AuthSuccessful)] + BroadcastTo(old(connectedClients), JoinNotice(username), sock)
    {
      var active := if variant == Updated then activeUsers + {username} else activeUsers;
      var clients := connectedClients + [sock];
      var names := usernameToSocket[username := sock];
      ghost var live := sessions[sock := username];
      RegisterKeepsConsistent(variant, connectedClients, usernameToSocket, groupMembers, activeUsers,
                              sessions, sock, username);
      BroadcastSkipsAppendedSender(connectedClients, JoinNotice(username), sock);
      activeUsers := active;
      out := [Send(sock, AuthSuccessful)];
      connectedClients := clients;
      usernameToSocket := names;
      sessions := live;
      var joinNotice := BroadcastMessage(JoinNotice(username), sock);
      out := out + joinNotice;
    }

    /**
      * One received line in the command loop of `handle_client`: newlines removed, then
      * dispatched on its prefix. Only the group commands change anything, and only the
      * group table; every other effect is in the returned sends.
      */
    method HandleLine(user: string, sock: Socket, line: string) returns (out: seq<Send>)
      requires Valid()
      requires sock in sessions && sessions[sock] == user
      requires RepliesViaSenderEntry(usernameToSocket, line) ==> user in usernameToSocket
      modifies this
      ensures Valid()
      ensures connectedClients == old(connectedClients) && usernameToSocket == old(usernameToSocket)
      ensures activeUsers == old(activeUsers) && sessions == old(sessions)
      ensures groupMembers == GroupStep(old(groupMembers), user, line)
      ensures match Parse(StripAllNewlines(line))
        case Broadcast(text) =>
          groupMembers == old(groupMembers)
          && out == BroadcastTo(connectedClients, BroadcastText(user, text), sock)
        case PrivateMsg(recipient, content) =>
          groupMembers == old(groupMembers)
          && out == (if recipient == "" || content == "" then [Send(sock, InvalidMsgFormat)]
                     else if recipient in usernameToSocket
                     then [Send(usernameToSocket[recipient], PrivateText(user, content))]
                     else [Send(usernameToSocket[user], UserNotFound(recipient))])
        case GroupMsg(group, content) =>
          groupMembers == old(groupMembers)
          && (if group == "" || content == "" then out == [Send(sock, EmptyGroupFields)]
              else if group !in groupMembers then out == [Send(sock, NoSuchGroupForMsg)]
              else if user !in groupMembers[group] then out == [Send(sock, NotAMember)]
              else exists order :: Enumerates(order, groupMembers[group])
                     && out == GroupDeliveries(order, user, usernameToSocket, GroupText(user, group, content)))
        case CreateGroup(name) =>
          var r := Groups.Create(old(groupMembers), user, name);
          groupMembers == r.groups && out == [Send(sock, r.reply)]
        case JoinGroup(name) =>
          var r := Groups.Join(old(groupMembers), user, name);
          groupMembers == r.groups && out == [Send(sock, r.reply)]
        case LeaveGroup(name) =>
          var r := Groups.Leave(old(groupMembers), user, name);
          groupMembers == r.groups && out == [Send(sock, r.reply)]
        case Unrecognised =>
          groupMembers == old(groupMembers) && out == [Send(sock, IncorrectFormat)]
    {
      var message := StripAllNewlines(line);
      GroupChangeKeepsConsistent(variant, connectedClients, usernameToSocket, groupMembers, activeUsers,
                                 sessions, user, GroupStep(groupMembers, user, line));
      match Parse(message)
      case Broadcast(text) =>
        out := BroadcastMessage(BroadcastText(user, text), sock);
      case PrivateMsg(recipient, content) =>
        if recipient != "" && content != "" {
          out := PrivateMessage(user, recipient, content);
        } else {
          out := [Send(sock, InvalidMsgFormat)];
        }
      case GroupMsg(group, content) =>
        if group == "" || content == "" {
          out := [Send(sock, EmptyGroupFields)];
        } else if group in groupMembers {
          if user in groupMembers[group] {
            out := SendGroupMessage(user, group, content);
          } else {
            out := [Send(sock, NotAMember)];
          }
        } else {
          out := [Send(sock, NoSuchGroupForMsg)];
        }
      case CreateGroup(name) =>
        var r := Groups.Create(groupMembers, user, name);
        groupMembers := r.groups;
        out := [Send(sock, r.reply)];
      case JoinGroup(name) =>
        var r := Groups.Join(groupMembers, user, name);
        groupMembers := r.groups;
        out := [Send(sock, r.reply)];
      case LeaveGroup(name) =>
        var r := Groups.Leave(groupMembers, user, name);
        groupMembers := r.groups;
        out := [Send(sock, r.reply)];
      case Unrecognised =>
        out := [Send(sock, IncorrectFormat)];
    }

    /**
      * End of stream on the worker's socket: the exit notice to everyone else, read from
      * the list before cleanup, then the socket, the name (also from the active set in the
      * updated server) and the name's group memberships go. No group is deleted.
      */
    method Disconnect(user: string, sock: Socket) returns (out: seq<Send>)
      requires Valid()
      requires sock in sessions && sessions[sock] == user
      modifies this
      ensures Valid()
      ensures out == BroadcastTo(old(connectedClients), ExitNotice(user), sock)
      ensures connectedClients == Without(old(connectedClients), sock)
      ensures usernameToSocket == old(usernameToSocket) - {user}
      ensures activeUsers == (if variant == Updated then old(activeUsers) - {user} else old(activeUsers))
      ensures groupMembers.Keys == old(groupMembers).Keys
      ensures forall g :: g in groupMembers ==> groupMembers[g] == old(groupMembers)[g] - {user}
      ensures sessions == old(sessions) - {sock}
      ensures sock !in connectedClients && user !in usernameToSocket && user !in activeUsers
    {
      out := BroadcastMessage(ExitNotice(user), sock);
      var groups' := Groups.RemoveFromAllGroups(groupMembers, user);
      UnregisterKeepsConsistent(variant, connectedClients, usernameToSocket, groupMembers, activeUsers,
                                sessions, sock, user, groups');
      connectedClients := EraseRemove(connectedClients, sock);
      usernameToSocket := usernameToSocket - {user};
      if variant == Updated {
        activeUsers := activeUsers - {user};
      }
      groupMembers := groups';
      sessions := sessions - {sock};
    }

    /**
      * The command loop of `handle_client` for a logged-in worker: each received line in
      * turn. Only the group table changes, line by line as `GroupsAfter` folds it.
      */
    method CommandLoop(user: string, sock: Socket, received: seq<string>) returns (out: seq<Send>)
      requires Valid()
      requires sock in sessions && sessions[sock] == user
      requires forall l :: l in received && RepliesViaSenderEntry(usernameToSocket, l) ==> user in usernameToSocket
      modifies this
      ensures Valid()
      ensures sessions == old(sessions) && usernameToSocket == old(usernameToSocket)
      ensures connectedClients == old(connectedClients) && activeUsers == old(activeUsers)
      ensures groupMembers == GroupsAfter(old(groupMembers), user, received)
    {
      out := [];
      var i := 0;
      while i < |received|
        invariant 0 <= i <= |received|
        invariant Valid()
        invariant sessions == old(sessions) && usernameToSocket == old(usernameToSocket)
        invariant connectedClients == old(connectedClients) && activeUsers == old(activeUsers)
        invariant groupMembers == GroupsAfter(old(groupMembers), user, received[..i])
      {
        assert received[..i + 1][..i] == received[..i];
        var sent := HandleLine(user, sock, received[i]);
        out := out + sent;
        i := i + 1;
      }
      assert received[..i] == received;
    }

    /**
      * A logged-in worker's life after the handshake: the command loop over the received
      * lines, then the cleanup at end of stream. The worker's name need not still map to
      * its socket: in the baseline server a later login may have taken the entry over.
      */
    method Serve(user: string, sock: Socket, received: seq<string>) returns (out: seq<Send>)
      requires Valid()
      requires sock in sessions && sessions[sock] == user
      requires forall l :: l in received && RepliesViaSenderEntry(usernameToSocket, l) ==> user in usernameToSocket
      modifies this
      ensures Valid()
      ensures sessions == old(sessions) - {sock}
      ensures connectedClients == Without(old(connectedClients), sock)
      ensures usernameToSocket == old(usernameToSocket) - {user}
      ensures activeUsers == (if variant == Updated then old(activeUsers) - {user} else old(activeUsers))
      ensures groupMembers.Keys == GroupsAfter(old(groupMembers), user, received).Keys
      ensures forall g :: g in groupMembers ==> groupMembers[g] == GroupsAfter(old(groupMembers), user, received)[g] - {user}
    {
      var replies := CommandLoop(user, sock, received);
      var bye := Disconnect(user, sock);
      out := replies + bye;
    }

    /**
      * What follows an admitted login: `Serve` on a registry that the login extended by the
      * new socket and name, stated against the registry as it was before the login. The
      * sends follow the login's `greeting`.
      */
    method Session(greeting: seq<Send>, user: string, sock: Socket, received: seq<string>,
                   ghost clients0: seq<Socket>, ghost names0: map<string, Socket>, ghost active0: set<string>)
      returns (out: seq<Send>)
      requires |greeting| >= 3
      requires Valid()
      requires sock in sessions && sessions[sock] == user && sock !in clients0
      requires connectedClients == clients0 + [sock] && usernameToSocket == names0[user := sock]
      requires variant == Updated ==> user !in active0 && activeUsers == active0 + {user}
      requires variant == Baseline ==> activeUsers == active0
      modifies this
      ensures Valid()
      ensures |out| >= |greeting| && out[..|greeting|] == greeting
      ensures sessions == old(sessions) - {sock}
      ensures connectedClients == clients0 && usernameToSocket == names0 - {user} && activeUsers == active0
      ensures groupMembers.Keys == GroupsAfter(old(groupMembers), user, received).Keys
      ensures forall g :: g in groupMembers ==> groupMembers[g] == GroupsAfter(old(groupMembers), user, received)[g] - {user}
    {
      var served := Serve(user, sock, received);
      out := greeting + served;
      assert out[..|greeting|] == greeting;
      WithoutAppended(clients0, sock);
      assert usernameToSocket == names0 - {user};
    }

    /**
      * One run of `handle_client`: the handshake, then each received line in turn until
      * `recv` reports end of stream (after the last element of `received`), then cleanup.
      * Run on its own, an admitted worker leaves the socket list and the active set as they
      * were, erases its name's entry, and leaves the groups as its commands made them,
      * without itself.
      */
    method HandleClient(sock: Socket, usernameLine: string, passwordLine: string, received: seq<string>)
      returns (out: seq<Send>, admitted: bool)
      requires Valid()
      requires sock !in sessions
      modifies this
      ensures Valid()
      ensures sessions == old(sessions)
      ensures |out| >= 3 && out[..2] == Handshake(sock)
      ensures var username, password := StripAllNewlines(usernameLine), StripAllNewlines(passwordLine);
        admitted <==> username in users && users[username] == password
                      && !(variant == Updated && username in old(activeUsers))
      ensures var username, password := StripAllNewlines(usernameLine), StripAllNewlines(passwordLine);
        !admitted ==>
          && connectedClients == old(connectedClients) && usernameToSocket == old(usernameToSocket)
          && groupMembers == old(groupMembers) && activeUsers == old(activeUsers)
          && out == Handshake(sock) + [Send(sock, if username in users && users[username] == password
                                                  then AlreadyLoggedIn else AuthFailed)]
      ensures var username := StripAllNewlines(usernameLine);
        admitted ==>
          && out[2] == Send(sock, AuthSuccessful)
          && (var joined := BroadcastTo(old(connectedClients), JoinNotice(username), sock);
              |out| >= 3 + |joined| && out[..3 + |joined|] == Handshake(sock) + [Send(sock, AuthSuccessful)] + joined)
          && connectedClients == old(connectedClients)
          && usernameToSocket == old(usernameToSocket) - {username}
          && activeUsers == old(activeUsers)
          && groupMembers.Keys == GroupsAfter(old(groupMembers), username, received).Keys
          && forall g :: g in groupMembers ==>
               groupMembers[g] == GroupsAfter(old(groupMembers), username, received)[g] - {username}
    {
      ghost var clients0, names0, active0 := connectedClients, usernameToSocket, activeUsers;
      assert sock !in clients0;
      out, admitted := Login(sock, usernameLine, passwordLine);
      if admitted {
        var user := StripAllNewlines(usernameLine);
        ghost var greeting := out;
        assert greeting == Handshake(sock) + [Send(sock, AuthSuccessful)] + BroadcastTo(clients0, JoinNotice(user), sock);
        out := Session(out, user, sock, received, clients0, names0, active0);
        assert out[..|greeting|] == greeting;
      }
    }
  }

  /** With the guard, no two live sessions share a username. */
  lemma AtMostOneSessionPerUser(server: ChatServer, k1: Socket, k2: Socket)
    requires server.Valid() && server.variant == Updated
    requires k1 in server.sessions && k2 in server.sessions
    requires server.sessions[k1] == server.sessions[k2]
    ensures k1 == k2
  {
  }

  /**
    * With the guard, a live session is always the one its username maps to: a private or
    * group message to that name reaches it.
    */
  lemma LiveSessionReachable(server: ChatServer, k: Socket)
    requires server.Valid() && server.variant == Updated
    requires k in server.sessions
    ensures server.sessions[k] in server.usernameToSocket && server.usernameToSocket[server.sessions[k]] == k
  {
  }

  /** With the guard, the active set is exactly the set of registered usernames. */
  lemma ActiveUsersAreRegistered(server: ChatServer)
    requires server.Valid() && server.variant == Updated
    ensures server.activeUsers == server.usernameToSocket.Keys
  {
  }
}
