# Chat relay server: registry, login and command dispatch

The relay is a TCP chat server. It starts one worker per connection. A worker asks for a username and a password and checks them against a credential map read from `users.txt`. If they pass, it registers the connection and relays commands:

- `/broadcast`
- `/msg` (private)
- `/group_msg`
- `/create_group`, `/join_group` and `/leave_group`

When the stream ends, it broadcasts an exit notice and cleans up. All workers share four collections:

- the list of connected sockets;
- the map from username to socket;
- the map from group name to member set;
- in the updated server only, the set of logged-in usernames.

There are two versions of the server:

- `server_grp.cpp` has no duplicate-login guard. A second login under a name simply overwrites that name's socket entry.
- `server_grp_updated.cpp` refuses a login whose name is already active. It also removes the departing user's name from that set on disconnect.

The model treats each worker action as one atomic step on the shared registry. There are three such steps:

- the login handshake;
- one received line;
- end of stream.

Each step returns the `send` calls it makes as a sequence of `Send(socket, text)`, in order.

Modules:

- `Text` (text.dfy) covers string handling:
  - the erase/remove of every `'\n'`;
  - the `rfind(prefix, 0) == 0` prefix test;
  - the `istringstream >> token; getline(rest)` split.
- `Protocol` (protocol.dfy) covers the wire vocabulary:
  - every reply and notice text, character for character;
  - the prefix dispatch of a command line, `Parse`.
- `AuthGate` (auth.dfy) covers credentials:
  - the split of one `users.txt` line at its first `':'`;
  - the loop in `main` that fills the credential map;
  - the login decision, with or without the guard.
- `Groups` (groups.dfy) covers the group table:
  - create, join and leave as functions from the table to an outcome (new table plus reply);
  - the cleanup loop that removes a user from every group.
- `Router` (router.dfy) covers the delivery functions:
  - who gets a broadcast: the connected list minus the sender, in list order;
  - who gets a group message: the members other than the sender that are registered, in the set's iteration order;
  - the erase/remove of a socket from the connected list.
- `Server` (server.dfy) holds the class `ChatServer`. Its fields are the four collections plus a ghost map of the live sessions, and `variant` selects one of the two servers. Its methods are the worker steps. Its invariant `Valid()` states:
  - every live session's socket is listed exactly once;
  - every registered name points at a live session opened under that name;
  - in the updated server, the active set equals the set of registered names, every live session is the one its name maps to, and every group member is a registered name.
- `Scenarios` (scenarios.dfy) holds short end-to-end runs from an empty registry. What each run states depends on what it shows; the sends of the logins that set it up are never kept. Names and texts are parameters.
  - `PrivateToConnected`, `PrivateToAbsent`, `TeamMessage` and `BaselineMessageLost` state the exact sends of their last step.
  - `FormTeam` states the registry it ends in and the replies of its two group commands.
  - `DuplicateLoginRefused` states the refusal, its exact sends, and that the first session's entry is intact.
  - `LoginAgainAfterExit` states only that the second login is admitted.
  - `BaselineSecondLogin` and `BaselineOrphanedSession` state the registry they end in.

## Model

| member | source | states |
|---|---|---|
| Text.StripAllNewlines | server_grp.cpp:189-190 | the stripped text contains no `'\n'`, and text without one is returned unchanged |
| Text.StripAllNewlinesCounts | server_grp.cpp:190 | stripping keeps every other character exactly as often as it occurred and removes every newline, wherever it stands |
| Text.StripAllNewlinesConcat | server_grp.cpp:117 | stripping distributes over concatenation, so a newline typed at the end of a line (or anywhere else) disappears |
| Text.StartsWith | server_grp.cpp:201 | the test holds exactly when the prefix is no longer than the line and equals the line's first characters |
| Text.SplitFirstToken | server_grp.cpp:209-212 | the token has no separator; the rest is empty or starts with a separator; the token is empty exactly when the input is all separators, and then the rest is empty too |
| Text.SplitFirstTokenReassembles | server_grp.cpp:209-212 | token followed by rest is exactly the tail of the input, and everything skipped before the token is a separator |
| Text.SplitFirstTokenOf | server_grp_updated.cpp:209-212 | separators, then a token, then an empty or separator-led rest splits back into exactly that token and that rest |
| Protocol.Parse | server_grp.cpp:201-323 | the if/else-if chain of the command loop; it has no contract of its own: ParseDispatch and ParseArguments state which command it picks and what the argument is |
| Protocol.ParseDispatch | server_grp.cpp:201-323 | each command is chosen exactly when its prefix matches and no earlier prefix does, in the order broadcast, msg, group_msg, create, join, leave; a line matching none is unrecognised |
| Protocol.ParseArguments | server_grp.cpp:202-299 | the argument is the exact text after the prefix (substr 11, 14, 12, 13); for `/msg` and `/group_msg` it is the first-token split of the text after the prefix |
| Protocol.PrefixesExclusive | server_grp_updated.cpp:202-290 | no line starts with two of the six prefixes, so the test order never hides a command |
| Protocol.JoinNotice | server_grp.cpp:157 | the notice starts with the user's name and ends in a newline |
| Protocol.ExitNotice | server_grp.cpp:170 | the notice starts with the user's name and does not end in a newline |
| Protocol.BroadcastText | server_grp.cpp:203 | the sender's name follows the fixed header, and the text comes last, verbatim |
| Protocol.PrivateText | server_grp.cpp:63 | the sender's name follows the fixed header, and the content comes last, verbatim |
| Protocol.UserNotFound | server_grp.cpp:68 | the notice quotes the recipient after its fixed header and ends in a newline |
| Protocol.GroupText | server_grp.cpp:84 | sender, then group, each at its fixed offset, then the content verbatim |
| Protocol.ParseBroadcast | server_grp.cpp:201-202 | `/broadcast ` followed by any text, possibly empty, parses to exactly that text |
| Protocol.ParsePrivateMsg | server_grp.cpp:208-212 | `/msg R C` with a one-token R gives recipient R and content " C", which keeps the separating space |
| Protocol.ParsePrivateMsgBlank | server_grp.cpp:208-219 | a `/msg ` line with only separators after the prefix has an empty recipient and empty content, so it draws the invalid-format reply |
| Protocol.ParseGroupMsg | server_grp.cpp:223-227 | `/group_msg G T` with a one-token G gives group G and content " T" |
| Protocol.ParseCreateGroup | server_grp.cpp:251-252 | the whole rest of the line, spaces included, is the group name |
| Protocol.ParseJoinGroup | server_grp.cpp:272-273 | the whole rest of the line is the group name |
| Protocol.ParseLeaveGroup | server_grp.cpp:298-299 | the whole rest of the line is the group name |
| AuthGate.FindColon | server_grp_updated.cpp:356 | the position found is that of the first `':'`, or the line length when there is none |
| AuthGate.ParseCredentialLine | server_grp_updated.cpp:356-359 | a line without `':'` is skipped; otherwise the line is username + ":" + password, where the username has no `':'` and the password may contain one |
| AuthGate.ParseCredentialLineOf | server_grp_updated.cpp:356-359 | joining a colon-free username and any password with `':'` and splitting again gives both back |
| AuthGate.CredentialsOf | server_grp_updated.cpp:355-362 | the map the loop builds, as a fold over the lines; none of its usernames contains `':'` |
| AuthGate.LoadCredentials | server_grp_updated.cpp:355-362 | the loop builds exactly the map `CredentialsOf` gives for the lines read |
| AuthGate.CredentialsDefined | server_grp_updated.cpp:355-362 | every username that some line defines is a key of the map |
| AuthGate.CredentialsOnlyDefined | server_grp_updated.cpp:355-362 | every key of the map is defined by some line; skipped lines add nothing |
| AuthGate.CredentialsLastWins | server_grp_updated.cpp:360 | a username's password is the one from the last line that defines it |
| AuthGate.Authenticate | server_grp_updated.cpp:128-147 | refused for bad credentials exactly when the name is not a key or the password differs; refused as a duplicate exactly when the guard is on, the credentials match and the name is active; admitted exactly otherwise |
| Groups.Create | server_grp.cpp:251-269 | an empty name gets the empty-name error; a free name becomes a group with only the creator; a taken name gets "Group already exists." and no change; no other group is touched |
| Groups.Join | server_grp.cpp:272-295 | the user is added only to an existing group it is not yet in; an empty name, a missing group or existing membership each get their own reply and leave the table unchanged; no group is created |
| Groups.Leave | server_grp.cpp:298-317 | the user is removed only from an existing group it belongs to; the group stays even when it becomes empty; both other failures share one reply and change nothing |
| Groups.RemoveFromAllGroups | server_grp.cpp:179-182 | afterwards the same groups exist, each with exactly its old members minus the user |
| Groups.CreateMakesSoleMember | server_grp.cpp:257-263 | right after creating a free name, its members are exactly the creator |
| Groups.JoinTwice | server_grp.cpp:278-288 | a second join reports membership and changes nothing |
| Groups.JoinThenLeave | server_grp.cpp:272-317 | leaving right after joining restores the table exactly |
| Groups.LeaveFailureKeepsTable | server_grp.cpp:312-315 | a failed leave keeps the table and sends the combined error |
| Router.Without | server_grp.cpp:176 | the removed socket is absent; every other socket is kept exactly when it was there; a list with no duplicates stays duplicate-free |
| Router.EraseRemove | server_grp_updated.cpp:182 | the loop builds exactly `Without` of the list |
| Router.BroadcastTo | server_grp.cpp:42-49 | one send per socket that `Without` keeps |
| Router.BroadcastOrder | server_grp.cpp:44-47 | the i-th send goes, with the broadcast text, to the i-th socket `Without` keeps, which is list order |
| Router.BroadcastReaches | server_grp.cpp:42-49 | a socket receives a text exactly when it is connected, is not the sender's, and the text is the broadcast one |
| Router.BroadcastSkipsAppendedSender | server_grp.cpp:150-158 | appending the sender's socket before broadcasting the join notice adds no send |
| Router.GroupDeliveries | server_grp.cpp:80-91 | every send carries the formatted group text, and there is at most one per visited member |
| Router.GroupDeliveriesOnlyMembers | server_grp.cpp:86-89 | only the socket of a visited, registered member other than the sender is written to |
| Router.GroupDeliveriesReach | server_grp.cpp:86-89 | every visited, registered member other than the sender is written to |
| Router.GroupDeliveriesOnce | server_grp_updated.cpp:86-90 | when each member is visited once, the number of sends equals the number of registered members other than the sender |
| Server.Handshake | server_grp.cpp:110-121 | the two prompts, both to the new socket |
| Server.GroupStep | server_grp.cpp:251-317 | what one line does to the group table: only the three group commands change it, no group disappears, and nobody but the sender is added |
| Server.GroupsAfter | server_grp.cpp:162-323 | the group table after the command loop has handled the lines in order; no group disappears |
| Server.RegisterKeepsConsistent | server_grp_updated.cpp:130-160 | registering a fresh socket keeps the registry consistent, given that the guard let the name in |
| Server.UnregisterKeepsConsistent | server_grp_updated.cpp:179-189 | the cleanup keeps the registry consistent |
| Server.GroupChangeKeepsConsistent | server_grp_updated.cpp:247-308 | a group change that adds only the sender keeps the registry consistent |
| Server.ChatServer.constructor | server_grp.cpp:24-31 | every collection starts empty, and the invariant holds |
| Server.ChatServer.BroadcastMessage | server_grp.cpp:42-49 | the loop over the connected list sends exactly `BroadcastTo` of it |
| Server.ChatServer.PrivateMessage | server_grp.cpp:58-71 | a registered recipient gets exactly one send of "Private message from S: " + content at its socket; otherwise the sender's registered socket gets the not-found notice |
| Server.ChatServer.SendGroupMessage | server_grp.cpp:80-97 | a missing group sends nothing; otherwise the sends are `GroupDeliveries` for some enumeration of the member set |
| Server.ChatServer.Login | server_grp_updated.cpp:105-166 | admitted iff the name is a key, the password is equal, and (updated only) the name is not active. A refusal sends the two prompts plus "Authentication failed\n" or "User already logged in\n" and changes nothing. An admission appends the socket, maps the name to it (overwriting any earlier entry), adds the name to the active set (updated only), sends "Authentication Successful\n" and sends the join notice to every other connected socket |
| Server.ChatServer.Register | server_grp.cpp:148-159 | the socket is appended, the name is mapped to it, the success reply comes first, then the join notice goes to the old connected list minus the socket; the invariant is kept |
| Server.ChatServer.HandleLine | server_grp.cpp:189-323 | for each parsed command of the stripped line, the exact sends and the new group table, which is `GroupStep` of the old one; the socket list, the name map, the active set and the sessions never change |
| Server.ChatServer.Disconnect | server_grp.cpp:165-186 | the exit notice (no trailing newline) goes to every other socket of the list before cleanup; then the socket is gone from the list (all occurrences), the name from the map and (updated only) from the active set, and the user from every group; no group is deleted |
| Server.ChatServer.CommandLoop | server_grp.cpp:161-323 | over any sequence of lines, the group table becomes exactly `GroupsAfter` of the old one and the lines, while the socket list, the name map, the active set and the sessions stay as they were; the worker's name need not still map to its socket |
| Server.ChatServer.Serve | server_grp_updated.cpp:169-192 | after the loop and the cleanup, the socket list is the old one without the socket, the name is erased from the map (and from the active set in the updated server), the session is gone, and each group is what the loop made it, minus the user; this holds also for a baseline worker whose name a later login took over |
| Server.ChatServer.Session | server_grp.cpp:161-186 | after an admitted login, the loop and the cleanup give back the socket list and active set from before the login, the name map minus the name, and each group as the loop made it, minus the user; the whole greeting it is given (the login's sends) stays first |
| Server.ChatServer.HandleClient | server_grp.cpp:106-325 | the two prompts come first; the login is admitted exactly when the name is a key, the password matches and, in the updated server, the name is not active; a refused login sends exactly the prompts and "User already logged in\n" or "Authentication failed\n", and changes nothing; when admitted the success reply follows the prompts, and then the join notice to every other connected socket; an admitted worker that runs to end of stream leaves the socket list, the active set and the sessions as they were, erases its name from the map, and leaves each group as its commands made it, minus itself |
| Server.AtMostOneSessionPerUser | server_grp_updated.cpp:130-139 | with the guard, no two live sessions share a username |
| Server.LiveSessionReachable | server_grp_updated.cpp:130-139 | with the guard, every live session is the one its username maps to |
| Server.ActiveUsersAreRegistered | server_grp_updated.cpp:138-184 | with the guard, the active set is exactly the set of registered usernames |
| Scenarios.PrivateToConnected | server_grp.cpp:58-71 | alice's `/msg bob W` yields exactly one send, "Private message from alice:  W" to bob's socket |
| Scenarios.PrivateToAbsent | server_grp_updated.cpp:62-73 | alice's `/msg carol W`, with carol not connected, yields exactly the not-found notice to alice |
| Scenarios.FormTeam | server_grp.cpp:251-295 | after alice creates a group and bob joins it, its members are exactly {alice, bob}, and the replies are the two success messages |
| Scenarios.TeamMessage | server_grp.cpp:223-248 | alice's `/group_msg team T` sends exactly one message, to bob; alice and the connected non-member carol get nothing |
| Scenarios.DuplicateLoginRefused | server_grp_updated.cpp:130-139 | a second login as alice gets the two prompts plus "User already logged in\n", and the first session stays registered |
| Scenarios.LoginAgainAfterExit | server_grp_updated.cpp:174-192 | once alice's session ends, a new login as alice is admitted |
| Scenarios.BaselineSecondLogin | server_grp.cpp:148-153 | without the guard, a second login as alice is admitted and her entry now names the new socket |
| Scenarios.BaselineOrphanedSession | server_grp.cpp:174-182 | when the first of those sessions ends, alice's entry goes although her second session is still live |
| Scenarios.BaselineMessageLost | server_grp.cpp:58-71 | in that state, bob's `/msg alice W` is answered "not found" |

## Left out

- Socket I/O is not modelled: `socket`, `bind`, `listen`, `accept`, `close` and the return values of `send`. Each `recv` is one received line, and end of stream or an error is the end of the `received` sequence. A `send` is an entry of the returned sequence.
- `recv` framing is not modelled: `BUFFER_SIZE` truncation, a line split over two reads, and the cut at the first NUL when the buffer becomes a string.
- Threads and mutexes are not modelled. Each step is atomic, so lock order (for example `clients_mutex` taken under `groups_mutex`, or `active_users` erased under the wrong mutex) and interleavings between workers are not represented. The same goes for the order in which the updated login inserts into the active set, sends the success reply and registers: that all happens inside one step.
- Console logging through `std::cout` is not modelled. This includes the "group does not exist" log branch of `send_group_message`, which the command loop never reaches because it checks existence first.
- Reading `users.txt` with `std::ifstream` is left out. `main`'s accept loop and thread join are left out. `LoadCredentials` starts from the lines already read. The baseline's loop at server_grp.cpp:369-376 is the same as the updated one.
- Server.ChatServer.PrivateMessage: requires the recipient or the sender to be registered. When neither is, `operator[]` would insert a default entry for the sender (server_grp.cpp:67), and that is not modelled. `HandleLine` requires the sender to be registered only for a well-formed `/msg` to an unregistered name, and `CommandLoop` and `Serve` require the same of every received line.
- Server.ChatServer.SendGroupMessage: `unordered_set` iteration order is left open. The order is "some enumeration of the member set", and the contract holds for all of them.
- Text.SplitFirstToken: `getline` would stop at a `'\n'`. The command line has none left by then, so the split ignores that case.
- The separating space the relay keeps: the content of `/msg` and `/group_msg` keeps it after the token, so a private or group message reads "...: " + " " + text, with two spaces. The not-found notice ends in `"\n"`.
- Server.ChatServer.HandleClient: it states the registry after a complete run in isolation. For a refused login it states every send. For an admitted one it states the prompts, the success reply and the join notice. The sends after those are the sends of `Serve`, which are not stated (see below). Sends made by other workers in between are outside a single-worker step.
- Server.ChatServer.CommandLoop: the sends are not stated as a function of the lines. Each `/group_msg` is delivered in an order chosen at that line (the iteration order of the member set), so the sends have no single value. Each line's sends are stated by `HandleLine`.
- Server.ChatServer.Serve: its sends are not stated either, for the same reason. The exit notice is stated by `Disconnect`.
- Server.ChatServer.Session: it states that the greeting it is given comes first. The sends after the greeting are the sends of `Serve`, which are not stated for the reason given there.
- Strings are sequences of `char` rather than the byte strings of the source. Nothing depends on the difference: the only character tests are `isspace`, `'\n'` and `':'`, and `Text.IsSpace` is the C-locale whitespace set.

## Findings

| source | as written | input that shows it | evidently intended | confidence | as-written member | corrected member |
|---|---|---|---|---|---|---|
| server_grp.cpp:148-153 | a second login under a name already in use overwrites the name's socket entry, and the first session's cleanup later erases that entry by name (server_grp.cpp:177) | alice logs in on socket 1 and again on socket 3, then socket 1 reaches end of stream: socket 3 is still connected and serving alice, but bob's `/msg alice hi` is answered "Error: User 'alice' not found or not connected." | at most one live session per username, so every live session stays reachable under its name; this is what the guard in server_grp_updated.cpp:130-139 adds | not executed | Scenarios.BaselineMessageLost | Server.LiveSessionReachable |
