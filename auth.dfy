/**
  * The credential store and the login decision: the per-line split of `users.txt`, the
  * loop in `main` that fills the username -> password map, and the check made once per
  * connection (exact password match, plus the duplicate-login guard of the updated server).
  */
module AuthGate {

  /** One line of the credential file after `line.find(':')`. */
  datatype CredentialLine = Entry(username: string, password: string) | Skipped

  /** Position of the first ':' in `line`, or `|line|` when there is none (`npos`). */
  function FindColon(line: string): (i: nat)
    ensures i <= |line|
    ensures ':' !in line[..i]
    ensures i < |line| ==> line[i] == ':'
  {
    if line == [] || line[0] == ':' then 0
    else
      var j := FindColon(line[1..]);
      assert line[..j + 1] == [line[0]] + line[1..][..j];
      j + 1
  }

  /**
    * Splits a credential line at its FIRST ':'. The username never contains ':', the
    * password may; a line without ':' defines nothing.
    */
  function ParseCredentialLine(line: string): (r: CredentialLine)
    ensures r.Skipped? <==> ':' !in line
    ensures r.Entry? ==> line == r.username + ":" + r.password && ':' !in r.username
  {
    var i := FindColon(line);
    if i == |line| then Skipped
    else
      assert line == line[..i] + ":" + line[i + 1..];
      Entry(line[..i], line[i + 1..])
  }

  /** The first ':' after a colon-free prefix is the one right after it. */
  lemma {:induction false} FindColonAfter(username: string, rest: string)
    requires ':' !in username
    ensures FindColon(username + ":" + rest) == |username|
  {
    var line := username + ":" + rest;
    if username == [] {
      assert line[0] == ':';
    } else {
      assert line[0] == username[0];
      assert username[0] in username;
      assert line[1..] == username[1..] + ":" + rest;
      FindColonAfter(username[1..], rest);
    }
  }

  /** Joining a colon-free username and any password with ':' and splitting again gives them back. */
  lemma ParseCredentialLineOf(username: string, password: string)
    requires ':' !in username
    ensures ParseCredentialLine(username + ":" + password) == Entry(username, password)
  {
    var line := username + ":" + password;
    FindColonAfter(username, password);
    assert line[..|username|] == username;
    assert line[|username| + 1..] == password;
  }

  /** `line` assigns a password to `username`. */
  predicate Defines(line: string, username: string) {
    var r := ParseCredentialLine(line);
    r.Entry? && r.username == username
  }

  /** The map `main` builds from the lines of `users.txt`, read in order. */
  function CredentialsOf(lines: seq<string>): (users: map<string, string>)
    ensures forall u :: u in users ==> ':' !in u
  {
    if lines == [] then map[]
    else
      var users := CredentialsOf(lines[..|lines| - 1]);
      match ParseCredentialLine(lines[|lines| - 1])
      case Skipped => users
      case Entry(username, password) => users[username := password]
  }

  /** The `while (getline(file, line))` loop of `main`, on the lines already read. */
  method LoadCredentials(lines: seq<string>) returns (users: map<string, string>)
    ensures users == CredentialsOf(lines)
  {
    users := map[];
    var i := 0;
    while i < |lines|
      invariant 0 <= i <= |lines|
      invariant users == CredentialsOf(lines[..i])
    {
      assert lines[..i + 1][..i] == lines[..i];
      var parsed := ParseCredentialLine(lines[i]);
      if parsed.Entry? {
        users := users[parsed.username := parsed.password];
      }
      i := i + 1;
    }
    assert lines[..i] == lines;
  }

  /** A username that some line defines is known. */
  lemma {:induction false} CredentialsDefined(lines: seq<string>, i: nat, username: string)
    requires i < |lines| && Defines(lines[i], username)
    ensures username in CredentialsOf(lines)
  {
    var init := lines[..|lines| - 1];
    if i < |lines| - 1 {
      assert init[i] == lines[i];
      CredentialsDefined(init, i, username);
    }
  }

  /** Only usernames that some line defines are known. */
  lemma {:induction false} CredentialsOnlyDefined(lines: seq<string>, username: string)
    requires username in CredentialsOf(lines)
    ensures exists i :: 0 <= i < |lines| && Defines(lines[i], username)
  {
    var last := |lines| - 1;
    var init := lines[..last];
    if Defines(lines[last], username) {
      assert 0 <= last < |lines| && Defines(lines[last], username);
    } else {
      assert username in CredentialsOf(init);
      CredentialsOnlyDefined(init, username);
      var i :| 0 <= i < |init| && Defines(init[i], username);
      assert lines[i] == init[i];
    }
  }

  /** A later line for the same username overwrites an earlier one: the last definition wins. */
  lemma {:induction false} CredentialsLastWins(lines: seq<string>, i: nat)
    requires i < |lines| && ParseCredentialLine(lines[i]).Entry?
    requires forall j :: i < j < |lines| ==> !Defines(lines[j], ParseCredentialLine(lines[i]).username)
    ensures var e := ParseCredentialLine(lines[i]);
      e.username in CredentialsOf(lines) && CredentialsOf(lines)[e.username] == e.password
  {
    if i < |lines| - 1 {
      var init := lines[..|lines| - 1];
      assert init[i] == lines[i];
      forall j | i < j < |init| ensures !Defines(init[j], ParseCredentialLine(init[i]).username) {
        assert init[j] == lines[j];
      }
      CredentialsLastWins(init, i);
      assert !Defines(lines[|lines| - 1], ParseCredentialLine(lines[i]).username);
    }
  }

  /** Outcome of the login check. */
  datatype Verdict = Admitted | BadCredentials | DuplicateLogin

  /**
    * The login decision: credentials must match exactly (the username is a key and the
    * stored password equals the received one); with the guard on, a username already in
    * the active set is turned away even with the right password.
    */
  function Authenticate(users: map<string, string>, active: set<string>, guarded: bool,
                        username: string, password: string): (v: Verdict)
    ensures v == BadCredentials <==> !(username in users && users[username] == password)
    ensures v == DuplicateLogin <==>
      guarded && username in users && users[username] == password && username in active
    ensures v == Admitted <==>
      username in users && users[username] == password && !(guarded && username in active)
  {
    if username in users && users[username] == password then
      if guarded && username in active then DuplicateLogin else Admitted
    else BadCredentials
  }
}
