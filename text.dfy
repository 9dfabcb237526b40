/** String helpers used by the chat relay's login handshake and command loop. */
module Text {

  /** The separators `std::istringstream >>` skips in the C locale: space, \t, \n, \v, \f, \r. */
  predicate IsSpace(c: char) {
    c == ' ' || c == '\t' || c == '\n' || c == '\U{000B}' || c == '\U{000C}' || c == '\r'
  }

  /** All characters of `s` are separators (vacuously true of the empty string). */
  predicate AllSpace(s: string) {
    forall i :: 0 <= i < |s| ==> IsSpace(s[i])
  }

  /**
    * The received text with every '\n' removed, wherever it stands (the erase/remove
    * idiom applied to usernames, passwords and command lines), keeping the order and
    * the number of every other character.
    */
  function StripAllNewlines(s: string): (r: string)
    ensures '\n' !in r
    ensures '\n' !in s ==> r == s
  {
    if s == [] then []
    else if s[0] == '\n' then StripAllNewlines(s[1..])
    else [s[0]] + StripAllNewlines(s[1..])
  }

  /** Stripping keeps every other character as often as it occurred and drops every '\n'. */
  lemma {:induction false} StripAllNewlinesCounts(s: string)
    ensures multiset(StripAllNewlines(s)) == multiset(s)['\n' := 0]
  {
    if s != [] {
      assert s == [s[0]] + s[1..];
      StripAllNewlinesCounts(s[1..]);
    }
  }

  /** Stripping distributes over concatenation, so it removes newlines at any position. */
  lemma {:induction false} StripAllNewlinesConcat(a: string, b: string)
    ensures StripAllNewlines(a + b) == StripAllNewlines(a) + StripAllNewlines(b)
  {
    if a == [] {
      assert a + b == b;
    } else {
      assert (a + b)[0] == a[0];
      assert (a + b)[1..] == a[1..] + b;
      StripAllNewlinesConcat(a[1..], b);
    }
  }

  /**
    * `rfind(prefix, 0) == 0`: the only occurrence `rfind` may report at position 0 is a
    * prefix. Compared character by character; the contract gives the slice reading.
    */
  function StartsWith(s: string, prefix: string): (r: bool)
    ensures r <==> |prefix| <= |s| && s[..|prefix|] == prefix
  {
    if prefix == [] then true
    else s != [] && s[0] == prefix[0] && StartsWith(s[1..], prefix[1..])
  }

  /** Every string starts with itself followed by anything. */
  lemma StartsWithConcat(prefix: string, t: string)
    ensures StartsWith(prefix + t, prefix)
    ensures (prefix + t)[|prefix|..] == t
  {
  }

  /** A string that starts with `prefix` is `prefix` followed by the rest of it. */
  lemma StartsWithSplit(s: string, prefix: string)
    requires StartsWith(s, prefix)
    ensures s == prefix + s[|prefix|..]
  {
    assert s == s[..|prefix|] + s[|prefix|..];
  }

  /** Length of the run of non-separators at the start of `s`. */
  function TokenLength(s: string): (n: nat)
    ensures n <= |s|
    ensures forall i :: 0 <= i < n ==> !IsSpace(s[i])
    ensures n < |s| ==> IsSpace(s[n])
  {
    if s == [] || IsSpace(s[0]) then 0 else 1 + TokenLength(s[1..])
  }

  /**
    * `iss >> tok; getline(iss, rest)` on the stripped remainder of a command line:
    * leading separators are skipped, `tok` is the longest run of non-separators, and
    * `rest` is everything after it, its leading separator included. When there is no
    * token both reads fail and both strings stay empty. (getline would stop at a '\n',
    * but the command loop removes every '\n' before tokenising.)
    */
  function SplitFirstToken(s: string): (r: (string, string))
    ensures forall c :: c in r.0 ==> !IsSpace(c)
    ensures r.1 != [] ==> IsSpace(r.1[0])
    ensures r.0 == [] <==> AllSpace(s)
    ensures r.0 == [] ==> r.1 == []
    ensures |r.0| + |r.1| <= |s|
  {
    if s == [] then ([], [])
    else if IsSpace(s[0]) then SplitFirstToken(s[1..])
    else
      var n := TokenLength(s);
      (s[..n], s[n..])
  }

  /** Token and remainder are the tail of the input, and only separators were skipped before them. */
  lemma {:induction false} SplitFirstTokenReassembles(s: string)
    ensures var r := SplitFirstToken(s);
      s[|s| - |r.0| - |r.1|..] == r.0 + r.1 && AllSpace(s[..|s| - |r.0| - |r.1|])
  {
    if s != [] && IsSpace(s[0]) {
      var r := SplitFirstToken(s[1..]);
      var k := |s| - |r.0| - |r.1|;
      SplitFirstTokenReassembles(s[1..]);
      assert s[1..][k - 1..] == s[k..];
      assert s[..k] == [s[0]] + s[1..][..k - 1];
    } else if s != [] {
      var n := TokenLength(s);
      assert s[..n] + s[n..] == s;
    }
  }

  /** A token followed by nothing or by a separator is measured exactly. */
  lemma {:induction false} TokenLengthOf(tok: string, rest: string)
    requires forall c :: c in tok ==> !IsSpace(c)
    requires rest == [] || IsSpace(rest[0])
    ensures TokenLength(tok + rest) == |tok|
  {
    if tok == [] {
      assert tok + rest == rest;
    } else {
      assert tok[0] in tok;
      assert (tok + rest)[0] == tok[0];
      assert (tok + rest)[1..] == tok[1..] + rest;
      forall c | c in tok[1..] ensures !IsSpace(c) {
        assert c in tok;
      }
      TokenLengthOf(tok[1..], rest);
    }
  }

  /**
    * The split is determined by the shape of its input: separators, then a token, then
    * a remainder that is empty or starts with a separator.
    */
  lemma {:induction false} SplitFirstTokenOf(lead: string, tok: string, rest: string)
    requires AllSpace(lead)
    requires tok != [] && forall c :: c in tok ==> !IsSpace(c)
    requires rest == [] || IsSpace(rest[0])
    ensures SplitFirstToken(lead + tok + rest) == (tok, rest)
  {
    var s := lead + tok + rest;
    if lead == [] {
      assert s == tok + rest;
      assert !IsSpace(s[0]) by { assert s[0] == tok[0]; assert tok[0] in tok; }
      TokenLengthOf(tok, rest);
      var n := TokenLength(s);
      assert s[..n] == tok;
      assert s[n..] == rest;
    } else {
      assert IsSpace(s[0]) by { assert s[0] == lead[0]; }
      assert s[1..] == lead[1..] + tok + rest;
      SplitFirstTokenOf(lead[1..], tok, rest);
    }
  }
}
