/** Matching a URI against a pattern with stars, and choosing the callback it selects. */
module Matching {
  import opened Common
  import opened CStrings

  /** The language of a pattern: '*' stands for any string, every other character for itself. */
  ghost predicate Matches(pattern: seq<octet>, s: seq<octet>)
    decreases |pattern|
  {
    if pattern == [] then s == []
    else if pattern[0] == '*' then exists k :: 0 <= k <= |s| && Matches(pattern[1..], s[k..])
    else s != [] && s[0] == pattern[0] && Matches(pattern[1..], s[1..])
  }

  // What the code decides, as a function of memory, which reads as NUL where nothing is known of it.
  // After a failed '*' the scan has gone one past the NUL.

  function At(mem: seq<octet>, i: nat): octet {
    if i < |mem| then mem[i] else NUL
  }

  predicate MatchCode(mem: seq<octet>, p: nat, pattern: seq<octet>)
    decreases |pattern|, 2, 0
  {
    if pattern == [] then At(mem, p) == NUL
    else if pattern[0] == '*' then Star(mem, p, pattern)
    else Literal(mem, p, pattern)
  }

  predicate Star(mem: seq<octet>, q: nat, pattern: seq<octet>)
    requires pattern != []
    decreases |pattern|, 1, if q < |mem| then |mem| - q else 0
  {
    if MatchCode(mem, q, pattern[1..]) then true
    else if At(mem, q) != NUL then Star(mem, q + 1, pattern)
    else Literal(mem, q + 1, pattern)
  }

  predicate Literal(mem: seq<octet>, q: nat, pattern: seq<octet>)
    requires pattern != []
    decreases |pattern|, 0, 0
  {
    At(mem, q) != NUL && pattern[0] == At(mem, q) && MatchCode(mem, q + 1, pattern[1..])
  }

  /**
   A star of the pattern, reached after a prefix of s that matches what is before it, is compared with
   a star behind the NUL at end, and what follows in memory is accepted by the rest of the pattern.
   The prefix is s[..i], the star is pattern[j].
   */
  ghost predicate RunsOverAt(mem: seq<octet>, end: nat, s: seq<octet>, pattern: seq<octet>, i: nat, j: nat)
    requires i <= |s| && j < |pattern|
  {
    && pattern[j] == '*' && Matches(pattern[..j], s[..i])
    && At(mem, end + 1) == '*' && MatchCode(mem, end + 2, pattern[j + 1..])
  }

  ghost predicate RunsOver(mem: seq<octet>, end: nat, s: seq<octet>, pattern: seq<octet>) {
    exists i, j :: 0 <= i <= |s| && 0 <= j < |pattern| && RunsOverAt(mem, end, s, pattern, i, j)
  }

  lemma StringByte(mem: seq<octet>, p: nat, s: seq<octet>)
    requires IsStr(mem, p, s)
    ensures At(mem, p) == if s == [] then NUL else s[0]
    ensures NUL !in s && (s != [] ==> IsStr(mem, p + 1, s[1..]))
  {
    if s != [] {
      StrTail(mem, p, s, 1);
      assert mem[p + 0] == s[0];
    }
  }

  /** One character of the pattern that is no star. */
  lemma RunsOverLiteral(mem: seq<octet>, end: nat, s: seq<octet>, pattern: seq<octet>)
    requires pattern != [] && pattern[0] != '*'
    ensures RunsOver(mem, end, s, pattern) <==>
            s != [] && s[0] == pattern[0] && RunsOver(mem, end, s[1..], pattern[1..])
  {
    hide MatchCode;
    if RunsOver(mem, end, s, pattern) {
      var i, j :| 0 <= i <= |s| && 0 <= j < |pattern| && RunsOverAt(mem, end, s, pattern, i, j);
      assert pattern[..j][0] == pattern[0] && pattern[..j][1..] == pattern[1..][..j - 1];
      assert s[..i][1..] == s[1..][..i - 1];
      assert pattern[1..][j - 1 + 1..] == pattern[j + 1..];
      assert RunsOverAt(mem, end, s[1..], pattern[1..], i - 1, j - 1);
    }
    if s != [] && s[0] == pattern[0] && RunsOver(mem, end, s[1..], pattern[1..]) {
      var i, j :| 0 <= i <= |s[1..]| && 0 <= j < |pattern[1..]| && RunsOverAt(mem, end, s[1..], pattern[1..], i, j);
      assert pattern[..j + 1][1..] == pattern[1..][..j] && s[..i + 1][1..] == s[1..][..i];
      assert pattern[j + 1 + 1..] == pattern[1..][j + 1..];
      assert RunsOverAt(mem, end, s, pattern, i + 1, j + 1);
    }
  }

  /** A star of the pattern: it runs over itself, or a later one does once it has taken k bytes. */
  lemma RunsOverStar(mem: seq<octet>, end: nat, s: seq<octet>, pattern: seq<octet>)
    requires pattern != [] && pattern[0] == '*'
    ensures RunsOver(mem, end, s, pattern) <==>
            || (At(mem, end + 1) == '*' && MatchCode(mem, end + 2, pattern[1..]))
            || exists k :: 0 <= k <= |s| && RunsOver(mem, end, s[k..], pattern[1..])
  {
    hide MatchCode;
    if RunsOver(mem, end, s, pattern) {
      var i, j :| 0 <= i <= |s| && 0 <= j < |pattern| && RunsOverAt(mem, end, s, pattern, i, j);
      if j > 0 {
        var head := pattern[..j];
        assert head[1..] == pattern[1..][..j - 1];
        var k :| 0 <= k <= i && Matches(head[1..], s[..i][k..]);
        assert s[..i][k..] == s[k..][..i - k] && pattern[1..][j - 1 + 1..] == pattern[j + 1..];
        assert RunsOverAt(mem, end, s[k..], pattern[1..], i - k, j - 1);
      }
    }
    if At(mem, end + 1) == '*' && MatchCode(mem, end + 2, pattern[1..]) {
      assert pattern[..0] == [] && s[..0] == [];
      assert RunsOverAt(mem, end, s, pattern, 0, 0);
    }
    if exists k :: 0 <= k <= |s| && RunsOver(mem, end, s[k..], pattern[1..]) {
      var k :| 0 <= k <= |s| && RunsOver(mem, end, s[k..], pattern[1..]);
      var t, rest := s[k..], pattern[1..];
      var i, j :| 0 <= i <= |t| && 0 <= j < |rest| && RunsOverAt(mem, end, t, rest, i, j);
      assert pattern[..j + 1][1..] == rest[..j] && s[..k + i][k..] == t[..i];
      assert pattern[j + 1 + 1..] == rest[j + 1..];
      assert Matches(pattern[..j + 1], s[..k + i]);
      assert RunsOverAt(mem, end, s, pattern, k + i, j + 1);
    }
  }

  /**
   What the code decides: it accepts the strings of the pattern's language, and besides those only
   where a star runs over the end of the string.
   */
  lemma {:induction false} MatchCodeDecides(mem: seq<octet>, p: nat, s: seq<octet>, pattern: seq<octet>)
    requires IsStr(mem, p, s)
    ensures MatchCode(mem, p, pattern) <==> Matches(pattern, s) || RunsOver(mem, p + |s|, s, pattern)
    decreases |pattern|, |s| + 1
  {
    hide RunsOver, IsStr;
    StringByte(mem, p, s);
    if pattern == [] {
      NothingRunsOver(mem, p + |s|, s);
    } else if pattern[0] == '*' {
      StarDecides(mem, p, s, pattern, 0);
      RunsOverStar(mem, p + |s|, s, pattern);
    } else {
      RunsOverLiteral(mem, p + |s|, s, pattern);
      if s != [] {
        MatchCodeDecides(mem, p + 1, s[1..], pattern[1..]);
      }
    }
  }

  lemma NothingRunsOver(mem: seq<octet>, end: nat, s: seq<octet>)
    ensures !RunsOver(mem, end, s, [])
  {
  }

  lemma {:induction false} StarDecides(mem: seq<octet>, p: nat, s: seq<octet>, pattern: seq<octet>, k: nat)
    requires IsStr(mem, p, s) && pattern != [] && pattern[0] == '*' && k <= |s|
    ensures Star(mem, p + k, pattern) <==>
            || (At(mem, p + |s| + 1) == '*' && MatchCode(mem, p + |s| + 2, pattern[1..]))
            || (exists j :: k <= j <= |s| && Matches(pattern[1..], s[j..]))
            || (exists j :: k <= j <= |s| && RunsOver(mem, p + |s|, s[j..], pattern[1..]))
    decreases |pattern|, |s| - k
  {
    hide RunsOver, IsStr;
    StrTail(mem, p, s, k);
    StringByte(mem, p + k, s[k..]);
    MatchCodeDecides(mem, p + k, s[k..], pattern[1..]);
    if k < |s| {
      StarDecides(mem, p, s, pattern, k + 1);
    }
  }

  /** The answer is that of the language exactly when no star runs over, or the string matches anyway. */
  lemma RightUnlessRunsOver(mem: seq<octet>, p: nat, s: seq<octet>, pattern: seq<octet>)
    requires IsStr(mem, p, s)
    ensures (MatchCode(mem, p, pattern) <==> Matches(pattern, s)) <==>
            !RunsOver(mem, p + |s|, s, pattern) || Matches(pattern, s)
  {
    hide RunsOver, Matches, MatchCode;
    MatchCodeDecides(mem, p, s, pattern);
  }

  /** The byte after the string's NUL is not a star. */
  ghost predicate NoStarAfter(mem: seq<octet>, p: nat, s: seq<octet>) {
    IsStr(mem, p, s) && At(mem, p + |s| + 1) != '*'
  }

  /** Where no star follows the string, the code accepts exactly the language. */
  lemma MatchCodeIsLanguage(mem: seq<octet>, p: nat, s: seq<octet>, pattern: seq<octet>)
    requires NoStarAfter(mem, p, s)
    ensures MatchCode(mem, p, pattern) <==> Matches(pattern, s)
  {
    MatchCodeDecides(mem, p, s, pattern);
  }

  /** With a star after the NUL, "*b" accepts the string "a". */
  lemma StarAfterEndMisleads()
    ensures var mem: seq<octet> := ['a', NUL, '*', 'b', NUL];
            && IsStr(mem, 0, ['a']) && MatchCode(mem, 0, ['*', 'b']) && !Matches(['*', 'b'], ['a'])
  {
    var mem: seq<octet> := ['a', NUL, '*', 'b', NUL];
    var b: seq<octet> := ['b'];
    var star: seq<octet> := ['*', 'b'];
    assert star[1..] == b && b[1..] == [];
    assert !MatchCode(mem, 0, b) && !MatchCode(mem, 1, b);
    assert MatchCode(mem, 3, b) by { assert MatchCode(mem, 4, []); }
    assert Literal(mem, 2, star);
    assert Star(mem, 1, star);
    assert Star(mem, 0, star);
    assert !Matches(b, ['a']) && !Matches(b, []);
    var a: seq<octet> := ['a'];
    assert a[0..] == a && a[1..] == [];
  }

  lemma {:induction false} LiteralLanguage(word: seq<octet>, s: seq<octet>)
    requires '*' !in word
    ensures Matches(word, s) <==> s == word
  {
    if word != [] && s != [] {
      LiteralLanguage(word[1..], s[1..]);
      assert word == [word[0]] + word[1..] && s == [s[0]] + s[1..];
    }
  }

  lemma {:induction false} LiteralAccepted(mem: seq<octet>, q: nat, word: seq<octet>)
    requires '*' !in word && IsStr(mem, q, word)
    ensures MatchCode(mem, q, word)
    decreases |word|
  {
    if word != [] {
      StrTail(mem, q, word, 1);
      LiteralAccepted(mem, q + 1, word[1..]);
      assert mem[q + 0] == word[0];
    }
  }

  /**
   With a star after the NUL and a word after the star, the star followed by that word accepts every
   string, although only the strings that end in the word are in its language.
   */
  lemma StarAfterEndAcceptsAll(mem: seq<octet>, p: nat, s: seq<octet>, word: seq<octet>)
    requires IsStr(mem, p, s) && At(mem, p + |s| + 1) == '*'
    requires '*' !in word && IsStr(mem, p + |s| + 2, word)
    ensures MatchCode(mem, p, ['*'] + word)
    ensures Matches(['*'] + word, s) <==> |word| <= |s| && s[|s| - |word|..] == word
  {
    var pattern := ['*'] + word;
    assert pattern[1..] == word;
    LiteralAccepted(mem, p + |s| + 2, word);
    StarRunsOver(mem, p, s, pattern, 0);
    forall k | 0 <= k <= |s|
      ensures Matches(word, s[k..]) <==> s[k..] == word
    {
      LiteralLanguage(word, s[k..]);
    }
    if |word| <= |s| && s[|s| - |word|..] == word {
      assert Matches(pattern[1..], s[|s| - |word|..]);
    }
  }

  lemma {:induction false} StarRunsOver(mem: seq<octet>, p: nat, s: seq<octet>, pattern: seq<octet>, k: nat)
    requires IsStr(mem, p, s) && k <= |s| && pattern != []
    requires Literal(mem, p + |s| + 1, pattern)
    ensures Star(mem, p + k, pattern)
    decreases |s| - k
  {
    if k == |s| {
      assert At(mem, p + |s|) == NUL && p + k + 1 == p + |s| + 1;
    } else {
      StarRunsOver(mem, p, s, pattern, k + 1);
      assert At(mem, p + k) == s[k] != NUL && p + k + 1 == p + (k + 1);
    }
  }

  /** match_regex: a recursion in a loop that moves the URI pointer. */
  method MatchRegex(mem: seq<octet>, p: nat, pattern: seq<octet>) returns (b: bool)
    ensures b == MatchCode(mem, p, pattern)
    decreases |pattern|
  {
    hide At;
    if pattern == [] {
      return At(mem, p) == NUL;
    }
    var q := p;
    if pattern[0] == '*' {
      while true
        invariant MatchCode(mem, p, pattern) == Star(mem, q, pattern)
        decreases |mem| - q
      {
        var found := MatchRegex(mem, q, pattern[1..]);
        if found {
          return true;
        }
        q := q + 1;
        if At(mem, q - 1) == NUL {
          break;
        }
        NotPastEnd(mem, q - 1);
      }
    }
    if At(mem, q) != NUL && pattern[0] == At(mem, q) {
      b := MatchRegex(mem, q + 1, pattern[1..]);
    } else {
      b := false;
    }
  }

  lemma NotPastEnd(mem: seq<octet>, i: nat)
    requires At(mem, i) != NUL
    ensures i < |mem|
  {
  }

  datatype Callback = Callback(uriRegex: Option<seq<octet>>, isAuth: bool, statusCode: int)

  /** What selects an entry for a URI of its kind: the URI as the code matches it in memory. */
  ghost predicate Accepts(regex: seq<octet>, mem: seq<octet>, uri: seq<octet>) {
    Matches(regex, uri) || RunsOver(mem, |uri|, uri, regex)
  }

  /** An entry is for a URI of its kind, or, when no URI is given, for a status code. */
  ghost predicate Selects(cb: Callback, isAuth: bool, mem: seq<octet>, uri: Option<seq<octet>>, status: int) {
    if uri.Some? then cb.uriRegex.Some? && cb.isAuth == isAuth && Accepts(cb.uriRegex.value, mem, uri.value)
    else cb.statusCode == 0 || cb.statusCode == status
  }

  /** Where no star follows the URI, an entry is for the URIs of its pattern's language. */
  lemma SelectsByLanguage(cb: Callback, isAuth: bool, mem: seq<octet>, uri: seq<octet>, status: int)
    requires NoStarAfter(mem, 0, uri)
    ensures Selects(cb, isAuth, mem, Some(uri), status) <==>
            cb.uriRegex.Some? && cb.isAuth == isAuth && Matches(cb.uriRegex.value, uri)
  {
    hide RunsOver;
    if cb.uriRegex.Some? {
      MatchCodeDecides(mem, 0, uri, cb.uriRegex.value);
      MatchCodeIsLanguage(mem, 0, uri, cb.uriRegex.value);
    }
  }

  /** Without a URI an entry for status 0 applies to every code, and any other to its own code. */
  lemma SelectsByStatus(cb: Callback, isAuth: bool, mem: seq<octet>, status: int)
    ensures cb.statusCode == 0 ==> Selects(cb, isAuth, mem, None, status)
    ensures cb.statusCode != 0 ==> (Selects(cb, isAuth, mem, None, status) <==> status == cb.statusCode)
  {
  }

  /** find_callback: the first entry that applies.  The URI, if any, is the string at the start of mem. */
  method FindCallback(callbacks: seq<Callback>, isAuth: bool, mem: seq<octet>, hasUri: bool, status: int,
                      ghost uri: seq<octet>)
    returns (found: Option<nat>)
    requires hasUri ==> IsStr(mem, 0, uri)
    ensures var u := if hasUri then Some(uri) else None;
            match found
            case None => forall i :: 0 <= i < |callbacks| ==> !Selects(callbacks[i], isAuth, mem, u, status)
            case Some(n) =>
              && n < |callbacks| && Selects(callbacks[n], isAuth, mem, u, status)
              && forall i :: 0 <= i < n ==> !Selects(callbacks[i], isAuth, mem, u, status)
  {
    hide MatchCode, RunsOver, Matches;
    ghost var u := if hasUri then Some(uri) else None;
    var i := 0;
    while i < |callbacks|
      invariant i <= |callbacks|
      invariant forall j :: 0 <= j < i ==> !Selects(callbacks[j], isAuth, mem, u, status)
    {
      var cb := callbacks[i];
      var hit := false;
      if hasUri && cb.uriRegex.Some? && ((isAuth && cb.isAuth) || (!isAuth && !cb.isAuth)) {
        hit := MatchRegex(mem, 0, cb.uriRegex.value);
        MatchCodeDecides(mem, 0, uri, cb.uriRegex.value);
      } else if !hasUri {
        hit := cb.statusCode == 0 || cb.statusCode == status;
      }
      if hit {
        return Some(i);
      }
      i := i + 1;
    }
    return None;
  }
}
