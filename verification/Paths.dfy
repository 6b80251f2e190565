/** The in-place clean-up of a path: after a slash, further slashes and then pairs of dots go. */
module Paths {
  import opened Common
  import opened CStrings

  predicate IsSlash(c: octet) {
    c == '/' || c == '\\'
  }

  function SkipSlashes(t: seq<octet>): (r: seq<octet>)
    ensures |r| <= |t| && (r != [] ==> !IsSlash(r[0]))
  {
    if t != [] && IsSlash(t[0]) then SkipSlashes(t[1..]) else t
  }

  function SkipDots(t: seq<octet>): (r: seq<octet>)
    ensures |r| <= |t| && !(|r| >= 2 && r[0] == '.' && r[1] == '.')
  {
    if |t| >= 2 && t[0] == '.' && t[1] == '.' then SkipDots(t[2..]) else t
  }

  /** What is still to be copied after the first byte of s. */
  function Next(s: seq<octet>): (r: seq<octet>)
    requires s != []
    ensures |r| < |s|
  {
    if IsSlash(s[0]) then SkipDots(SkipSlashes(s[1..])) else s[1..]
  }

  function Clean(s: seq<octet>): (r: seq<octet>)
    ensures |r| <= |s|
    decreases |s|
  {
    if s == [] then [] else [s[0]] + Clean(Next(s))
  }

  /** The bytes at the start of a string are in memory, NUL where it is too short. */
  lemma FirstBytes(mem: seq<octet>, p: nat, s: seq<octet>)
    requires IsStr(mem, p, s)
    ensures p < |mem| && mem[p] == if s == [] then NUL else s[0]
    ensures s != [] ==> p + 1 < |mem| && mem[p + 1] == if |s| == 1 then NUL else s[1]
    ensures NUL !in s
  {
    assert s != [] ==> mem[p + 0] == s[0];
    assert |s| > 1 ==> mem[p + 1] == s[1];
  }

  method SkipAllSlashes(buf: array<octet>, start: nat, ghost text: seq<octet>) returns (s: nat)
    requires IsStr(buf[..], start, text)
    ensures s == start + (|text| - |SkipSlashes(text)|) && IsStr(buf[..], s, SkipSlashes(text))
  {
    hide IsStr;
    s := start;
    ghost var rest := text;
    FirstBytes(buf[..], s, rest);
    while buf[s] == '/' || buf[s] == '\\'
      invariant s == start + (|text| - |rest|) && s < buf.Length && IsStr(buf[..], s, rest)
      invariant buf[s] == (if rest == [] then NUL else rest[0]) && SkipSlashes(rest) == SkipSlashes(text)
      decreases |rest|
    {
      StrTail(buf[..], s, rest, 1);
      rest := rest[1..];
      s := s + 1;
      FirstBytes(buf[..], s, rest);
    }
  }

  method SkipAllDots(buf: array<octet>, start: nat, ghost text: seq<octet>) returns (s: nat)
    requires IsStr(buf[..], start, text)
    ensures s == start + (|text| - |SkipDots(text)|) && IsStr(buf[..], s, SkipDots(text))
  {
    hide IsStr;
    s := start;
    ghost var rest := text;
    FirstBytes(buf[..], s, rest);
    while buf[s] == '.' && buf[s + 1] == '.'
      invariant s == start + (|text| - |rest|) && s < buf.Length && IsStr(buf[..], s, rest)
      invariant buf[s] == if rest == [] then NUL else rest[0]
      invariant rest != [] ==> s + 1 < buf.Length && buf[s + 1] == if |rest| == 1 then NUL else rest[1]
      invariant SkipDots(rest) == SkipDots(text)
      decreases |rest|
    {
      StrTail(buf[..], s, rest, 2);
      rest := rest[2..];
      s := s + 2;
      FirstBytes(buf[..], s, rest);
    }
  }

  lemma CleanStep(rest: seq<octet>, done: seq<octet>)
    requires rest != []
    ensures done + Clean(rest) == done + [rest[0]] + Clean(Next(rest))
  {
    hide Next;
  }

  lemma StrAhead(before: seq<octet>, after: seq<octet>, p: nat, s: seq<octet>)
    requires IsStr(before, p, s) && |after| == |before| && forall i :: p <= i < |before| ==> after[i] == before[i]
    ensures IsStr(after, p, s)
  {
  }

  /** One turn of the loop past the copy: where reading goes on. */
  method SkipAfter(buf: array<octet>, start: nat, c: octet, ghost rest: seq<octet>) returns (s: nat)
    requires rest != [] && c == rest[0] && IsStr(buf[..], start, rest[1..])
    ensures s == start + (|rest| - 1 - |Next(rest)|) && IsStr(buf[..], s, Next(rest))
  {
    hide SkipSlashes, SkipDots, IsStr;
    s := start;
    if c == '/' || c == '\\' {
      s := SkipAllSlashes(buf, s, rest[1..]);
      s := SkipAllDots(buf, s, SkipSlashes(rest[1..]));
    }
  }

  /** The clean-up loop; the writing position never passes the reading one. */
  method RemoveDoubleDotsAndDoubleSlashes(buf: array<octet>, start: nat, ghost text: seq<octet>)
    requires IsStr(buf[..], start, text)
    modifies buf
    ensures IsStr(buf[..], start, Clean(text))
    ensures forall i :: 0 <= i < buf.Length && !(start <= i <= start + |text|) ==> buf[i] == old(buf[i])
  {
    hide Next, Clean, IsStr;
    var p: nat, s: nat := start, start;
    ghost var rest, done := text, [];
    FirstBytes(buf[..], s, rest);
    while buf[s] != NUL
      invariant p <= s == start + (|text| - |rest|) && start + |done| == p && s < buf.Length
      invariant IsStr(buf[..], s, rest) && buf[s] == (if rest == [] then NUL else rest[0])
      invariant buf[start..p] == done && NUL !in done
      invariant Clean(text) == done + Clean(rest)
      invariant forall i :: 0 <= i < buf.Length && !(start <= i <= start + |text|) ==> buf[i] == old(buf[i])
      decreases |rest|
    {
      ghost var before := buf[..];
      StrTail(before, s, rest, 1);
      CleanStep(rest, done);
      FirstBytes(before, s, rest);
      var c := buf[s];
      buf[p] := c;
      assert buf[start..p + 1] == done + [c];
      done := done + [c];
      p, s := p + 1, s + 1;
      StrAhead(before, buf[..], s, rest[1..]);
      s := SkipAfter(buf, s, c, rest);
      rest := Next(rest);
      FirstBytes(buf[..], s, rest);
    }
    FirstBytes(buf[..], s, rest);
    buf[p] := NUL;
    assert buf[..][start..p] == buf[start..p] == done;
    SliceIsStr(buf[..], start, done);
    NothingToClean();
    assert done + [] == done;
  }

  lemma NothingToClean()
    ensures Clean([]) == []
  {
  }

  // What the clean-up achieves.

  /** a is what is left of b when some bytes are dropped. */
  predicate Subsequence(a: seq<octet>, b: seq<octet>) {
    if a == [] then true
    else if b == [] then false
    else if a[0] == b[0] && Subsequence(a[1..], b[1..]) then true
    else Subsequence(a, b[1..])
  }

  lemma {:induction false} SubsequenceOfTail(a: seq<octet>, b: seq<octet>, k: nat)
    requires k <= |b| && Subsequence(a, b[k..])
    ensures Subsequence(a, b)
  {
    if k > 0 {
      assert b[1..][k - 1..] == b[k..];
      SubsequenceOfTail(a, b[1..], k - 1);
    } else {
      assert b[0..] == b;
    }
  }

  lemma {:induction false} SlashesSuffix(t: seq<octet>)
    ensures SkipSlashes(t) == t[|t| - |SkipSlashes(t)|..]
  {
    if t != [] && IsSlash(t[0]) {
      SlashesSuffix(t[1..]);
    }
  }

  lemma {:induction false} DotsSuffix(t: seq<octet>)
    ensures SkipDots(t) == t[|t| - |SkipDots(t)|..]
  {
    if |t| >= 2 && t[0] == '.' && t[1] == '.' {
      DotsSuffix(t[2..]);
    }
  }

  lemma NextIsSuffix(s: seq<octet>)
    requires s != []
    ensures Next(s) == s[1..][|s| - 1 - |Next(s)|..]
  {
    hide SkipSlashes, SkipDots;
    SlashesSuffix(s[1..]);
    DotsSuffix(SkipSlashes(s[1..]));
  }

  lemma {:induction false} CleanIsSubsequence(s: seq<octet>)
    ensures Subsequence(Clean(s), s)
    decreases |s|
  {
    hide Next;
    if s != [] {
      var next := Next(s);
      CleanIsSubsequence(next);
      NextIsSuffix(s);
      hide Clean;
      SubsequenceOfTail(Clean(next), s[1..], |s| - 1 - |next|);
      assert Clean(s)[1..] == Clean(next) by { CleanStep(s, []); }
      assert Clean(s)[0] == s[0] by { CleanStep(s, []); }
    }
  }

  predicate GoesUpAt(r: seq<octet>, i: nat) {
    i + 2 < |r| && IsSlash(r[i]) && r[i + 1] == '.' && r[i + 2] == '.'
  }

  /** No slash is followed by two dots. */
  predicate NoDotDot(r: seq<octet>) {
    forall i :: 0 <= i < |r| ==> !GoesUpAt(r, i)
  }

  /** The cleaned path never goes up. */
  lemma {:induction false} CleanHasNoDotDot(s: seq<octet>)
    ensures NoDotDot(Clean(s))
    decreases |s|
  {
    if s != [] {
      var next := Next(s);
      CleanHasNoDotDot(next);
      PrependedDots(s[0], Clean(next));
      if next != [] {
        CleanStart(next);
      }
    }
  }

  lemma PrependedDots(c: octet, r: seq<octet>)
    ensures NoDotDot([c] + r) <==> NoDotDot(r) && !(IsSlash(c) && |r| >= 2 && r[0] == '.' && r[1] == '.')
  {
    var all := [c] + r;
    assert forall i :: 0 <= i < |r| ==> all[i + 1] == r[i];
    assert forall i :: 0 <= i < |r| ==> GoesUpAt(all, i + 1) == GoesUpAt(r, i);
    assert GoesUpAt(all, 0) <==> IsSlash(c) && |r| >= 2 && r[0] == '.' && r[1] == '.';
    hide GoesUpAt;
    if NoDotDot(r) && !GoesUpAt(all, 0) {
      forall i | 0 <= i < |all|
        ensures !GoesUpAt(all, i)
      {
        assert i > 0 ==> GoesUpAt(all, i - 1 + 1) == GoesUpAt(r, i - 1);
      }
    }
    if NoDotDot(all) {
      forall i | 0 <= i < |r|
        ensures !GoesUpAt(r, i)
      {
        assert GoesUpAt(all, i + 1) == GoesUpAt(r, i);
      }
    }
  }

  /** The first two bytes are kept, unless the first is a slash. */
  lemma CleanStart(s: seq<octet>)
    requires s != []
    ensures Clean(s) != [] && Clean(s)[0] == s[0]
    ensures !IsSlash(s[0]) ==> (|s| == 1 <==> |Clean(s)| == 1) && (|s| > 1 ==> Clean(s)[1] == s[1])
  {
  }

  predicate DoubleSlash(r: seq<octet>) {
    exists i :: 0 <= i < |r| - 1 && IsSlash(r[i]) && IsSlash(r[i + 1])
  }

  /** One or more pairs of dots, and then a slash. */
  predicate DotsThenSlash(t: seq<octet>) {
    |t| >= 3 && t[0] == '.' && t[1] == '.' && (IsSlash(t[2]) || DotsThenSlash(t[2..]))
  }

  /** Somewhere a slash is followed by pairs of dots and another slash. */
  predicate UpAndOn(s: seq<octet>) {
    s != [] && ((IsSlash(s[0]) && DotsThenSlash(s[1..])) || UpAndOn(s[1..]))
  }

  /** Excess slashes survive exactly where dots that are removed stood between two of them. */
  lemma {:induction false} CleanLeavesDoubleSlash(s: seq<octet>)
    ensures DoubleSlash(Clean(s)) <==> UpAndOn(s)
    decreases |s|
  {
    if s != [] {
      var next := Next(s);
      CleanLeavesDoubleSlash(next);
      PrependedSlash(s[0], Clean(next));
      if IsSlash(s[0]) {
        var t := SkipSlashes(s[1..]);
        AfterSlashes(s);
        AfterDots(t);
        assert next == SkipDots(t);
      }
      if next != [] {
        CleanStart(next);
      }
    }
  }

  lemma PrependedSlash(c: octet, r: seq<octet>)
    ensures DoubleSlash([c] + r) <==> DoubleSlash(r) || (IsSlash(c) && r != [] && IsSlash(r[0]))
  {
    var all := [c] + r;
    if DoubleSlash(r) {
      var i :| 0 <= i < |r| - 1 && IsSlash(r[i]) && IsSlash(r[i + 1]);
      assert IsSlash(all[i + 1]) && IsSlash(all[i + 1 + 1]);
    }
    if IsSlash(c) && r != [] && IsSlash(r[0]) {
      assert IsSlash(all[0]) && IsSlash(all[0 + 1]);
    }
    if DoubleSlash(all) {
      var i :| 0 <= i < |all| - 1 && IsSlash(all[i]) && IsSlash(all[i + 1]);
      if i > 0 {
        assert IsSlash(r[i - 1]) && IsSlash(r[i - 1 + 1]);
      }
    }
  }

  lemma {:induction false} AfterSlashes(s: seq<octet>)
    requires s != [] && IsSlash(s[0])
    ensures var t := SkipSlashes(s[1..]);
            UpAndOn(s) <==> DotsThenSlash(t) || UpAndOn(t)
    decreases |s|
  {
    if |s| > 1 && IsSlash(s[1]) {
      AfterSlashes(s[1..]);
    }
  }

  lemma {:induction false} AfterDots(t: seq<octet>)
    requires t == [] || !IsSlash(t[0])
    ensures var u := SkipDots(t);
            (DotsThenSlash(t) <==> u != [] && IsSlash(u[0])) && (UpAndOn(t) <==> UpAndOn(u))
    decreases |t|
  {
    if |t| >= 2 && t[0] == '.' && t[1] == '.' {
      assert t[1..][1..] == t[2..];
      if |t| >= 3 && !IsSlash(t[2]) {
        AfterDots(t[2..]);
      }
    }
  }

  /** A path is left as it is exactly when there is nothing to remove from it. */
  lemma {:induction false} CleanKeeps(s: seq<octet>)
    ensures Clean(s) == s <==> !DoubleSlash(s) && NoDotDot(s)
    decreases |s|
  {
    if s != [] {
      var tail, next := s[1..], Next(s);
      assert s == [s[0]] + tail;
      CleanKeeps(tail);
      PrependedSlash(s[0], tail);
      PrependedDots(s[0], tail);
      NextKeeps(s);
      CleanStep(s, []);
      if Clean(s) == s {
        assert Clean(next) == Clean(s)[1..] == tail;
        NextIsSuffix(s);
        assert |next| == |tail|;
      }
    }
  }

  lemma NextKeeps(s: seq<octet>)
    requires s != []
    ensures var t := s[1..];
            Next(s) == t <==>
            !IsSlash(s[0]) || (!(t != [] && IsSlash(t[0])) && !(|t| >= 2 && t[0] == '.' && t[1] == '.'))
  {
  }

  // Exactly which bytes stay.

  /** How many dots come right before position i. */
  function DotsBefore(s: seq<octet>, i: nat): (n: nat)
    requires i <= |s|
    ensures n <= i
  {
    if i > 0 && s[i - 1] == '.' then DotsBefore(s, i - 1) + 1 else 0
  }

  /** How many dots there are from position i on. */
  function DotsFrom(s: seq<octet>, i: nat): (n: nat)
    requires i <= |s|
    ensures i + n <= |s|
    decreases |s| - i
  {
    if i < |s| && s[i] == '.' then 1 + DotsFrom(s, i + 1) else 0
  }

  predicate AfterSlash(s: seq<octet>, i: nat)
    requires i <= |s|
  {
    i > 0 && (s[i - 1] == '/' || s[i - 1] == '\\')
  }

  /**
   A slash or backslash stays unless another one is right before it.  A dot stays unless the run of
   dots it belongs to comes right after one and it is in a pair of that run, counted from its start.
   Everything else stays.
   */
  predicate Stays(s: seq<octet>, i: nat)
    requires i < |s|
  {
    if s[i] == '/' || s[i] == '\\' then !AfterSlash(s, i)
    else if s[i] == '.' then
      var before := DotsBefore(s, i);
      var run := before + DotsFrom(s, i);
      !AfterSlash(s, i - before) || (run % 2 == 1 && before == run - 1)
    else true
  }

  /** The bytes that stay, from position i on. */
  function Staying(s: seq<octet>, i: nat): seq<octet>
    requires i <= |s|
    decreases |s| - i
  {
    if i == |s| then [] else (if Stays(s, i) then [s[i]] else []) + Staying(s, i + 1)
  }

  lemma {:induction false} DroppedSlashes(s: seq<octet>, i: nat) returns (j: nat)
    requires i <= |s| && AfterSlash(s, i)
    ensures i <= j <= |s| && SkipSlashes(s[i..]) == s[j..] && Staying(s, i) == Staying(s, j)
    ensures AfterSlash(s, j) && (j < |s| ==> !IsSlash(s[j]))
    decreases |s| - i
  {
    j := i;
    if i < |s| && IsSlash(s[i]) {
      assert s[i..][1..] == s[i + 1..];
      j := DroppedSlashes(s, i + 1);
    }
  }

  lemma {:induction false} DotsCounted(s: seq<octet>, start: nat, i: nat)
    requires start <= i <= |s| && (start == 0 || s[start - 1] != '.') && forall k :: start <= k < i ==> s[k] == '.'
    ensures DotsBefore(s, i) == i - start
    decreases i
  {
    if start < i {
      DotsCounted(s, start, i - 1);
    }
  }

  predicate PairAt(s: seq<octet>, i: nat) {
    i + 1 < |s| && s[i] == '.' && s[i + 1] == '.'
  }

  lemma SkipPair(s: seq<octet>, i: nat)
    requires i <= |s|
    ensures SkipDots(s[i..]) == if PairAt(s, i) then SkipDots(s[i + 2..]) else s[i..]
  {
    if PairAt(s, i) {
      assert s[i..][2..] == s[i + 2..];
    }
  }

  /** An even number of dots after a slash comes before i. */
  predicate InPairs(s: seq<octet>, start: nat, i: nat) {
    && start <= i <= |s| && AfterSlash(s, start) && (i - start) % 2 == 0
    && forall k :: start <= k < i ==> s[k] == '.'
  }

  lemma PairGoes(s: seq<octet>, start: nat, i: nat)
    requires InPairs(s, start, i) && PairAt(s, i)
    ensures !Stays(s, i) && !Stays(s, i + 1) && InPairs(s, start, i + 2)
  {
    DotsCounted(s, start, i);
    DotsCounted(s, start, i + 1);
    assert DotsFrom(s, i) == 1 + DotsFrom(s, i + 1) && DotsFrom(s, i + 1) == 1 + DotsFrom(s, i + 2);
  }

  lemma AfterPairs(s: seq<octet>, start: nat, i: nat)
    requires InPairs(s, start, i) && !PairAt(s, i) && i < |s| && (i == start ==> !IsSlash(s[i]))
    ensures Stays(s, i)
  {
    DotsCounted(s, start, i);
    assert s[i] == '.' ==> DotsFrom(s, i) == 1 + DotsFrom(s, i + 1) && DotsFrom(s, i + 1) == 0;
  }

  /** Pairs of dots go, in a run of dots that starts after a slash. */
  lemma {:induction false} DroppedDots(s: seq<octet>, start: nat, i: nat) returns (j: nat)
    requires InPairs(s, start, i) && (i < |s| && i == start ==> !IsSlash(s[i]))
    ensures i <= j <= |s| && SkipDots(s[i..]) == s[j..] && Staying(s, i) == Staying(s, j)
    ensures j < |s| ==> Stays(s, j)
    decreases |s| - i
  {
    hide Stays, SkipDots, InPairs;
    assert i <= |s| by { InPairsEnd(s, start, i); }
    SkipPair(s, i);
    j := i;
    if PairAt(s, i) {
      PairGoes(s, start, i);
      InPairsEnd(s, start, i);
      j := DroppedDots(s, start, i + 2);
    } else if i < |s| {
      AfterPairs(s, start, i);
    }
  }

  lemma InPairsEnd(s: seq<octet>, start: nat, i: nat)
    requires InPairs(s, start, i)
    ensures start <= i <= |s|
  {
  }

  /** After a byte that is no slash the next one stays too, and after a slash the next one that is read. */
  lemma NextStays(s: seq<octet>, i: nat) returns (j: nat)
    requires i < |s| && Stays(s, i)
    ensures i < j <= |s| && Next(s[i..]) == s[j..] && Staying(s, i + 1) == Staying(s, j)
    ensures j < |s| ==> Stays(s, j)
  {
    assert s[i..][1..] == s[i + 1..];
    j := i + 1;
    if IsSlash(s[i]) {
      var start := DroppedSlashes(s, i + 1);
      j := DroppedDots(s, start, start);
    }
  }

  lemma {:induction false} CleanFrom(s: seq<octet>, i: nat)
    requires i <= |s| && (i < |s| ==> Stays(s, i))
    ensures Clean(s[i..]) == Staying(s, i)
    decreases |s| - i
  {
    hide Next, Stays;
    if i < |s| {
      var j := NextStays(s, i);
      CleanFrom(s, j);
    }
  }

  /** The clean-up keeps exactly the bytes that stay, in order. */
  lemma CleanKeepsWhatStays(s: seq<octet>)
    ensures Clean(s) == Staying(s, 0)
  {
    assert s[0..] == s;
    CleanFrom(s, 0);
  }

  /** The bytes of a path that are no slashes, backslashes or dots. */
  function Letters(s: seq<octet>): seq<octet> {
    if s == [] then []
    else (if s[0] == '/' || s[0] == '\\' || s[0] == '.' then [] else [s[0]]) + Letters(s[1..])
  }

  lemma {:induction false} LettersConcat(a: seq<octet>, b: seq<octet>)
    ensures Letters(a + b) == Letters(a) + Letters(b)
  {
    if a == [] {
      assert a + b == b;
    } else {
      assert (a + b)[1..] == a[1..] + b;
      LettersConcat(a[1..], b);
    }
  }

  lemma {:induction false} LettersStay(s: seq<octet>, i: nat)
    requires i <= |s|
    ensures Letters(Staying(s, i)) == Letters(s[i..])
    decreases |s| - i
  {
    hide Stays;
    if i < |s| {
      LettersStay(s, i + 1);
      var byte := if Stays(s, i) then [s[i]] else [];
      LettersConcat(byte, Staying(s, i + 1));
      LettersConcat([s[i]], s[i + 1..]);
      assert s[i..] == [s[i]] + s[i + 1..];
      assert !Stays(s, i) ==> Letters([s[i]]) == [] by { OnlySlashesAndDotsGo(s, i); }
    }
  }

  lemma OnlySlashesAndDotsGo(s: seq<octet>, i: nat)
    requires i < |s|
    ensures !Stays(s, i) ==> s[i] == '/' || s[i] == '\\' || s[i] == '.'
  {
  }

  /** No letter of a name is lost. */
  lemma CleanKeepsLetters(s: seq<octet>)
    ensures Letters(Clean(s)) == Letters(s)
  {
    CleanKeepsWhatStays(s);
    LettersStay(s, 0);
    assert s[0..] == s;
  }

  /** The path "/../a" is cleaned to "//a". */
  lemma DoubleSlashExample()
    ensures Clean(['/', '.', '.', '/', 'a']) == ['/', '/', 'a']
  {
    var tail: seq<octet> := ['/', 'a'];
    var last: seq<octet> := ['a'];
    var s: seq<octet> := ['/', '.', '.', '/', 'a'];
    assert s[1..][2..] == tail && tail[1..] == last && last[1..] == [];
    assert Next(s) == tail && Next(tail) == last;
  }
}
