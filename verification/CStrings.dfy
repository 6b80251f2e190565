/** C strings in memory, and comparing them without regard to case. */
module CStrings {
  import opened Common

  /** The string s lies at p in memory, NUL after it. */
  ghost predicate IsStr(mem: seq<octet>, p: nat, s: seq<octet>) {
    && p + |s| < |mem| && mem[p + |s|] == NUL
    && forall i :: 0 <= i < |s| ==> mem[p + i] == s[i] && s[i] != NUL
  }

  /** Where the first c is, or the length. */
  function Find(s: seq<octet>, c: octet): (n: nat)
    ensures n <= |s| && (n < |s| ==> s[n] == c)
    ensures forall i :: 0 <= i < n ==> s[i] != c
  {
    if s == [] || s[0] == c then 0 else 1 + Find(s[1..], c)
  }

  lemma FindIs(s: seq<octet>, c: octet, n: nat)
    requires n <= |s| && (forall i :: 0 <= i < n ==> s[i] != c) && (n < |s| ==> s[n] == c)
    ensures Find(s, c) == n
  {
  }

  /** strcspn: how many bytes come before the first delimiter. */
  function Cut(text: seq<octet>, delims: set<octet>): (n: nat)
    ensures n <= |text|
    ensures forall i :: 0 <= i < n ==> text[i] !in delims
    ensures n < |text| ==> text[n] in delims
  {
    if text == [] || text[0] in delims then 0 else 1 + Cut(text[1..], delims)
  }

  /** strspn: how many delimiters the text starts with. */
  function Run(text: seq<octet>, delims: set<octet>): (n: nat)
    ensures n <= |text|
    ensures forall i :: 0 <= i < n ==> text[i] in delims
    ensures n < |text| ==> text[n] !in delims
  {
    if text == [] || text[0] !in delims then 0 else 1 + Run(text[1..], delims)
  }

  lemma {:induction false} CutAt(word: seq<octet>, after: seq<octet>, delims: set<octet>)
    requires forall i :: 0 <= i < |word| ==> word[i] !in delims
    requires after != [] ==> after[0] in delims
    ensures Cut(word + after, delims) == |word|
  {
    if word == [] {
      assert word + after == after;
    } else {
      assert (word + after)[1..] == word[1..] + after;
      CutAt(word[1..], after, delims);
    }
  }

  lemma {:induction false} RunAt(sep: seq<octet>, after: seq<octet>, delims: set<octet>)
    requires forall i :: 0 <= i < |sep| ==> sep[i] in delims
    requires after != [] ==> after[0] !in delims
    ensures Run(sep + after, delims) == |sep|
  {
    if sep == [] {
      assert sep + after == after;
    } else {
      assert (sep + after)[1..] == sep[1..] + after;
      RunAt(sep[1..], after, delims);
    }
  }

  /** strlen. */
  method Strlen(mem: seq<octet>, p: nat, ghost text: seq<octet>) returns (n: nat)
    requires IsStr(mem, p, text)
    ensures n == |text|
  {
    n := 0;
    while mem[p + n] != NUL
      invariant n <= |text|
      invariant n < |text| ==> mem[p + n] == text[n] != NUL
      decreases |text| - n
    {
      n := n + 1;
    }
  }

  lemma StrTail(mem: seq<octet>, p: nat, text: seq<octet>, n: nat)
    requires IsStr(mem, p, text) && n <= |text|
    ensures IsStr(mem, p + n, text[n..])
  {
    assert forall i :: 0 <= i < |text| - n ==> text[n..][i] == text[n + i] && mem[p + n + i] == mem[p + (n + i)];
  }

  lemma StrIsSlice(mem: seq<octet>, p: nat, s: seq<octet>)
    requires IsStr(mem, p, s)
    ensures p + |s| < |mem| && mem[p..p + |s|] == s && mem[p + |s|] == NUL && NUL !in s
  {
  }

  lemma SliceIsStr(mem: seq<octet>, p: nat, s: seq<octet>)
    requires p + |s| < |mem| && mem[p..p + |s|] == s && mem[p + |s|] == NUL && NUL !in s
    ensures IsStr(mem, p, s)
  {
    forall i | 0 <= i < |s|
      ensures mem[p + i] == s[i] && s[i] != NUL
    {
      assert mem[p..p + |s|][i] == mem[p + i];
    }
  }

  /** The bytes before the first NUL. */
  function UpToNul(s: seq<octet>): (t: seq<octet>)
    ensures t <= s && NUL !in t && (|t| < |s| ==> s[|t|] == NUL)
  {
    if s == [] || s[0] == NUL then [] else [s[0]] + UpToNul(s[1..])
  }

  lemma {:induction false} NoNulInside(s: seq<octet>)
    requires NUL !in s
    ensures UpToNul(s) == s
  {
    if s != [] {
      NoNulInside(s[1..]);
    }
  }

  /** tolower in the C locale. */
  function Lower(c: octet): octet {
    if 'A' <= c <= 'Z' then c + 32 as char else c
  }

  function LowerAll(s: seq<octet>): (r: seq<octet>)
    ensures |r| == |s| && forall i :: 0 <= i < |s| ==> r[i] == Lower(s[i])
  {
    seq(|s|, i requires 0 <= i < |s| => Lower(s[i]))
  }

  /** The same byte, or the same letter of the alphabet. */
  ghost predicate SameLetter(a: octet, b: octet) {
    || a == b
    || exists i :: 0 <= i < 26 && {a, b} == {"ABCDEFGHIJKLMNOPQRSTUVWXYZ"[i], "abcdefghijklmnopqrstuvwxyz"[i]}
  }

  lemma Alphabet()
    ensures forall i :: 0 <= i < 26 ==> "ABCDEFGHIJKLMNOPQRSTUVWXYZ"[i] as int == 'A' as int + i
    ensures forall i :: 0 <= i < 26 ==> "abcdefghijklmnopqrstuvwxyz"[i] as int == 'a' as int + i
  {
  }

  lemma CapitalAndSmall(a: octet, b: octet, i: nat)
    requires i < 26
    ensures {a, b} == {"ABCDEFGHIJKLMNOPQRSTUVWXYZ"[i], "abcdefghijklmnopqrstuvwxyz"[i]} <==>
            (a as int == 'A' as int + i && b as int == 'a' as int + i)
            || (b as int == 'A' as int + i && a as int == 'a' as int + i)
  {
    Alphabet();
    var upper, lower := "ABCDEFGHIJKLMNOPQRSTUVWXYZ"[i], "abcdefghijklmnopqrstuvwxyz"[i];
    if {a, b} == {upper, lower} {
      assert a in {upper, lower} && b in {upper, lower} && upper in {a, b} && lower in {a, b};
    }
  }

  lemma SameLower(a: octet, b: octet)
    ensures Lower(a) == Lower(b) <==> SameLetter(a, b)
    ensures !('A' <= Lower(a) <= 'Z') && (Lower(a) == a <==> !('A' <= a <= 'Z'))
  {
    forall i | 0 <= i < 26
      ensures {a, b} == {"ABCDEFGHIJKLMNOPQRSTUVWXYZ"[i], "abcdefghijklmnopqrstuvwxyz"[i]} <==>
              (a as int == 'A' as int + i && b as int == 'a' as int + i)
              || (b as int == 'A' as int + i && a as int == 'a' as int + i)
    {
      CapitalAndSmall(a, b, i);
    }
    if Lower(a) == Lower(b) && a != b {
      var i := if 'A' <= a <= 'Z' then a as int - 'A' as int else b as int - 'A' as int;
      assert {a, b} == {"ABCDEFGHIJKLMNOPQRSTUVWXYZ"[i], "abcdefghijklmnopqrstuvwxyz"[i]};
    }
  }

  /** Strings are equal in lower case exactly when they are the same letter by letter. */
  lemma EqualInAnyCase(s: seq<octet>, t: seq<octet>)
    ensures LowerAll(s) == LowerAll(t) <==> |s| == |t| && forall i :: 0 <= i < |s| ==> SameLetter(s[i], t[i])
    ensures forall i :: 0 <= i < |s| ==> !('A' <= LowerAll(s)[i] <= 'Z')
    ensures forall i :: 0 <= i < |s| && !('A' <= s[i] <= 'Z') ==> LowerAll(s)[i] == s[i]
  {
    hide SameLetter, Lower, LowerAll;
    forall i | 0 <= i < |s|
      ensures !('A' <= Lower(s[i]) <= 'Z') && (Lower(s[i]) == s[i] <==> !('A' <= s[i] <= 'Z'))
      ensures i < |t| ==> (Lower(s[i]) == Lower(t[i]) <==> SameLetter(s[i], t[i]))
    {
      SameLower(s[i], if i < |t| then t[i] else s[i]);
    }
    if LowerAll(s) == LowerAll(t) {
      assert |s| == |t| && forall i :: 0 <= i < |s| ==> LowerAll(s)[i] == LowerAll(t)[i];
    }
  }

  function Compare(a: octet, b: octet): int {
    Lower(a) as int - Lower(b) as int
  }

  lemma CompareIsZero(a: octet, b: octet)
    ensures Compare(a, b) == 0 <==> Lower(a) == Lower(b)
    ensures Compare(a, NUL) == 0 <==> a == NUL
  {
  }

  /** The byte at j of a string, its NUL included. */
  function ByteAt(s: seq<octet>, j: nat): octet {
    if j < |s| then s[j] else NUL
  }

  /** The strings agree in lower case before j, and this is the difference at j. */
  predicate DiffersAt(s1: seq<octet>, s2: seq<octet>, j: nat, diff: int) {
    j <= |s1| && j <= |s2| && LowerAll(s1[..j]) == LowerAll(s2[..j])
    && diff == Lower(ByteAt(s1, j)) as int - Lower(ByteAt(s2, j)) as int
  }

  /** The result is zero for strings equal in lower case, else the difference at the first byte where they are not. */
  method MgStrcasecmp(mem1: seq<octet>, p1: nat, mem2: seq<octet>, p2: nat, ghost s1: seq<octet>, ghost s2: seq<octet>)
    returns (diff: int)
    requires IsStr(mem1, p1, s1) && IsStr(mem2, p2, s2)
    ensures diff == 0 <==> LowerAll(s1) == LowerAll(s2)
    ensures diff != 0 ==>
              exists j :: 0 <= j <= |s1| && DiffersAt(s1, s2, j, diff)
  {
    var j := 0;
    diff := Compare(mem1[p1 + j], mem2[p2 + j]);
    while diff == 0 && mem1[p1 + j] != NUL
      invariant j <= |s1| && j <= |s2|
      invariant forall k :: 0 <= k < j ==> Lower(s1[k]) == Lower(s2[k])
      invariant diff == Compare(mem1[p1 + j], mem2[p2 + j])
      decreases |s1| - j
    {
      CompareIsZero(mem1[p1 + j], mem2[p2 + j]);
      j := j + 1;
      diff := Compare(mem1[p1 + j], mem2[p2 + j]);
    }
    assert j < |s1| ==> s1[j] != NUL;
    assert j < |s2| ==> s2[j] != NUL;
    assert mem1[p1 + j] == ByteAt(s1, j) && mem2[p2 + j] == ByteAt(s2, j);
    assert DiffersAt(s1, s2, j, diff);
    if diff == 0 {
      CompareIsZero(mem1[p1 + j], mem2[p2 + j]);
      assert j == |s1| == |s2|;
    } else if |s1| == |s2| {
      assert j < |s1|;
      assert LowerAll(s1)[j] != LowerAll(s2)[j];
    }
  }

  /** At most len bytes of a string. */
  function Head(s: seq<octet>, len: nat): seq<octet> {
    UpToNul(if len <= |s| then s[..len] else s)
  }

  /** Comparing len bytes stays inside s. */
  predicate Comparable(s: seq<octet>, len: nat) {
    len <= |s| || NUL in s
  }

  lemma {:induction false} UpToNulStarts(s: seq<octet>, n: nat)
    requires n <= |s| && NUL !in s[..n]
    ensures |UpToNul(s)| >= n && UpToNul(s)[..n] == s[..n]
    ensures n < |s| ==> (s[n] == NUL <==> |UpToNul(s)| == n)
    ensures n == |s| ==> UpToNul(s) == s
  {
    if n > 0 {
      assert s[..n][0] == s[0] && s[1..][..n - 1] == s[..n][1..];
      UpToNulStarts(s[1..], n - 1);
    }
  }

  lemma HeadStarts(s: seq<octet>, len: nat, n: nat)
    requires n <= len && n <= |s| && NUL !in s[..n]
    ensures |Head(s, len)| >= n && Head(s, len)[..n] == s[..n]
    ensures n < len && n < |s| ==>
              if s[n] == NUL then |Head(s, len)| == n else |Head(s, len)| > n && Head(s, len)[n] == s[n]
    ensures n == len ==> Head(s, len) == s[..len]
  {
    var t := if len <= |s| then s[..len] else s;
    assert t[..n] == s[..n];
    UpToNulStarts(t, n);
  }

  lemma HeadsCompare(s1: seq<octet>, s2: seq<octet>, len: nat, n: nat)
    requires n < len && n < |s1| && n < |s2| && NUL !in s1[..n] && NUL !in s2[..n]
    requires LowerAll(s1[..n]) == LowerAll(s2[..n])
    ensures Compare(s1[n], s2[n]) != 0 ==> LowerAll(Head(s1, len)) != LowerAll(Head(s2, len))
    ensures Compare(s1[n], s2[n]) == 0 && (s1[n] == NUL || n + 1 == len) ==>
              LowerAll(Head(s1, len)) == LowerAll(Head(s2, len))
    ensures DiffersAt(Head(s1, len), Head(s2, len), n, Compare(s1[n], s2[n]))
  {
    HeadStarts(s1, len, n);
    HeadStarts(s2, len, n);
    CompareIsZero(s1[n], s2[n]);
    CompareIsZero(s1[n], NUL);
    CompareIsZero(s2[n], NUL);
    var h1, h2 := Head(s1, len), Head(s2, len);
    if Compare(s1[n], s2[n]) != 0 {
      if s1[n] != NUL && s2[n] != NUL {
        assert LowerAll(h1)[n] != LowerAll(h2)[n];
      } else {
        assert |LowerAll(h1)| != |LowerAll(h2)|;
      }
    } else if s1[n] == NUL {
      assert h1 == s1[..n] && h2 == s2[..n];
    } else if n + 1 == len {
      NextNotNul(s1, n);
      NextNotNul(s2, n);
      HeadStarts(s1, len, len);
      HeadStarts(s2, len, len);
      LowerNext(s1, s2, n);
    }
  }

  lemma NextNotNul(s: seq<octet>, n: nat)
    requires n < |s| && NUL !in s[..n] && s[n] != NUL
    ensures NUL !in s[..n + 1]
  {
    assert s[..n + 1] == s[..n] + [s[n]];
  }

  lemma LowerNext(s1: seq<octet>, s2: seq<octet>, n: nat)
    requires n < |s1| && n < |s2| && LowerAll(s1[..n]) == LowerAll(s2[..n]) && Lower(s1[n]) == Lower(s2[n])
    ensures LowerAll(s1[..n + 1]) == LowerAll(s2[..n + 1])
  {
    assert forall i :: 0 <= i < n ==> Lower(s1[i]) == LowerAll(s1[..n])[i] == LowerAll(s2[..n])[i] == Lower(s2[i]);
  }

  /** Zero for at most len bytes that are equal in lower case, else the difference at the first that are not. */
  method MgStrncasecmp(s1: seq<octet>, s2: seq<octet>, len: nat) returns (diff: int)
    requires Comparable(s1, len) && Comparable(s2, len)
    ensures diff == 0 <==> LowerAll(Head(s1, len)) == LowerAll(Head(s2, len))
    ensures diff != 0 ==> exists j :: 0 <= j < len && DiffersAt(Head(s1, len), Head(s2, len), j, diff)
  {
    hide LowerAll, Head, Compare, DiffersAt;
    diff := 0;
    if len > 0 {
      FirstOfBoth(s1, s2, len);
      diff := Compare(s1[0], s2[0]);
      var i, left := 1, len;
      while diff == 0 && s1[i - 1] != NUL && left - 1 > 0
        invariant 1 <= i <= len && left == len - i + 1 && i <= |s1| && i <= |s2|
        invariant NUL !in s1[..i - 1] && NUL !in s2[..i - 1] && LowerAll(s1[..i - 1]) == LowerAll(s2[..i - 1])
        invariant diff == Compare(s1[i - 1], s2[i - 1])
        decreases left
      {
        ReadOn(s1, s2, len, i - 1);
        diff := Compare(s1[i], s2[i]);
        i, left := i + 1, left - 1;
      }
      HeadsCompare(s1, s2, len, i - 1);
    } else {
      NoHead(s1, s2);
    }
  }

  lemma FirstOfBoth(s1: seq<octet>, s2: seq<octet>, len: nat)
    requires len > 0 && Comparable(s1, len) && Comparable(s2, len)
    ensures s1 != [] && s2 != [] && LowerAll(s1[..0]) == LowerAll(s2[..0])
  {
  }

  lemma NoHead(s1: seq<octet>, s2: seq<octet>)
    ensures LowerAll(Head(s1, 0)) == LowerAll(Head(s2, 0))
  {
  }

  lemma MoreToRead(s: seq<octet>, len: nat, n: nat)
    requires n < len && n <= |s| && Comparable(s, len) && NUL !in s[..n]
    ensures n < |s|
  {
    assert forall i :: 0 <= i < n ==> s[i] == s[..n][i] && s[i] != NUL;
  }

  /** After bytes that are equal and not NUL there is one more of each to read. */
  lemma ReadOn(s1: seq<octet>, s2: seq<octet>, len: nat, n: nat)
    requires n + 1 < len && n < |s1| && n < |s2| && Comparable(s1, len) && Comparable(s2, len)
    requires NUL !in s1[..n] && NUL !in s2[..n] && LowerAll(s1[..n]) == LowerAll(s2[..n])
    requires Compare(s1[n], s2[n]) == 0 && s1[n] != NUL
    ensures n + 1 < |s1| && n + 1 < |s2| && NUL !in s1[..n + 1] && NUL !in s2[..n + 1]
    ensures LowerAll(s1[..n + 1]) == LowerAll(s2[..n + 1])
  {
    CompareIsZero(s1[n], s2[n]);
    CompareIsZero(s1[n], NUL);
    CompareIsZero(s2[n], NUL);
    NextNotNul(s1, n);
    NextNotNul(s2, n);
    LowerNext(s1, s2, n);
    MoreToRead(s1, len, n + 1);
    MoreToRead(s2, len, n + 1);
  }

  /** Against a name without NUL, a piece of the same length compares as a whole. */
  lemma HeadOfPiece(name: seq<octet>, piece: seq<octet>)
    requires NUL !in name && |piece| == |name|
    ensures Head(name, |name|) == name
    ensures LowerAll(Head(piece, |name|)) == LowerAll(name) <==> LowerAll(piece) == LowerAll(name)
  {
    assert name[..|name|] == name && piece[..|name|] == piece;
    HeadStarts(name, |name|, |name|);
    var h := UpToNul(piece);
    if |h| == |piece| {
      assert h == piece;
    } else {
      CompareIsZero(name[|h|], NUL);
      assert LowerAll(piece)[|h|] != LowerAll(name)[|h|];
      assert |LowerAll(h)| != |LowerAll(name)|;
    }
  }
}
