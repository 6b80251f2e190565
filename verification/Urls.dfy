/** Percent-decoding, in place or into another buffer, and looking up a form variable. */
module Urls {
  import opened Common
  import opened CStrings

  predicate IsHex(c: octet) {
    '0' <= c <= '9' || 'a' <= c <= 'f' || 'A' <= c <= 'F'
  }

  /** HEXTOI of the digit in lower case. */
  function HexValue(c: octet): (n: nat)
    requires IsHex(c)
    ensures n < 16
  {
    var l := Lower(c);
    if '0' <= l <= '9' then l as int - '0' as int else l as int - 'W' as int
  }

  function HexByte(high: octet, low: octet): octet
    requires IsHex(high) && IsHex(low)
  {
    (16 * HexValue(high) + HexValue(low)) as char
  }

  // What decoding means.

  /** The decoded text. */
  function Decode(s: seq<octet>, form: bool): (r: seq<octet>)
    ensures |r| <= |s|
  {
    if s == [] then []
    else if |s| >= 3 && s[0] == '%' && IsHex(s[1]) && IsHex(s[2]) then [HexByte(s[1], s[2])] + Decode(s[3..], form)
    else [if form && s[0] == '+' then ' ' else s[0]] + Decode(s[1..], form)
  }

  /** What the loop reads from i up to end is in memory: past the end, what an escape cut off there asks for. */
  predicate Readable(mem: seq<octet>, i: nat, end: nat) {
    && end <= |mem|
    && (i + 1 <= end && mem[end - 1] == '%' ==> end < |mem| && (IsHex(mem[end]) ==> end + 1 < |mem|))
    && (i + 2 <= end && mem[end - 2] == '%' && IsHex(mem[end - 1]) ==> end < |mem|)
  }

  predicate EscapeAt(mem: seq<octet>, i: nat, end: nat)
    requires i < end && Readable(mem, i, end)
  {
    mem[i] == '%' && IsHex(mem[i + 1]) && IsHex(mem[i + 2])
  }

  /** The byte that one turn of the loop produces at i, and where the next turn starts. */
  function Turn(mem: seq<octet>, i: nat, end: nat, form: bool): (r: (octet, nat))
    requires i < end && Readable(mem, i, end)
    ensures i < r.1 <= i + 3
  {
    if EscapeAt(mem, i, end) then (HexByte(mem[i + 1], mem[i + 2]), i + 3)
    else (if form && mem[i] == '+' then ' ' else mem[i], i + 1)
  }

  /** What the loop produces from position i of memory, escapes that reach past the end included. */
  function Scan(mem: seq<octet>, i: nat, end: nat, form: bool): (r: seq<octet>)
    requires Readable(mem, i, end)
    ensures i <= end ==> |r| <= end - i
    decreases end - i
  {
    if i >= end then [] else
    var (c, next) := Turn(mem, i, end, form);
    [c] + Scan(mem, next, end, form)
  }

  /** The text ends inside what the bytes after it complete to an escape for some byte but '%' itself. */
  predicate Overruns(mem: seq<octet>, i: nat, end: nat)
    requires Readable(mem, i, end)
  {
    || (i + 1 <= end && mem[end - 1] == '%' && IsHex(mem[end]) && IsHex(mem[end + 1])
        && HexByte(mem[end], mem[end + 1]) != '%')
    || (i + 2 <= end && mem[end - 2] == '%' && IsHex(mem[end - 1]) && IsHex(mem[end]))
  }

  /** The loop decodes exactly the text unless an escape runs over its end. */
  lemma {:induction false} ScanIsDecode(mem: seq<octet>, i: nat, end: nat, form: bool)
    requires Readable(mem, i, end) && i <= end
    ensures Scan(mem, i, end, form) == Decode(mem[i..end], form) <==> !Overruns(mem, i, end)
    decreases end - i
  {
    hide IsHex, HexByte;
    if i < end {
      var s := mem[i..end];
      var (c, next) := Turn(mem, i, end, form);
      if next <= end {
        assert s[next - i..] == mem[next..end];
        ScanIsDecode(mem, next, end, form);
        TurnKeepsOverrun(mem, i, end, form);
        var rest, plain := Scan(mem, next, end, form), Decode(mem[next..end], form);
        assert Decode(s, form) == [c] + plain && Scan(mem, i, end, form) == [c] + rest;
        assert ([c] + plain)[1..] == plain && ([c] + rest)[1..] == rest;
      } else {
        CutEscape(mem, i, end, form);
      }
    }
  }

  lemma TurnKeepsOverrun(mem: seq<octet>, i: nat, end: nat, form: bool)
    requires i < end && Readable(mem, i, end) && Turn(mem, i, end, form).1 <= end
    ensures Overruns(mem, i, end) <==> Overruns(mem, Turn(mem, i, end, form).1, end)
  {
  }

  /** A turn that goes past the end: one byte, where the text has one or two. */
  lemma CutEscape(mem: seq<octet>, i: nat, end: nat, form: bool)
    requires i < end && Readable(mem, i, end) && Turn(mem, i, end, form).1 > end
    ensures Scan(mem, i, end, form) == Decode(mem[i..end], form) <==> !Overruns(mem, i, end)
  {
    var s := mem[i..end];
    assert s[0] == '%';
    assert Scan(mem, i + 3, end, form) == [];
    assert Scan(mem, i, end, form) == [HexByte(mem[i + 1], mem[i + 2])];
    if |s| == 1 {
      assert Decode(s, form) == ['%'] by { assert s[1..] == []; }
    } else {
      assert |Decode(s, form)| == 2 by { assert s[1..][1..] == []; }
    }
  }

  /** An escape cut off by the end of the text takes hex digits from what comes after it. */
  lemma ScanOverruns()
    ensures var mem: seq<octet> := ['%', '4', '1', NUL];
            Scan(mem, 0, 2, false) == ['A'] && Decode(mem[..2], false) == ['%', '4']
  {
    var mem: seq<octet> := ['%', '4', '1', NUL];
    assert Scan(mem, 3, 2, false) == [];
    var cut := mem[..2];
    assert cut == ['%', '4'] && cut[1..] == ['4'] && cut[1..][1..] == [];
  }

  function Min(a: nat, b: nat): nat {
    if a < b then a else b
  }

  lemma ScanTurn(mem: seq<octet>, i: nat, end: nat, form: bool, done: seq<octet>)
    requires i < end && Readable(mem, i, end)
    ensures var (c, next) := Turn(mem, i, end, form);
            done + Scan(mem, i, end, form) == done + [c] + Scan(mem, next, end, form)
  {
    hide Turn;
  }

  lemma ScanEnd(mem: seq<octet>, i: nat, end: nat, form: bool)
    requires Readable(mem, i, end)
    ensures i >= end ==> Scan(mem, i, end, form) == []
  {
  }

  method ReadTurn(src: array<octet>, at: nat, form: bool, ghost mem: seq<octet>, ghost end: nat)
    returns (c: octet, next: nat)
    requires at < end && src.Length == |mem| && Readable(mem, at, end)
    requires forall k :: at <= k < |mem| ==> src[k] == mem[k]
    ensures (c, next) == Turn(mem, at, end, form)
  {
    if src[at] == '%' && IsHex(src[at + 1]) && IsHex(src[at + 2]) {
      c := HexByte(src[at + 1], src[at + 2]);
      next := at + 3;
    } else if form && src[at] == '+' {
      c, next := ' ', at + 1;
    } else {
      c, next := src[at], at + 1;
    }
  }

  /** One more byte after those written. */
  method WriteNext(dst: array<octet>, to: nat, j: nat, c: octet, ghost done: seq<octet>)
    requires to + j < dst.Length && |done| == j && dst[to..to + j] == done
    modifies dst
    ensures dst[to..to + j + 1] == done + [c]
    ensures forall k :: 0 <= k < dst.Length && k != to + j ==> dst[k] == old(dst[k])
  {
    dst[to + j] := c;
    assert dst[to..to + j] == done;
  }

  /** What is readable from i on is so from later on. */
  lemma ReadableLater(mem: seq<octet>, i: nat, later: nat, end: nat)
    requires Readable(mem, i, end) && i <= later
    ensures end <= |mem| && Readable(mem, later, end)
  {
  }

  /**
   url_decode.  The buffers may be the same one, as long as the output does not start behind the
   input; either way the bytes written are those of the loop on the memory as it was.
   */
  method UrlDecode(src: array<octet>, from: nat, srcLen: nat, dst: array<octet>, to: nat, dstLen: nat, form: bool)
    returns (j: nat)
    requires Readable(src[..], from, from + srcLen)
    requires 1 <= dstLen && to + dstLen <= dst.Length
    requires dst == src ==> to <= from
    modifies dst
    ensures var r := Scan(old(src[..]), from, from + srcLen, form);
            j == Min(|r|, dstLen - 1) && dst[to..to + j] == r[..j] && dst[to + j] == NUL
    ensures forall k :: 0 <= k < dst.Length && !(to <= k <= to + j) ==> dst[k] == old(dst[k])
  {
    hide Scan, Turn, EscapeAt, IsHex, Readable;
    ghost var mem, done := src[..], [];
    ReadableLater(mem, from, from, from + srcLen);
    var i: nat, end := from, from + srcLen;
    j := 0;
    while i < end && j < dstLen - 1
      invariant from + j <= i && j <= dstLen - 1 && |done| == j && Readable(mem, i, end)
      invariant dst[to..to + j] == done && Scan(mem, from, end, form) == done + Scan(mem, i, end, form)
      invariant forall k :: i <= k < |mem| ==> src[k] == mem[k]
      invariant forall k :: 0 <= k < dst.Length && !(to <= k < to + j) ==> dst[k] == old(dst[k])
      decreases end - i
    {
      ScanTurn(mem, i, end, form, done);
      var c, next := ReadTurn(src, i, form, mem, end);
      WriteNext(dst, to, j, c, done);
      done := done + [c];
      ReadableLater(mem, i, next, end);
      i, j := next, j + 1;
    }
    ScanEnd(mem, i, end, form);
    dst[to + j] := NUL;
  }

  // Percent-encoding and back.

  function HexChar(n: nat, upper: bool): (c: octet)
    requires n < 16
    ensures IsHex(c) && HexValue(c) == n
  {
    if n < 10 then ('0' as int + n) as char
    else if upper then ('A' as int + n - 10) as char
    else ('a' as int + n - 10) as char
  }

  /** RFC 3986 section 2.1 for one byte: as it is where that is allowed, else two hex digits. */
  function EncodeByte(c: octet, form: bool, literal: set<octet>, upper: bool): seq<octet> {
    if form && c == ' ' then ['+']
    else if c in literal && c != '%' && !(form && c == '+') then [c]
    else ['%', HexChar(c as int / 16, upper), HexChar(c as int % 16, upper)]
  }

  function Encode(s: seq<octet>, form: bool, literal: set<octet>, upper: bool): seq<octet> {
    if s == [] then [] else EncodeByte(s[0], form, literal, upper) + Encode(s[1..], form, literal, upper)
  }

  /** Decoding undoes every percent-encoding of every byte string. */
  lemma {:induction false} DecodeInvertsEncode(s: seq<octet>, form: bool, literal: set<octet>, upper: bool)
    ensures Decode(Encode(s, form, literal, upper), form) == s
  {
    if s != [] {
      var first, more := EncodeByte(s[0], form, literal, upper), Encode(s[1..], form, literal, upper);
      DecodeInvertsEncode(s[1..], form, literal, upper);
      assert (first + more)[|first|..] == more;
      if |first| == 3 {
        assert HexByte(first[1], first[2]) == s[0];
      }
    }
  }

  /** The hex digit, small or capital, of a number below sixteen. */
  predicate IsDigitOf(c: octet, n: nat) {
    n < 16 && (c == "0123456789abcdef"[n] || c == "0123456789ABCDEF"[n])
  }

  lemma DigitValue(c: octet, n: nat)
    ensures IsDigitOf(c, n) <==> IsHex(c) && HexValue(c) == n
  {
    assert forall i :: 0 <= i < 10 ==> "0123456789abcdef"[i] as int == "0123456789ABCDEF"[i] as int == '0' as int + i;
    assert forall i :: 10 <= i < 16 ==> "0123456789abcdef"[i] as int == 'a' as int + i - 10;
    assert forall i :: 10 <= i < 16 ==> "0123456789ABCDEF"[i] as int == 'A' as int + i - 10;
  }

  /** A percent sign and two hex digits are the byte with that number. */
  lemma EscapeDecodes(a: octet, b: octet, high: nat, low: nat, rest: seq<octet>, form: bool)
    requires IsDigitOf(a, high) && IsDigitOf(b, low)
    ensures Decode(['%', a, b] + rest, form) == [(16 * high + low) as char] + Decode(rest, form)
  {
    hide IsDigitOf, IsHex, HexValue;
    DigitValue(a, high);
    DigitValue(b, low);
    assert (['%', a, b] + rest)[3..] == rest;
  }

  /** Any other byte is itself, but for the plus sign of a form, which is a space. */
  lemma OtherBytesDecode(s: seq<octet>, form: bool)
    requires s != []
    requires |s| >= 3 && s[0] == '%' ==> forall high, low :: !(IsDigitOf(s[1], high) && IsDigitOf(s[2], low))
    ensures Decode(s, form) == [if form && s[0] == '+' then ' ' else s[0]] + Decode(s[1..], form)
  {
    hide IsDigitOf, IsHex, HexValue;
    if |s| >= 3 && s[0] == '%' {
      var high, low := if IsHex(s[1]) then HexValue(s[1]) else 0, if IsHex(s[2]) then HexValue(s[2]) else 0;
      DigitValue(s[1], high);
      DigitValue(s[2], low);
    }
  }

  /** An encoding does not end inside an escape. */
  lemma {:induction false} EncodeEnds(s: seq<octet>, form: bool, literal: set<octet>, upper: bool)
    ensures var e := Encode(s, form, literal, upper);
            && (|e| >= 1 ==> e[|e| - 1] != '%') && (|e| >= 2 ==> e[|e| - 2] != '%')
  {
    if s != [] {
      var first, more := EncodeByte(s[0], form, literal, upper), Encode(s[1..], form, literal, upper);
      EncodeEnds(s[1..], form, literal, upper);
      assert first[|first| - 1] != '%' && (|first| >= 2 ==> first[|first| - 2] != '%');
      assert Encode(s, form, literal, upper) == first + more;
    }
  }

  /** The loop undoes every percent-encoding, whatever bytes come after it in memory. */
  lemma ScanInvertsEncode(mem: seq<octet>, i: nat, end: nat, s: seq<octet>,
                          form: bool, literal: set<octet>, upper: bool)
    requires i <= end <= |mem| && mem[i..end] == Encode(s, form, literal, upper)
    ensures Readable(mem, i, end) && !Overruns(mem, i, end) && Scan(mem, i, end, form) == s
  {
    hide Scan, Decode, Encode, IsHex;
    var e := mem[i..end];
    EncodeEnds(s, form, literal, upper);
    assert |e| >= 1 ==> mem[end - 1] == e[|e| - 1];
    assert |e| >= 2 ==> mem[end - 2] == e[|e| - 2];
    DecodeInvertsEncode(s, form, literal, upper);
    ScanIsDecode(mem, i, end, form);
  }

  // Form variables.

  /** The segment has the form name=value, the name in any case. */
  predicate Names(segment: seq<octet>, name: seq<octet>) {
    var n := Find(segment, '=');
    n < |segment| && LowerAll(segment[..n]) == LowerAll(name)
  }

  /** Split at '&': the undecoded value of the first segment with that name. */
  function RawValue(s: seq<octet>, name: seq<octet>): Option<seq<octet>>
    decreases |s|
  {
    var n := Find(s, '&');
    if Names(s[..n], name) then Some(s[..n][Find(s[..n], '=') + 1..])
    else if n == |s| then None
    else RawValue(s[n + 1..], name)
  }

  predicate PlainName(name: seq<octet>) {
    '&' !in name && '=' !in name && NUL !in name
  }

  lemma NameFills(segment: seq<octet>, name: seq<octet>)
    requires Names(segment, name)
    ensures Find(segment, '=') == |name| < |segment|
  {
    var k := Find(segment, '=');
    assert |LowerAll(segment[..k])| == k && |LowerAll(name)| == |name|;
  }

  /** Only a segment longer than the name can have it. */
  lemma {:induction false} ShortHasNone(s: seq<octet>, name: seq<octet>)
    requires |s| <= |name|
    ensures RawValue(s, name).None?
    decreases |s|
  {
    hide Names, Find;
    var n := Find(s, '&');
    if Names(s[..n], name) {
      NameFills(s[..n], name);
    }
    if n < |s| {
      ShortHasNone(s[n + 1..], name);
    }
  }

  /** What equals a plain name in some case has no delimiter in it. */
  lemma NoDelimiter(s: seq<octet>, name: seq<octet>)
    requires PlainName(name) && LowerAll(s) == LowerAll(name)
    ensures |s| == |name| && forall i :: 0 <= i < |s| ==> s[i] != '&' && s[i] != '='
  {
    assert |LowerAll(s)| == |s| && |LowerAll(name)| == |name|;
    forall i | 0 <= i < |s|
      ensures s[i] != '&' && s[i] != '='
    {
      assert Lower(s[i]) == LowerAll(s)[i] == LowerAll(name)[i] == Lower(name[i]);
    }
  }

  /** The text starts with the name, in some case, and then '='. */
  predicate StartsWith(s: seq<octet>, name: seq<octet>) {
    |name| < |s| && s[|name|] == '=' && LowerAll(s[..|name|]) == LowerAll(name)
  }

  lemma StartNames(s: seq<octet>, name: seq<octet>)
    requires PlainName(name) && StartsWith(s, name)
    ensures Names(s[..Find(s, '&')], name)
  {
    hide LowerAll, Find;
    var k := |name|;
    NoDelimiter(s[..k], name);
    assert forall i :: 0 <= i < k ==> s[i] == s[..k][i];
    var segment := s[..Find(s, '&')];
    assert Find(s, '&') > k && segment[..k] == s[..k];
    FindIs(segment, '=', k);
  }

  lemma NamesStart(s: seq<octet>, name: seq<octet>)
    requires Names(s[..Find(s, '&')], name)
    ensures StartsWith(s, name)
  {
    hide LowerAll, Find;
    var segment := s[..Find(s, '&')];
    NameFills(segment, name);
    assert segment[..|name|] == s[..|name|];
  }

  /** The test of the loop at the start of a segment is the test of the segment's name. */
  lemma TestIsNames(s: seq<octet>, name: seq<octet>)
    requires PlainName(name)
    ensures Names(s[..Find(s, '&')], name) <==> StartsWith(s, name)
  {
    hide Names, StartsWith, Find, PlainName;
    if StartsWith(s, name) {
      StartNames(s, name);
    }
    if Names(s[..Find(s, '&')], name) {
      NamesStart(s, name);
    }
  }

  /** The condition of the loop at position p, where the name still fits. */
  predicate Test(s: seq<octet>, p: nat, name: seq<octet>)
    requires p + |name| < |s|
  {
    (p == 0 || s[p - 1] == '&') && s[p + |name|] == '=' && LowerAll(s[p..p + |name|]) == LowerAll(name)
  }

  /** From q to the next '&', or to the end. */
  function UpToAmp(s: seq<octet>, q: nat): seq<octet>
    requires q <= |s|
  {
    s[q..q + Find(s[q..], '&')]
  }

  /** Where the value starts that the loop finds from position p on. */
  function FoundAt(s: seq<octet>, p: nat, name: seq<octet>): (q: Option<nat>)
    ensures q.Some? ==> q.value <= |s|
    decreases |s| - p
  {
    if p + |name| >= |s| then None
    else if Test(s, p, name) then Some(p + |name| + 1)
    else FoundAt(s, p + 1, name)
  }

  function Found(s: seq<octet>, p: nat, name: seq<octet>): Option<seq<octet>> {
    var q := FoundAt(s, p, name);
    if q.None? then None else Some(UpToAmp(s, q.value))
  }

  /** Positions inside a segment are passed over. */
  lemma {:induction false} PassOver(s: seq<octet>, p: nat, q: nat, name: seq<octet>)
    requires 0 < p <= q
    requires forall k :: p - 1 <= k < q - 1 && k < |s| ==> s[k] != '&'
    ensures FoundAt(s, p, name) == FoundAt(s, q, name)
    decreases q - p
  {
    if p < q {
      PassOver(s, p + 1, q, name);
    }
  }

  /** The value of the first segment, once it is known to have the name. */
  lemma SameValue(t: seq<octet>, name: seq<octet>)
    requires Names(t[..Find(t, '&')], name)
    ensures |name| < Find(t, '&') && RawValue(t, name) == Some(UpToAmp(t, |name| + 1))
  {
    hide Names, Find, LowerAll;
    var n := Find(t, '&');
    NameFills(t[..n], name);
    FindInTail(t, |name| + 1, '&');
    assert t[..n][|name| + 1..] == t[|name| + 1..n];
  }

  lemma FindInTail(t: seq<octet>, k: nat, c: octet)
    requires k <= Find(t, c)
    ensures Find(t[k..], c) == Find(t, c) - k
  {
    FindIs(t[k..], c, Find(t, c) - k);
  }

  /** No match at the start of a segment: the search goes on at the next one. */
  lemma Unmatched(s: seq<octet>, p: nat, name: seq<octet>)
    requires p + |name| < |s| && !Test(s, p, name)
    ensures Found(s, p, name) == Found(s, p + Find(s[p..], '&') + 1, name)
  {
    hide Find, Test, UpToAmp;
    var t := s[p..];
    var n := Find(t, '&');
    forall k | p <= k < p + n && k < |s|
      ensures s[k] != '&'
    {
      assert s[k] == t[k - p];
    }
    PassOver(s, p + 1, p + n + 1, name);
  }

  lemma FoundHere(s: seq<octet>, p: nat, name: seq<octet>)
    requires p + |name| < |s| && Test(s, p, name)
    ensures Found(s, p, name) == Some(UpToAmp(s, p + |name| + 1))
  {
    hide UpToAmp, Test;
  }

  lemma Matched(s: seq<octet>, p: nat, name: seq<octet>)
    requires p + |name| < |s| && Test(s, p, name) && Names(s[p..][..Find(s[p..], '&')], name)
    ensures RawValue(s[p..], name) == Found(s, p, name)
  {
    hide Names, Test, RawValue, Find;
    var t := s[p..];
    SameValue(t, name);
    assert t[|name| + 1..] == s[p + |name| + 1..];
    assert UpToAmp(t, |name| + 1) == UpToAmp(s, p + |name| + 1);
    FoundHere(s, p, name);
  }

  lemma TestAtStart(s: seq<octet>, p: nat, name: seq<octet>)
    requires PlainName(name) && p + |name| < |s| && (p == 0 || s[p - 1] == '&')
    ensures Test(s, p, name) <==> Names(s[p..][..Find(s[p..], '&')], name)
  {
    hide Names, LowerAll;
    var t := s[p..];
    TestIsNames(t, name);
    assert t[|name|] == s[p + |name|] && t[..|name|] == s[p..p + |name|];
  }

  /** At the start of a segment, the loop finds what splitting and looking up finds. */
  lemma {:induction false} FoundIsRawValue(s: seq<octet>, p: nat, name: seq<octet>)
    requires PlainName(name) && p <= |s| && (p == 0 || s[p - 1] == '&')
    ensures Found(s, p, name) == RawValue(s[p..], name)
    decreases |s| - p
  {
    hide Names, UpToAmp, Test, LowerAll, PlainName, Find;
    var t := s[p..];
    var n := Find(t, '&');
    if p + |name| >= |s| {
      ShortHasNone(t, name);
    } else {
      TestAtStart(s, p, name);
      if Test(s, p, name) {
        Matched(s, p, name);
      } else {
        Unmatched(s, p, name);
        if n < |t| {
          assert t[n + 1..] == s[p + n + 1..];
          FoundIsRawValue(s, p + n + 1, name);
        }
      }
    }
  }

  /** How far the first c is from position q, or the end. */
  method Memchr(buf: array<octet>, q: nat, end: nat, c: octet) returns (n: nat)
    requires q <= end <= buf.Length
    ensures n == Find(buf[..end][q..], c)
  {
    n := 0;
    while q + n < end && buf[q + n] != c
      invariant q + n <= end && forall k :: q <= k < q + n ==> buf[k] != c
    {
      n := n + 1;
    }
    FindIs(buf[..end][q..], c, n);
  }

  /** The copy of the value: everything up to the next '&', decoded. */
  method DecodeValue(buf: array<octet>, bufLen: nat, q: nat) returns (value: seq<octet>)
    requires q <= bufLen && Readable(buf[..], q, bufLen)
    ensures var raw := UpToAmp(buf[..bufLen], q);
            Readable(buf[..], q, q + |raw|) && value == Scan(buf[..], q, q + |raw|, true)
  {
    hide Decode, Scan;
    var len := Memchr(buf, q, bufLen, '&');
    var val := new octet[len + 1];
    ghost var mem, end := buf[..], q + len;
    assert end < bufLen ==> buf[..bufLen][q..][len] == '&';
    var n := UrlDecode(buf, q, len, val, 0, len + 1, true);
    value := val[..n];
  }

  /**
   get_var, where the memory for the value is there.  The value is decoded as form data, and decoded
   right unless an escape that the end of the value cuts off goes on after it.
   */
  method GetVar(name: seq<octet>, buf: array<octet>, bufLen: nat) returns (value: Option<seq<octet>>)
    requires NUL !in name && Readable(buf[..], 0, bufLen)
    ensures var s := buf[..bufLen];
            match FoundAt(s, 0, name)
            case None => value.None?
            case Some(q) =>
              var raw := UpToAmp(s, q);
              && value.Some? && Readable(buf[..], q, q + |raw|)
              && (value.value == Decode(raw, true) <==> !Overruns(buf[..], q, q + |raw|))
  {
    hide Decode, UpToAmp, Scan, Overruns, Readable, LowerAll, Head;
    ReadableLater(buf[..], 0, 0, bufLen);
    ghost var s := buf[..bufLen];
    var p := 0;
    while p + |name| < bufLen
      invariant FoundAt(s, 0, name) == FoundAt(s, p, name)
      decreases bufLen - p
    {
      if (p == 0 || buf[p - 1] == '&') && buf[p + |name|] == '=' {
        var diff := MgStrncasecmp(name, buf[p..p + |name|], |name|);
        HeadOfPiece(name, s[p..p + |name|]);
        assert buf[p..p + |name|] == s[p..p + |name|];
        if diff == 0 {
          var q := p + |name| + 1;
          ReadableLater(buf[..], 0, q, bufLen);
          var val := DecodeValue(buf, bufLen, q);
          RawInMemory(buf[..], bufLen, q);
          ScanIsDecode(buf[..], q, q + |UpToAmp(s, q)|, true);
          return Some(val);
        }
      }
      p := p + 1;
    }
    return None;
  }

  lemma RawInMemory(mem: seq<octet>, bufLen: nat, q: nat)
    requires q <= bufLen <= |mem|
    ensures var raw := UpToAmp(mem[..bufLen], q); q + |raw| <= bufLen && mem[q..q + |raw|] == raw
  {
  }

  /** Inside the buffer a value ends at '&', so only one that ends with the buffer can be misread. */
  lemma OnlyLastOverruns(mem: seq<octet>, bufLen: nat, q: nat)
    requires Readable(mem, q, bufLen) && q <= bufLen
    ensures var end := q + |UpToAmp(mem[..bufLen], q)|;
            Readable(mem, q, end) && (Overruns(mem, q, end) ==> end == bufLen)
  {
    var n := Find(mem[..bufLen][q..], '&');
    assert q + n < bufLen ==> mem[..bufLen][q..][n] == '&';
  }

  /** What the search finds is the first variable of that name, in any case. */
  lemma GetVarLooksUp(s: seq<octet>, name: seq<octet>)
    requires PlainName(name)
    ensures Found(s, 0, name) == RawValue(s, name)
  {
    FoundIsRawValue(s, 0, name);
    assert s[0..] == s;
  }

  /** The segments with '&' between them. */
  function Ampersands(segments: seq<seq<octet>>): seq<octet> {
    if segments == [] then [] else if |segments| == 1 then segments[0]
    else segments[0] + (['&'] + Ampersands(segments[1..]))
  }

  /** The segment is the name, in any case, an equals sign, and the value. */
  ghost predicate Assigns(segment: seq<octet>, name: seq<octet>, value: seq<octet>) {
    exists key: seq<octet> :: '=' !in key && LowerAll(key) == LowerAll(name) && segment == key + (['='] + value)
  }

  lemma NamesAssigns(segment: seq<octet>, name: seq<octet>)
    ensures Names(segment, name) ==> Assigns(segment, name, segment[Find(segment, '=') + 1..])
    ensures forall value :: Assigns(segment, name, value) ==>
              Names(segment, name) && value == segment[Find(segment, '=') + 1..]
  {
    hide Find, LowerAll;
    var n := Find(segment, '=');
    if Names(segment, name) {
      assert segment == segment[..n] + (['='] + segment[n + 1..]);
    }
    forall value | Assigns(segment, name, value)
      ensures Names(segment, name) && value == segment[n + 1..]
    {
      var key: seq<octet> :| '=' !in key && LowerAll(key) == LowerAll(name) && segment == key + (['='] + value);
      FindIs(segment, '=', |key|);
      assert segment[..|key|] == key && segment[|key| + 1..] == value;
    }
  }

  lemma FirstSegment(segments: seq<seq<octet>>)
    requires segments != [] && '&' !in segments[0]
    ensures var s := Ampersands(segments);
            && Find(s, '&') == |segments[0]| && s[..|segments[0]|] == segments[0]
            && (|segments| == 1 <==> |segments[0]| == |s|)
            && (|segments| > 1 ==> s[|segments[0]| + 1..] == Ampersands(segments[1..]))
  {
    FindIs(Ampersands(segments), '&', |segments[0]|);
  }

  /** The search of any list of segments, assignments or not, gives the value of the first that assigns the name. */
  lemma FirstAssignment(segments: seq<seq<octet>>, name: seq<octet>)
    requires segments != [] && PlainName(name) && forall i :: 0 <= i < |segments| ==> '&' !in segments[i]
    ensures match Found(Ampersands(segments), 0, name)
            case None => forall i, value :: 0 <= i < |segments| ==> !Assigns(segments[i], name, value)
            case Some(found) =>
              exists i :: 0 <= i < |segments| && Assigns(segments[i], name, found)
                          && forall j, value :: 0 <= j < i ==> !Assigns(segments[j], name, value)
  {
    hide Ampersands, Found, RawValue, Assigns;
    GetVarLooksUp(Ampersands(segments), name);
    FirstRaw(segments, name);
  }

  lemma {:induction false} FirstRaw(segments: seq<seq<octet>>, name: seq<octet>)
    requires segments != [] && forall i :: 0 <= i < |segments| ==> '&' !in segments[i]
    ensures match RawValue(Ampersands(segments), name)
            case None => forall i, value :: 0 <= i < |segments| ==> !Assigns(segments[i], name, value)
            case Some(found) =>
              exists i :: 0 <= i < |segments| && Assigns(segments[i], name, found)
                          && forall j, value :: 0 <= j < i ==> !Assigns(segments[j], name, value)
    decreases |segments|
  {
    hide Ampersands, Assigns, Names, Find;
    var s := Ampersands(segments);
    FirstSegment(segments);
    NamesAssigns(segments[0], name);
    if Names(segments[0], name) {
      assert Assigns(segments[0], name, RawValue(s, name).value);
    } else if |segments| > 1 {
      var more := segments[1..];
      FirstRaw(more, name);
      assert RawValue(s, name) == RawValue(Ampersands(more), name);
      if RawValue(s, name).Some? {
        var i :| 0 <= i < |more| && Assigns(more[i], name, RawValue(s, name).value)
                 && forall j, value :: 0 <= j < i ==> !Assigns(more[j], name, value);
        assert more[i] == segments[i + 1];
        forall j, value | 0 <= j < i + 1
          ensures !Assigns(segments[j], name, value)
        {
          assert j > 0 ==> segments[j] == more[j - 1];
        }
      } else {
        forall j, value | 0 <= j < |segments|
          ensures !Assigns(segments[j], name, value)
        {
          assert j > 0 ==> segments[j] == more[j - 1];
        }
      }
    }
  }

  // Printing a form, and looking a variable up in it.

  datatype Variable = Variable(name: seq<octet>, value: seq<octet>)

  function PrintForm(form: seq<Variable>, literal: set<octet>, upper: bool): seq<octet> {
    if form == [] then [] else
    var first := form[0].name + ['='] + Encode(form[0].value, true, literal, upper);
    if |form| == 1 then first else first + ['&'] + PrintForm(form[1..], literal, upper)
  }

  function FirstValue(form: seq<Variable>, name: seq<octet>): Option<seq<octet>> {
    if form == [] then None
    else if LowerAll(form[0].name) == LowerAll(name) then Some(form[0].value)
    else FirstValue(form[1..], name)
  }

  lemma {:induction false} EncodedHasNoAmp(s: seq<octet>, literal: set<octet>, upper: bool)
    requires '&' !in literal
    ensures '&' !in Encode(s, true, literal, upper)
  {
    if s != [] {
      EncodedHasNoAmp(s[1..], literal, upper);
    }
  }

  lemma SegmentParts(v: Variable, text: seq<octet>, rest: seq<octet>)
    requires PlainName(v.name) && '&' !in text && (rest != [] ==> rest[0] == '&')
    ensures var segment := v.name + ['='] + text;
            && Find(segment + rest, '&') == |segment| && (segment + rest)[..|segment|] == segment
            && Find(segment, '=') == |v.name| && segment[..|v.name|] == v.name && segment[|v.name| + 1..] == text
    ensures rest != [] ==> (v.name + ['='] + text + rest)[|v.name| + 1 + |text| + 1..] == rest[1..]
  {
    var segment := v.name + ['='] + text;
    FindIs(segment + rest, '&', |segment|);
    FindIs(segment, '=', |v.name|);
  }

  lemma SegmentOf(v: Variable, text: seq<octet>, rest: seq<octet>, name: seq<octet>)
    requires PlainName(v.name) && '&' !in text && (rest != [] ==> rest[0] == '&')
    ensures var s := v.name + ['='] + text + rest;
            RawValue(s, name) == if LowerAll(v.name) == LowerAll(name) then Some(text)
                                 else if rest == [] then None else RawValue(rest[1..], name)
  {
    hide Find, LowerAll, PlainName;
    SegmentParts(v, text, rest);
    var segment := v.name + ['='] + text;
    assert Names(segment, name) <==> LowerAll(v.name) == LowerAll(name);
    hide Names;
    assert |segment + rest| == |segment| + |rest|;
  }

  /** Looking a variable up in a printed form gives the encoding of the first value of that name. */
  lemma {:induction false} FormLookUp(form: seq<Variable>, name: seq<octet>, literal: set<octet>, upper: bool)
    requires '&' !in literal && PlainName(name) && forall i :: 0 <= i < |form| ==> PlainName(form[i].name)
    ensures var value := FirstValue(form, name);
            RawValue(PrintForm(form, literal, upper), name) ==
            if value.None? then None else Some(Encode(value.value, true, literal, upper))
    decreases |form|
  {
    if form != [] {
      hide RawValue;
      var v := form[0];
      var text := Encode(v.value, true, literal, upper);
      var more := PrintForm(form[1..], literal, upper);
      EncodedHasNoAmp(v.value, literal, upper);
      if |form| == 1 {
        SegmentOf(v, text, [], name);
        assert v.name + ['='] + text + [] == v.name + ['='] + text;
      } else {
        SegmentOf(v, text, ['&'] + more, name);
        assert v.name + ['='] + text + (['&'] + more) == v.name + ['='] + text + ['&'] + more;
        assert (['&'] + more)[1..] == more;
        FormLookUp(form[1..], name, literal, upper);
      }
    } else {
      ShortHasNone([], name);
    }
  }

  /** No escape is cut off by the end of a text. */
  predicate EndsWhole(e: seq<octet>) {
    (|e| >= 1 ==> e[|e| - 1] != '%') && (|e| >= 2 ==> !(e[|e| - 2] == '%' && IsHex(e[|e| - 1])))
  }

  lemma EndsWholeConcat(a: seq<octet>, b: seq<octet>)
    requires EndsWhole(b) && (|b| == 1 ==> a == [] || a[|a| - 1] != '%') && (b == [] ==> EndsWhole(a))
    ensures EndsWhole(a + b)
  {
  }

  lemma {:induction false} FormEnds(form: seq<Variable>, literal: set<octet>, upper: bool)
    ensures EndsWhole(PrintForm(form, literal, upper))
    decreases |form|
  {
    if form != [] {
      var text := Encode(form[0].value, true, literal, upper);
      var head := form[0].name + ['='];
      EncodeEnds(form[0].value, true, literal, upper);
      EndsWholeConcat(head, text);
      if |form| > 1 {
        FormEnds(form[1..], literal, upper);
        EndsWholeConcat(head + text + ['&'], PrintForm(form[1..], literal, upper));
      }
    }
  }

  lemma PrintedReadable(mem: seq<octet>, bufLen: nat)
    requires bufLen <= |mem| && EndsWhole(mem[..bufLen])
    ensures forall q :: 0 <= q <= bufLen ==> Readable(mem, q, bufLen)
  {
    hide IsHex;
    assert bufLen >= 1 ==> mem[..bufLen][bufLen - 1] == mem[bufLen - 1];
    assert bufLen >= 2 ==> mem[..bufLen][bufLen - 2] == mem[bufLen - 2];
  }

  /**
   get_var undoes the printing of a form whose values are percent-encoded with '&' escaped: it finds
   the first value of that name and decodes it back, whatever bytes come after the form in memory.
   */
  lemma FormRoundTrip(mem: seq<octet>, bufLen: nat, form: seq<Variable>, name: seq<octet>,
                      literal: set<octet>, upper: bool)
    requires '&' !in literal && PlainName(name) && forall i :: 0 <= i < |form| ==> PlainName(form[i].name)
    requires bufLen <= |mem| && mem[..bufLen] == PrintForm(form, literal, upper)
    ensures Readable(mem, 0, bufLen)
    ensures match FirstValue(form, name)
            case None => FoundAt(mem[..bufLen], 0, name).None?
            case Some(value) =>
              var q := FoundAt(mem[..bufLen], 0, name);
              && q.Some?
              && var raw := UpToAmp(mem[..bufLen], q.value);
                 && Readable(mem, q.value, q.value + |raw|) && !Overruns(mem, q.value, q.value + |raw|)
                 && Decode(raw, true) == value
  {
    hide RawValue, FoundAt, UpToAmp, Decode, Encode, Overruns, PrintForm, FirstValue, PlainName, Find, IsHex;
    FormEnds(form, literal, upper);
    PrintedReadable(mem, bufLen);
    FormLookUp(form, name, literal, upper);
    GetVarLooksUp(mem[..bufLen], name);
    var value := FirstValue(form, name);
    if value.Some? {
      var q := FoundAt(mem[..bufLen], 0, name).value;
      RawInMemory(mem, bufLen, q);
      OnlyLastOverruns(mem, bufLen, q);
      DecodeInvertsEncode(value.value, true, literal, upper);
      ScanInvertsEncode(mem, q, q + |UpToAmp(mem[..bufLen], q)|, value.value, true, literal, upper);
    }
  }
}
