/** What becomes of a request's URI: the query is cut off, the rest decoded and cleaned, all in place. */
module Uris {
  import opened Common
  import opened CStrings
  import Paths
  import Urls

  /** The path that a URI asks for; a decoded NUL ends it. */
  function PathOf(uri: seq<octet>): seq<octet> {
    Paths.Clean(UpToNul(Urls.Decode(uri[..Find(uri, '?')], false)))
  }

  /** A string stays where its bytes and its NUL stay. */
  lemma StrStays(before: seq<octet>, after: seq<octet>, p: nat, s: seq<octet>)
    requires IsStr(before, p, s) && |after| == |before| && after[p..p + |s| + 1] == before[p..p + |s| + 1]
    ensures IsStr(after, p, s)
  {
    hide IsStr;
    StrIsSlice(before, p, s);
    var a, b := before[p..p + |s| + 1], after[p..p + |s| + 1];
    assert after[p..p + |s|] == b[..|s|] && before[p..p + |s|] == a[..|s|];
    assert after[p + |s|] == b[|s|] && before[p + |s|] == a[|s|];
    SliceIsStr(after, p, s);
  }

  /** The path and the query once a NUL stands for the question mark. */
  lemma CutAtMark(before: seq<octet>, after: seq<octet>, p: nat, text: seq<octet>)
    requires IsStr(before, p, text) && p + |text| < |before|
    requires after == before[p + Find(text, '?') := NUL]
    ensures var n := Find(text, '?');
            && IsStr(after, p, text[..n])
            && (n < |text| ==> IsStr(after, p + n + 1, text[n + 1..]))
  {
    hide IsStr, Find;
    var n := Find(text, '?');
    StrIsSlice(before, p, text);
    assert after[p..p + n] == before[p..p + |text|][..n];
    SliceIsStr(after, p, text[..n]);
    if n < |text| {
      StrTail(before, p, text, n + 1);
      StrStays(before, after, p + n + 1, text[n + 1..]);
    }
  }

  /** A decoded text with its NUL, read as a string. */
  lemma DecodedString(mem: seq<octet>, p: nat, s: seq<octet>)
    requires p + |s| < |mem| && mem[p..p + |s|] == s && mem[p + |s|] == NUL
    ensures IsStr(mem, p, UpToNul(s))
  {
    hide IsStr, UpToNul;
    StringStart(mem, p, s, UpToNul(s));
  }

  lemma StringStart(mem: seq<octet>, p: nat, s: seq<octet>, t: seq<octet>)
    requires p + |s| < |mem| && mem[p..p + |s|] == s && mem[p + |s|] == NUL
    requires |t| <= |s| && t == s[..|t|] && NUL !in t && (|t| < |s| ==> s[|t|] == NUL)
    ensures IsStr(mem, p, t)
  {
    hide IsStr;
    SliceStart(mem, p, s, |t|);
    SliceIsStr(mem, p, t);
  }

  lemma SliceStart(mem: seq<octet>, p: nat, s: seq<octet>, n: nat)
    requires p + |s| < |mem| && mem[p..p + |s|] == s && n <= |s|
    ensures mem[p..p + n] == s[..n] && (n < |s| ==> mem[p + n] == s[n])
  {
    assert mem[p..p + |s|][..n] == mem[p..p + n];
  }

  /** strchr for the question mark. */
  method FindMark(buf: array<octet>, p: nat, ghost text: seq<octet>) returns (n: nat)
    requires IsStr(buf[..], p, text)
    ensures n == Find(text, '?')
  {
    n := 0;
    while buf[p + n] != NUL && buf[p + n] != '?'
      invariant n <= |text| && forall i :: 0 <= i < n ==> text[i] != '?'
      decreases |text| - n
    {
      assert n < |text| ==> buf[..][p + n] == text[n];
      n := n + 1;
    }
    assert n < |text| ==> buf[..][p + n] == text[n];
    FindIs(text, '?', n);
  }

  /** The decoding in place; the NUL after the path keeps it from running over. */
  method DecodeInPlace(buf: array<octet>, p: nat, n: nat, ghost path: seq<octet>)
    requires IsStr(buf[..], p, path) && n == |path|
    modifies buf
    ensures IsStr(buf[..], p, UpToNul(Urls.Decode(path, false)))
    ensures forall i :: 0 <= i < buf.Length && !(p <= i <= p + n) ==> buf[i] == old(buf[i])
  {
    hide IsStr, UpToNul, Urls.Decode, Urls.Scan, Urls.Overruns;
    ghost var before := buf[..];
    EndIsNul(before, p, path);
    Urls.ScanIsDecode(before, p, p + n, false);
    var j := Urls.UrlDecode(buf, p, n, buf, p, n + 1, false);
    ghost var decoded := Urls.Decode(path, false);
    assert decoded[..|decoded|] == decoded;
    assert buf[..][p..p + j] == buf[p..p + j] == decoded;
    DecodedString(buf[..], p, decoded);
  }

  lemma EndIsNul(mem: seq<octet>, p: nat, path: seq<octet>)
    requires IsStr(mem, p, path)
    ensures p + |path| < |mem| && mem[p..p + |path|] == path
    ensures Urls.Readable(mem, p, p + |path|) && !Urls.Overruns(mem, p, p + |path|)
  {
    StrIsSlice(mem, p, path);
  }

  /**
   The start of analyze_request: the URI in the buffer becomes the path it asks for, which never goes
   up, and the query, if there is one, is left as it was.
   */
  method TakeUri(buf: array<octet>, uri: nat, ghost text: seq<octet>) returns (query: Option<nat>)
    requires IsStr(buf[..], uri, text)
    modifies buf
    ensures IsStr(buf[..], uri, PathOf(text)) && Paths.NoDotDot(PathOf(text))
    ensures query.Some? <==> '?' in text
    ensures query.Some? ==> IsStr(buf[..], query.value, text[Find(text, '?') + 1..])
    ensures forall i :: 0 <= i < buf.Length && !(uri <= i <= uri + |text|) ==> buf[i] == old(buf[i])
  {
    hide Urls.Decode, Paths.Clean, Paths.NoDotDot, IsStr, UpToNul, Find;
    ghost var before := buf[..];
    StrIsSlice(before, uri, text);
    var n := FindMark(buf, uri, text);
    CutAtMark(before, before[uri + n := NUL], uri, text);
    query := None;
    if buf[uri + n] == '?' {
      query := Some(uri + n + 1);
      buf[uri + n] := NUL;
    }
    ghost var cut, path := buf[..], text[..n];
    assert cut == before[uri + n := NUL];
    DecodeInPlace(buf, uri, n, path);
    ghost var decoded := UpToNul(Urls.Decode(path, false));
    Paths.RemoveDoubleDotsAndDoubleSlashes(buf, uri, decoded);
    Paths.CleanHasNoDotDot(decoded);
    if query.Some? {
      StrIsSlice(cut, uri + n + 1, text[n + 1..]);
      StrStays(cut, buf[..], uri + n + 1, text[n + 1..]);
    }
  }

  /** Every percent-encoding of a path asks for that path cleaned, with any query; a NUL in it ends it. */
  lemma EncodedPath(path: seq<octet>, query: seq<octet>, literal: set<octet>, upper: bool)
    requires '?' !in literal
    ensures PathOf(Urls.Encode(path, false, literal, upper)) == Paths.Clean(UpToNul(path))
    ensures PathOf(Urls.Encode(path, false, literal, upper) + ['?'] + query) == Paths.Clean(UpToNul(path))
  {
    hide Paths.Clean, Urls.Decode, Urls.Encode, UpToNul;
    var e := Urls.Encode(path, false, literal, upper);
    EncodedHasNoMark(path, literal, upper);
    FindIs(e, '?', |e|);
    FindIs(e + ['?'] + query, '?', |e|);
    assert e[..|e|] == e && (e + ['?'] + query)[..|e|] == e;
    Urls.DecodeInvertsEncode(path, false, literal, upper);
  }

  /** A path with nothing to remove is asked for by each of its percent-encodings, with any query. */
  lemma PathRoundTrip(path: seq<octet>, query: seq<octet>, literal: set<octet>, upper: bool)
    requires NUL !in path && !Paths.DoubleSlash(path) && Paths.NoDotDot(path) && '?' !in literal
    ensures PathOf(Urls.Encode(path, false, literal, upper)) == path
    ensures PathOf(Urls.Encode(path, false, literal, upper) + ['?'] + query) == path
  {
    hide PathOf, Paths.Clean, Urls.Encode, Paths.DoubleSlash, Paths.NoDotDot;
    EncodedPath(path, query, literal, upper);
    NoNulInside(path);
    Paths.CleanKeeps(path);
  }

  lemma {:induction false} EncodedHasNoMark(s: seq<octet>, literal: set<octet>, upper: bool)
    requires '?' !in literal
    ensures '?' !in Urls.Encode(s, false, literal, upper)
  {
    if s != [] {
      EncodedHasNoMark(s[1..], literal, upper);
    }
  }
}
