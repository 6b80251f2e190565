/**
 Finding the end of a request in the bytes read so far, and reading until it is there.  The peer's
 bytes arrive in pieces of any size.
 */
module Framing {
  import opened Common

  /** Bytes allowed before the end of a request: printable, CR, LF, or 128 and above. */
  predicate Permitted(c: octet) {
    ' ' <= c <= '~' || c == '\r' || c == '\n' || 128 <= c as int
  }

  /** The length of the blank-line mark that starts at i, zero if none does. */
  function MarkLength(buf: seq<octet>, i: nat): nat {
    if i + 1 < |buf| && buf[i] == '\n' && buf[i + 1] == '\n' then 2
    else if i + 2 < |buf| && buf[i] == '\n' && buf[i + 1] == '\r' && buf[i + 2] == '\n' then 3
    else 0
  }

  /** Where the first mark from position i on ends, zero if there is none. */
  function FirstEnd(buf: seq<octet>, i: nat): nat
    decreases |buf| - i
  {
    if i >= |buf| then 0
    else if MarkLength(buf, i) > 0 then i + MarkLength(buf, i)
    else FirstEnd(buf, i + 1)
  }

  /** Some byte but the last is not permitted. */
  ghost predicate Tainted(buf: seq<octet>) {
    exists k :: 0 <= k < |buf| - 1 && !Permitted(buf[k])
  }

  ghost function RequestLen(buf: seq<octet>): int {
    if FirstEnd(buf, 0) > 0 then FirstEnd(buf, 0) else if Tainted(buf) then -1 else 0
  }

  lemma {:induction false} FirstEndIsFirst(buf: seq<octet>, i: nat)
    ensures var r := FirstEnd(buf, i);
            if r == 0 then forall k :: i <= k ==> MarkLength(buf, k) == 0
            else exists k :: i <= k < |buf| && MarkLength(buf, k) > 0 && r == k + MarkLength(buf, k)
                             && forall j :: i <= j < k ==> MarkLength(buf, j) == 0
    decreases |buf| - i
  {
    if i < |buf| && MarkLength(buf, i) == 0 {
      FirstEndIsFirst(buf, i + 1);
      var r := FirstEnd(buf, i + 1);
      if r > 0 {
        var k :| i + 1 <= k < |buf| && MarkLength(buf, k) > 0 && r == k + MarkLength(buf, k)
                 && forall j :: i + 1 <= j < k ==> MarkLength(buf, j) == 0;
        assert forall j :: i <= j < k ==> MarkLength(buf, j) == 0;
      }
    }
  }

  /** A blank line of n bytes starts at k. */
  ghost predicate BlankLineAt(buf: seq<octet>, k: nat, n: nat) {
    k <= |buf| && ((n == 2 && ['\n', '\n'] <= buf[k..]) || (n == 3 && ['\n', '\r', '\n'] <= buf[k..]))
  }

  lemma MarkIsBlankLine(buf: seq<octet>, k: nat, n: nat)
    ensures BlankLineAt(buf, k, n) <==> n > 0 && n == MarkLength(buf, k)
  {
    if k <= |buf| {
      assert forall i :: 0 <= i < |buf| - k ==> buf[k..][i] == buf[k + i];
    }
  }

  /** No control byte but the two of line ends. */
  predicate Forbidden(c: octet) {
    (c as int < 32 && c as int != 10 && c as int != 13) || c as int == 127
  }

  /** The length up to the first blank line; without one, -1 for a forbidden byte before the last, else 0. */
  lemma RequestLenMeans(buf: seq<octet>)
    ensures var len := RequestLen(buf);
            if exists k: nat, n: nat :: BlankLineAt(buf, k, n) then
              exists k: nat, n: nat :: BlankLineAt(buf, k, n) && len == k + n
                                       && forall j: nat, m: nat :: j < k ==> !BlankLineAt(buf, j, m)
            else if exists i :: 0 <= i < |buf| - 1 && Forbidden(buf[i]) then len == -1
            else len == 0
  {
    FirstEndIsFirst(buf, 0);
    forall k: nat, n: nat
      ensures BlankLineAt(buf, k, n) <==> n > 0 && n == MarkLength(buf, k)
    {
      MarkIsBlankLine(buf, k, n);
    }
    assert forall i :: 0 <= i < |buf| - 1 ==> Forbidden(buf[i]) == !Permitted(buf[i]);
    hide BlankLineAt, MarkLength, Forbidden, Permitted;
    if FirstEnd(buf, 0) > 0 {
      var k :| 0 <= k < |buf| && MarkLength(buf, k) > 0 && FirstEnd(buf, 0) == k + MarkLength(buf, k)
               && forall j :: 0 <= j < k ==> MarkLength(buf, j) == 0;
      var n := MarkLength(buf, k);
      assert BlankLineAt(buf, k, n) && RequestLen(buf) == k + n;
      assert forall j: nat, m: nat :: j < k ==> !BlankLineAt(buf, j, m);
    }
  }

  method GetRequestLen(buf: seq<octet>) returns (len: int)
    ensures len == RequestLen(buf)
  {
    len := 0;
    var s := 0;
    while len <= 0 && s < |buf| - 1
      invariant 0 <= s && (s <= |buf| - 1 || s == 0)
      invariant len <= 0 ==> FirstEnd(buf, 0) == FirstEnd(buf, s)
      invariant len <= 0 ==> len == if exists k :: 0 <= k < s && !Permitted(buf[k]) then -1 else 0
      invariant len > 0 ==> len == FirstEnd(buf, 0)
      decreases |buf| - s
    {
      if !Permitted(buf[s]) {
        len := -1;
      } else if buf[s] == '\n' && buf[s + 1] == '\n' {
        len := s + 2;
      } else if buf[s] == '\n' && s + 1 < |buf| - 1 && buf[s + 1] == '\r' && buf[s + 2] == '\n' {
        len := s + 3;
      }
      s := s + 1;
    }
    if len <= 0 && s < |buf| {
      assert FirstEnd(buf, s + 1) == 0;
    }
  }

  /** More bytes do not move the end of a request. */
  lemma {:induction false} FirstEndStable(buf: seq<octet>, more: seq<octet>, i: nat)
    ensures FirstEnd(buf, i) > 0 ==> FirstEnd(buf + more, i) == FirstEnd(buf, i)
    decreases |buf| - i
  {
    if i < |buf| && FirstEnd(buf, i) > 0 {
      assert MarkLength(buf, i) > 0 ==> MarkLength(buf + more, i) == MarkLength(buf, i);
      if MarkLength(buf, i) == 0 {
        FirstEndStable(buf, more, i + 1);
        LateMark(buf, more, i);
      }
    }
  }

  /** A mark that the end of the bytes cuts off is not the first one if a whole one follows. */
  lemma LateMark(buf: seq<octet>, more: seq<octet>, i: nat)
    requires i < |buf| && MarkLength(buf, i) == 0 && FirstEnd(buf, i + 1) > 0
    ensures MarkLength(buf + more, i) == 0
  {
    FirstEndIsFirst(buf, i + 1);
  }

  lemma EndInside(buf: seq<octet>, n: nat)
    requires n <= |buf|
    ensures FirstEnd(buf, 0) <= |buf|
    ensures 0 < FirstEnd(buf, 0) <= n ==> FirstEnd(buf[..n], 0) == FirstEnd(buf, 0)
    ensures FirstEnd(buf[..n], 0) > 0 ==> FirstEnd(buf, 0) == FirstEnd(buf[..n], 0)
  {
    FirstEndIsFirst(buf, 0);
    FirstEndIsFirst(buf[..n], 0);
    FirstEndStable(buf[..n], buf[n..], 0);
    assert buf == buf[..n] + buf[n..];
    if 0 < FirstEnd(buf, 0) <= n {
      var k :| 0 <= k < |buf| && MarkLength(buf, k) > 0 && FirstEnd(buf, 0) == k + MarkLength(buf, k);
      assert MarkLength(buf[..n], k) > 0;
    }
  }

  lemma LengthFits(buf: seq<octet>)
    ensures RequestLen(buf) <= |buf|
  {
    EndInside(buf, |buf|);
  }

  // The peer, and reading from it.

  /** The bytes still to come and how large the pieces are; the last piece is all that is left. */
  class Peer {
    var incoming: seq<octet>
    var sizes: seq<nat>

    constructor (incoming: seq<octet>, sizes: seq<nat>)
      ensures this.incoming == incoming && this.sizes == sizes
    {
      this.incoming, this.sizes := incoming, sizes;
    }

    /** At most max of the next bytes; none only at the end of the stream. */
    method Pull(max: nat) returns (chunk: seq<octet>)
      requires max > 0
      modifies this
      ensures var n := PieceSize(old(sizes), if |old(incoming)| < max then |old(incoming)| else max);
              chunk == old(incoming)[..n] && incoming == old(incoming)[n..]
      ensures sizes == Later(old(sizes))
    {
      var n := PieceSize(sizes, if |incoming| < max then |incoming| else max);
      chunk := incoming[..n];
      incoming, sizes := incoming[n..], Later(sizes);
    }
  }

  /** The size of the next piece when so many bytes are there and wanted. */
  function PieceSize(sizes: seq<nat>, available: nat): (n: nat)
    ensures n <= available && (n == 0 <==> available == 0)
  {
    if sizes == [] || sizes[0] >= available then available
    else if sizes[0] == 0 then 1
    else sizes[0]
  }

  function Later(sizes: seq<nat>): seq<nat> {
    if sizes == [] then [] else sizes[1..]
  }

  /** What read_request returns when the bytes of window arrive in pieces, have of them already there. */
  ghost function ReadOutcome(window: seq<octet>, have: nat, sizes: seq<nat>): int
    requires have <= |window|
    decreases |window| - have
  {
    if have == |window| then 0 else
    var n := PieceSize(sizes, |window| - have);
    var len := RequestLen(window[..have + n]);
    if len != 0 then len else ReadOutcome(window, have + n, Later(sizes))
  }

  /** Pull's copy into the free part of the buffer. */
  method Append(buf: array<octet>, at: nat, chunk: seq<octet>)
    requires at + |chunk| <= buf.Length
    modifies buf
    ensures buf[..at + |chunk|] == old(buf[..at]) + chunk
  {
    forall i | 0 <= i < |chunk| {
      buf[at + i] := chunk[i];
    }
  }

  method ReadRequest(peer: Peer, buf: array<octet>, start: nat) returns (len: int, nread: nat)
    requires start <= buf.Length
    modifies peer, buf
    ensures len <= nread <= buf.Length && buf[..nread] + peer.incoming == old(buf[..start] + peer.incoming)
    ensures var stream := old(buf[..start] + peer.incoming);
            var window := stream[..if |stream| < buf.Length then |stream| else buf.Length];
            len == ReadOutcome(window, start, old(peer.sizes))
  {
    hide RequestLen, PieceSize;
    ghost var stream := buf[..start] + peer.incoming;
    ghost var window := stream[..if |stream| < buf.Length then |stream| else buf.Length];
    len, nread := 0, start;
    while nread < buf.Length && len == 0
      invariant len <= nread <= |window|
      invariant buf[..nread] == window[..nread] && buf[..nread] + peer.incoming == stream
      invariant ReadOutcome(window, start, old(peer.sizes)) ==
                if len != 0 then len else ReadOutcome(window, nread, peer.sizes)
      decreases buf.Length - nread, len == 0
    {
      var chunk := peer.Pull(buf.Length - nread);
      if chunk == [] {
        break;
      }
      Append(buf, nread, chunk);
      nread := nread + |chunk|;
      assert buf[..nread] == stream[..nread] == window[..nread];
      len := GetRequestLen(buf[..nread]);
      LengthFits(buf[..nread]);
    }
  }

  // How the pieces matter.

  /** Every byte before the end of the request is permitted, if it ends at all. */
  ghost predicate CleanToEnd(window: seq<octet>) {
    forall k :: 0 <= k < FirstEnd(window, 0) && k < |window| ==> Permitted(window[k])
  }

  /** A clean window gives the same answer however it arrives: that of the whole window. */
  lemma {:induction false} CleanOutcome(window: seq<octet>, have: nat, sizes: seq<nat>)
    requires have <= |window| && CleanToEnd(window) && RequestLen(window[..have]) == 0
    ensures ReadOutcome(window, have, sizes) == RequestLen(window)
    decreases |window| - have
  {
    assert window[..|window|] == window;
    if have < |window| {
      var n := PieceSize(sizes, |window| - have);
      var p := window[..have + n];
      EndInside(window, have + n);
      if RequestLen(p) == 0 {
        CleanOutcome(window, have + n, Later(sizes));
      } else if RequestLen(p) < 0 {
        var k :| 0 <= k < |p| - 1 && !Permitted(p[k]);
        assert !Permitted(window[k]);
      }
    }
  }

  lemma ForbiddenBeforeMark(window: seq<octet>, k: nat)
    requires k < FirstEnd(window, 0) && k < |window| && !Permitted(window[k])
    ensures k + 2 < FirstEnd(window, 0) <= |window|
  {
    FirstEndIsFirst(window, 0);
  }

  /** One piece: the whole request is there at once, forbidden bytes or not. */
  lemma WholeOutcome(window: seq<octet>)
    requires 0 < FirstEnd(window, 0)
    ensures ReadOutcome(window, 0, []) == FirstEnd(window, 0)
  {
    EndInside(window, |window|);
    assert window[..|window|] == window;
  }

  /** A forbidden byte before the end: read up to just past it, the request looks malformed. */
  lemma CutOutcome(window: seq<octet>, k: nat)
    requires k + 2 < FirstEnd(window, 0) <= |window| && !Permitted(window[k])
    ensures ReadOutcome(window, 0, [k + 2]) == -1
  {
    var p := window[..k + 2];
    EndInside(window, k + 2);
    EndInside(p, k + 2);
    assert p[k] == window[k];
    assert RequestLen(p) == -1;
    assert PieceSize([k + 2], |window|) == k + 2;
  }

  /**
   For bytes arriving in pieces of any sizes, the answer of read_request is always the same exactly
   when no forbidden byte comes before the end of the request.
   */
  lemma PiecesDoNotMatter(window: seq<octet>)
    ensures (forall a, b :: ReadOutcome(window, 0, a) == ReadOutcome(window, 0, b)) <==> CleanToEnd(window)
    ensures CleanToEnd(window) ==> forall a :: ReadOutcome(window, 0, a) == RequestLen(window)
  {
    if CleanToEnd(window) {
      forall a
        ensures ReadOutcome(window, 0, a) == RequestLen(window)
      {
        CleanOutcome(window, 0, a);
      }
    } else {
      var k :| 0 <= k < FirstEnd(window, 0) && k < |window| && !Permitted(window[k]);
      ForbiddenBeforeMark(window, k);
      WholeOutcome(window);
      CutOutcome(window, k);
    }
  }

  /** A control byte and two line feeds: read at once a request of three bytes, cut after two malformed. */
  lemma PiecesExample()
    ensures var window: seq<octet> := ['\U{1}', '\n', '\n'];
            ReadOutcome(window, 0, []) == 3 && ReadOutcome(window, 0, [2]) == -1
  {
    var window: seq<octet> := ['\U{1}', '\n', '\n'];
    assert MarkLength(window, 0) == 0 && MarkLength(window, 1) == 2;
    assert FirstEnd(window, 0) == 3;
    WholeOutcome(window);
    CutOutcome(window, 0);
  }
}
