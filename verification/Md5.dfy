/**
 The streaming MD5 engine: a context rewritten in place, a sixty-four-byte carry-over buffer, a bit
 counter in two 32-bit words with a manual carry, and one or two blocks of padding.
 */
module Md5 {
  import opened Rfc1321
  import opened Md5Rounds
  import opened Common
  import Urls

  type uint32 = n: nat | n < 0x1_0000_0000

  /** Byte order of the host that runs the code. */
  datatype Host = LittleEndian | BigEndian

  function Swap(b: seq<byte>): (r: seq<byte>)
    requires |b| == 4
    ensures |r| == 4
  {
    [b[3], b[2], b[1], b[0]]
  }

  /** The word the host reads from four bytes of memory. */
  function NativeLoad(host: Host, b: seq<byte>): word
    requires |b| == 4
  {
    if host.LittleEndian? then Load(b) else Load(Swap(b))
  }

  /** The four bytes of memory a word takes on the host. */
  function NativeStore(host: Host, w: word): (b: seq<byte>)
    ensures |b| == 4
  {
    if host.LittleEndian? then Store(w) else Swap(Store(w))
  }

  /** The first byte is the lowest of a word on one kind of host and the highest on the other. */
  lemma NativeOrders(a: byte, b: byte, c: byte, d: byte)
    ensures NativeLoad(LittleEndian, [a, b, c, d]) ==
            (a as word) | ((b as word) << 8) | ((c as word) << 16) | ((d as word) << 24)
    ensures NativeLoad(BigEndian, [a, b, c, d]) ==
            (d as word) | ((c as word) << 8) | ((b as word) << 16) | ((a as word) << 24)
  {
  }

  lemma LoadStoreBits(w: word)
    ensures ((w & 0xff) as byte as word) | (((w >> 8) & 0xff) as byte as word << 8)
            | (((w >> 16) & 0xff) as byte as word << 16) | (((w >> 24) & 0xff) as byte as word << 24) == w
  {
  }

  lemma LoadStore(w: word)
    ensures Load(Store(w)) == w
  {
    LoadStoreBits(w);
  }

  lemma StoreLoad(b: seq<byte>)
    requires |b| == 4
    ensures Store(Load(b)) == b
  {
  }

  lemma NativeRoundTrip(host: Host, w: word)
    ensures NativeLoad(host, NativeStore(host, w)) == w
  {
    LoadStore(w);
    assert Swap(Swap(Store(w))) == Store(w);
  }

  lemma NativeReadBack(host: Host, b: seq<byte>)
    requires |b| == 4
    ensures NativeStore(host, NativeLoad(host, b)) == b
  {
    StoreLoad(b);
    StoreLoad(Swap(b));
    assert Swap(Swap(b)) == b;
  }

  /** The byte swap in the middle of byteReverse reads four bytes low-order first. */
  lemma SwapExpression(b: seq<byte>)
    requires |b| == 4
    ensures ((((b[3] as word) << 8) | (b[2] as word)) << 16) | (((b[1] as word) << 8) | (b[0] as word)) == Load(b)
  {
  }

  /** Reading the first longs native words of after gives the little-endian words of before. */
  ghost predicate Reversed(host: Host, before: seq<byte>, after: seq<byte>, longs: nat) {
    && |after| == |before| && 4 * longs <= |before|
    && (forall k :: 0 <= k < longs ==> NativeLoad(host, after[4 * k..4 * k + 4]) == Load(before[4 * k..4 * k + 4]))
    && forall i :: 4 * longs <= i < |before| ==> after[i] == before[i]
  }

  lemma ReversedWords(host: Host, before: seq<byte>, after: seq<byte>)
    requires |before| == 64 && Reversed(host, before, after, 16)
    ensures NativeWords(host, after) == Words(before)
  {
    hide Load, NativeLoad;
  }

  /** One turn of the loop of byteReverse, on the four bytes at p. */
  method ReverseWord(host: Host, buf: array<byte>, p: nat)
    requires p + 4 <= buf.Length
    modifies buf
    ensures NativeLoad(host, buf[p..p + 4]) == Load(old(buf[p..p + 4]))
    ensures forall i :: 0 <= i < buf.Length && !(p <= i < p + 4) ==> buf[i] == old(buf[i])
  {
    hide Load, Store, Swap, NativeLoad, NativeStore;
    ghost var before := buf[p..p + 4];
    var t := ((((buf[p + 3] as word) << 8) | (buf[p + 2] as word)) << 16)
             | (((buf[p + 1] as word) << 8) | (buf[p] as word));
    SwapExpression(before);
    var native := NativeStore(host, t);
    NativeRoundTrip(host, t);
    buf[p], buf[p + 1], buf[p + 2], buf[p + 3] := native[0], native[1], native[2], native[3];
    assert buf[p..p + 4] == native;
  }

  lemma ReversedExtends(host: Host, before: seq<byte>, mid: seq<byte>, after: seq<byte>, done: nat)
    requires 4 * done + 4 <= |mid| == |after| && Reversed(host, before, mid, done)
    requires NativeLoad(host, after[4 * done..4 * done + 4]) == Load(mid[4 * done..4 * done + 4])
    requires forall i :: 0 <= i < |mid| && !(4 * done <= i < 4 * done + 4) ==> after[i] == mid[i]
    ensures Reversed(host, before, after, done + 1)
  {
    hide Load, NativeLoad;
    assert mid[4 * done..4 * done + 4] == before[4 * done..4 * done + 4];
    forall k | 0 <= k < done
      ensures NativeLoad(host, after[4 * k..4 * k + 4]) == Load(before[4 * k..4 * k + 4])
    {
      assert after[4 * k..4 * k + 4] == mid[4 * k..4 * k + 4];
    }
  }

  /**
   Makes the first 4 * longs bytes readable as native words.  On a little-endian host the source
   compiles this to nothing.
   */
  method ByteReverse(host: Host, buf: array<byte>, longs: nat)
    requires 1 <= longs && 4 * longs <= buf.Length
    modifies buf
    ensures Reversed(host, old(buf[..]), buf[..], longs)
  {
    if host.LittleEndian? { return; }
    hide Load, NativeLoad;
    ghost var before := buf[..];
    var done := 0;
    while done < longs
      invariant done <= longs && Reversed(host, before, buf[..], done)
    {
      ghost var mid := buf[..];
      ReverseWord(host, buf, 4 * done);
      assert buf[..][4 * done..4 * done + 4] == buf[4 * done..4 * done + 4];
      ReversedExtends(host, before, mid, buf[..], done);
      done := done + 1;
    }
  }

  function NativeWords(host: Host, block: seq<byte>): (x: seq<word>)
    requires |block| == 64
    ensures |x| == 16
  {
    seq(16, j requires 0 <= j < 16 => NativeLoad(host, block[4 * j..4 * j + 4]))
  }

  lemma CarryOut(lo: uint32, low: uint32)
    ensures var sum := (lo + low) % 0x1_0000_0000;
            lo + low == sum + (if sum < lo then 0x1_0000_0000 else 0)
  {
  }

  lemma CarryIn(hi: uint32, carry: bool, high: nat)
    requires high < 0x1_0000_0000
    ensures ((if carry then (hi + 1) % 0x1_0000_0000 else hi) + high) % 0x1_0000_0000
            == (hi + (if carry then 1 else 0) + high) % 0x1_0000_0000
  {
  }

  /** A number below 2^64 is the remainder of anything it differs from by a multiple of 2^64. */
  lemma Remainder(x: int, q: int, r: nat)
    requires x == 0x1_0000_0000_0000_0000 * q + r && r < 0x1_0000_0000_0000_0000
    ensures x % 0x1_0000_0000_0000_0000 == r
  {
  }

  /** The two counter words after adding a length, with the carry the code works out by hand. */
  lemma CounterAdvances(lo: uint32, hi: uint32, total: nat, len: uint32)
    requires lo + 0x1_0000_0000 * hi == 8 * total % 0x1_0000_0000_0000_0000
    ensures var lo' := (lo + 8 * len % 0x1_0000_0000) % 0x1_0000_0000;
            var carried := if lo' < lo then (hi + 1) % 0x1_0000_0000 else hi;
            var hi' := (carried + len / 0x2000_0000) % 0x1_0000_0000;
            lo' + 0x1_0000_0000 * hi' == 8 * (total + len) % 0x1_0000_0000_0000_0000
  {
    var low, high := 8 * len % 0x1_0000_0000, len / 0x2000_0000;
    assert 8 * len == low + 0x1_0000_0000 * high;
    CarryOut(lo, low);
    var lo' := (lo + low) % 0x1_0000_0000;
    CarryIn(hi, lo' < lo, high);
    var sum := hi + (if lo' < lo then 1 else 0) + high;
    var hi', k := sum % 0x1_0000_0000, sum / 0x1_0000_0000;
    var q := 8 * total / 0x1_0000_0000_0000_0000;
    Remainder(8 * (total + len), q + k, lo' + 0x1_0000_0000 * hi');
  }

  lemma EighthOf(lo: nat, total: nat, k: int)
    requires 8 * total == lo + 512 * k
    ensures lo / 8 % 64 == total % 64
  {
    assert lo / 8 == total - 64 * k;
  }

  lemma TailFromCounter(lo: uint32, hi: uint32, total: nat)
    requires lo + 0x1_0000_0000 * hi == 8 * total % 0x1_0000_0000_0000_0000
    ensures lo / 8 % 64 == total % 64
  {
    var q := 8 * total / 0x1_0000_0000_0000_0000;
    assert 8 * total == lo + 0x1_0000_0000 * hi + 0x1_0000_0000_0000_0000 * q;
    var k := 0x80_0000 * (hi + 0x1_0000_0000 * q);
    EighthOf(lo, total, k);
  }

  lemma {:induction false} FoldExtends(n: nat, m: seq<byte>, more: seq<byte>)
    requires 64 * n <= |m|
    ensures Fold(n, m + more) == Fold(n, m)
  {
    hide Compress, Words;
    if n > 0 {
      FoldExtends(n - 1, m, more);
      assert (m + more)[64 * n - 64..64 * n] == m[64 * n - 64..64 * n];
    }
  }

  lemma OutputWord(host: Host, b: seq<byte>, w: word)
    requires |b| == 4 && NativeLoad(host, b) == Load(NativeStore(host, w))
    ensures b == Store(w)
  {
    StoreLoad(b);
    StoreLoad(Swap(b));
    LoadStore(w);
    StoreLoad(Swap(Store(w)));
  }

  /** The last block: fourteen reversed words, then two words stored as the host stores them. */
  lemma LastWords(host: Host, read: seq<byte>, reversed: seq<byte>, memory: seq<byte>, block: seq<byte>,
                  lo: word, hi: word)
    requires |read| == |memory| == |block| == 64 && Reversed(host, read, reversed, 14)
    requires forall i :: 0 <= i < 56 ==> read[i] == block[i] && memory[i] == reversed[i]
    requires memory[56..60] == NativeStore(host, lo) && memory[60..64] == NativeStore(host, hi)
    requires block[56..60] == Store(lo) && block[60..64] == Store(hi)
    ensures NativeWords(host, memory) == Words(block)
  {
    hide Load, Store, NativeLoad, NativeStore;
    forall j | 0 <= j < 14
      ensures NativeLoad(host, memory[4 * j..4 * j + 4]) == Load(block[4 * j..4 * j + 4])
    {
      assert memory[4 * j..4 * j + 4] == reversed[4 * j..4 * j + 4];
      assert read[4 * j..4 * j + 4] == block[4 * j..4 * j + 4];
    }
    NativeRoundTrip(host, lo);
    NativeRoundTrip(host, hi);
    LoadStore(lo);
    LoadStore(hi);
  }

  /** The bytes in memory of a sequence of words. */
  function NativeBytes(host: Host, words: seq<word>): (b: seq<byte>)
    ensures |b| == 4 * |words|
  {
    seq(4 * |words|, i requires 0 <= i < 4 * |words| => NativeStore(host, words[i / 4])[i % 4])
  }

  lemma NativeBytesAt(host: Host, words: seq<word>, k: nat)
    requires k < |words|
    ensures NativeBytes(host, words)[4 * k..4 * k + 4] == NativeStore(host, words[k])
  {
    hide Load, Store, Swap, NativeStore;
  }

  lemma OutputWordAt(host: Host, words: seq<word>, bytes: seq<byte>, k: nat)
    requires |words| == 4 && Reversed(host, NativeBytes(host, words), bytes, 4) && k < 4
    ensures |bytes| == 16 && bytes[4 * k..4 * k + 4] == Store(words[k])
  {
    hide Load, Store, NativeLoad, NativeStore, NativeBytes;
    NativeBytesAt(host, words, k);
    OutputWord(host, bytes[4 * k..4 * k + 4], words[k]);
  }

  /** Reversing the bytes of four words leaves them low-order first, on either host. */
  lemma OutputBytes(host: Host, words: seq<word>, bytes: seq<byte>)
    requires |words| == 4 && Reversed(host, NativeBytes(host, words), bytes, 4)
    ensures bytes == Store(words[0]) + Store(words[1]) + Store(words[2]) + Store(words[3])
  {
    hide *;
    OutputWordAt(host, words, bytes, 0);
    OutputWordAt(host, words, bytes, 1);
    OutputWordAt(host, words, bytes, 2);
    OutputWordAt(host, words, bytes, 3);
    assert bytes == bytes[0..4] + bytes[4..8] + bytes[8..12] + bytes[12..16];
  }

  /** The padding before the length: one byte 0x80, then zeros up to the last eight bytes. */
  lemma PadLayout(m: seq<byte>)
    ensures |Pad(m)| == 64 * BlockCount(|m|) && |m| + 9 <= |Pad(m)| < |m| + 9 + 64
    ensures m <= Pad(m) && Pad(m)[|m|] == 0x80
    ensures forall i :: |m| < i < |Pad(m)| - 8 ==> Pad(m)[i] == 0
  {
    hide LengthBytes;
  }

  /** The last eight bytes of the padded message are the counter's words. */
  lemma LengthLayout(m: seq<byte>, lo: uint32, hi: uint32)
    requires lo + 0x1_0000_0000 * hi == 8 * |m| % 0x1_0000_0000_0000_0000
    ensures var end := 64 * BlockCount(|m|);
            Pad(m)[end - 8..end - 4] == Store(ToWord(lo)) && Pad(m)[end - 4..end] == Store(ToWord(hi))
  {
    hide ToWord, Store;
    var p := Pad(m);
    assert p[|p| - 8..] == LengthBytes(|m|);
    assert p[|p| - 8..|p| - 4] == LengthBytes(|m|)[..4];
    assert p[|p| - 4..|p|] == LengthBytes(|m|)[4..];
  }

  /** The last sixty-four bytes that are hashed. */
  function LastBlock(m: seq<byte>): (b: seq<byte>)
    ensures |b| == 64
  {
    Pad(m)[64 * (BlockCount(|m|) - 1)..64 * BlockCount(|m|)]
  }

  lemma LastBlockIs(m: seq<byte>)
    ensures var n := BlockCount(|m|) - 1; LastBlock(m) == Pad(m)[64 * n..64 * n + 64]
  {
    hide Pad, BlockCount;
  }

  lemma ZeroBytes(w: word)
    requires forall i :: 0 <= i < 4 ==> Store(w)[i] == 0
    ensures w == 0
  {
    hide Store;
    LoadStore(w);
    ZeroLoad(Store(w));
  }

  lemma ZeroLoad(b: seq<byte>)
    requires |b| == 4 && forall i :: 0 <= i < 4 ==> b[i] == 0
    ensures Load(b) == 0
  {
    assert b[0] == 0 && b[1] == 0 && b[2] == 0 && b[3] == 0;
  }

  lemma NotZeroWord(n: nat)
    requires 0 < n < 0x1_0000_0000
    ensures ToWord(n) != 0
  {
  }

  lemma LowBits(length: nat)
    requires length % 64 >= 56
    ensures 8 * length % 0x1_0000_0000_0000_0000 % 0x1_0000_0000 > 0
  {
    var bits := 8 * length % 0x1_0000_0000_0000_0000;
    var q, r := 8 * length / 0x1_0000_0000_0000_0000, bits / 0x1_0000_0000;
    assert 8 * length == 512 * (length / 64) + 8 * (length % 64);
    assert bits % 0x1_0000_0000 == 8 * length - 0x1_0000_0000_0000_0000 * q - 0x1_0000_0000 * r;
    assert bits % 0x1_0000_0000 % 512 == 8 * (length % 64) by {
      var k := length / 64 - 0x80_0000_0000_0000 * q - 0x80_0000 * r;
      assert bits % 0x1_0000_0000 == 512 * k + 8 * (length % 64);
    }
  }

  lemma LastBlockAt(m: seq<byte>, i: nat)
    requires i < 64
    ensures LastBlock(m)[i] == Pad(m)[64 * (BlockCount(|m|) - 1) + i]
  {
    hide Pad, BlockCount;
    LastBlockIs(m);
  }

  lemma MarkInLastBlock(m: seq<byte>)
    requires |m| % 64 < 56
    ensures LastBlock(m)[|m| % 64] == 0x80
  {
    hide Pad, LastBlock;
    PadLayout(m);
    LastBlockAt(m, |m| % 64);
  }

  lemma LengthInLastBlock(m: seq<byte>, lo: uint32, hi: uint32, i: nat)
    requires lo + 0x1_0000_0000 * hi == 8 * |m| % 0x1_0000_0000_0000_0000 && i < 4
    ensures LastBlock(m)[56 + i] == Store(ToWord(lo))[i]
  {
    hide Pad, LastBlock, Store, ToWord, BlockCount;
    LengthLayout(m, lo, hi);
    var end := 64 * BlockCount(|m|);
    LastBlockAt(m, 56 + i);
    assert Pad(m)[end - 8..end - 4][i] == Pad(m)[end - 8 + i];
  }

  /** The last block is never all zero: it holds the byte 0x80, or a byte of the length that is not zero. */
  lemma LastBlockIsNotZero(m: seq<byte>)
    ensures exists i :: 0 <= i < 64 && LastBlock(m)[i] != 0
  {
    hide Pad, Store, LastBlock, ToWord;
    if |m| % 64 < 56 {
      MarkInLastBlock(m);
      assert LastBlock(m)[|m| % 64] != 0;
    } else {
      var bits := 8 * |m| % 0x1_0000_0000_0000_0000;
      var lo: uint32, hi: uint32 := bits % 0x1_0000_0000, bits / 0x1_0000_0000;
      LowBits(|m|);
      NotZeroWord(lo);
      if forall i :: 0 <= i < 4 ==> Store(ToWord(lo))[i] == 0 {
        ZeroBytes(ToWord(lo));
      }
      var i :| 0 <= i < 4 && Store(ToWord(lo))[i] != 0;
      LengthInLastBlock(m, lo, hi, i);
      assert LastBlock(m)[56 + i] != 0;
    }
  }

  lemma ZeroNative(host: Host, b: seq<byte>)
    requires |b| == 4 && forall i :: 0 <= i < 4 ==> b[i] == 0
    ensures NativeLoad(host, b) == 0
  {
    hide Load;
    ZeroLoad(b);
    ZeroLoad(Swap(b));
  }

  lemma WordOfWords(host: Host, memory: seq<byte>, block: seq<byte>, j: nat)
    requires |memory| == |block| == 64 && NativeWords(host, memory) == Words(block) && j < 16
    ensures NativeLoad(host, memory[4 * j..4 * j + 4]) == Load(block[4 * j..4 * j + 4])
  {
    hide Load, NativeLoad;
    assert NativeWords(host, memory)[j] == Words(block)[j];
  }

  /** So the input buffer that MD5Final leaves is never cleared either. */
  lemma NeverCleared(host: Host, m: seq<byte>, memory: seq<byte>)
    requires |memory| == 64 && NativeWords(host, memory) == Words(LastBlock(m))
    ensures exists i :: 0 <= i < 64 && memory[i] != 0
  {
    hide NativeWords, Words, LastBlock, Load, NativeLoad;
    LastBlockIsNotZero(m);
    var block := LastBlock(m);
    var i :| 0 <= i < 64 && block[i] != 0;
    var j := i / 4;
    WordOfWords(host, memory, block, j);
    var read, held := memory[4 * j..4 * j + 4], block[4 * j..4 * j + 4];
    assert held[i % 4] == block[4 * j + i % 4] == block[i];
    StoreLoad(held);
    if forall k :: 0 <= k < 4 ==> read[k] == 0 {
      ZeroNative(host, read);
      StoreZero();
    }
    var k :| 0 <= k < 4 && read[k] != 0;
    assert read[k] == memory[4 * j + k];
  }

  lemma StoreZero()
    ensures forall i :: 0 <= i < 4 ==> Store(0)[i] == 0
  {
  }

  lemma DigestIsLastBlock(m: seq<byte>)
    ensures var n := BlockCount(|m|) - 1;
            var r := Compress(Fold(n, Pad(m)), Words(Pad(m)[64 * n..64 * n + 64]));
            Digest(m) == Store(r.a) + Store(r.b) + Store(r.c) + Store(r.d)
  {
    hide Compress, Words, Store, Pad;
  }

  lemma WholeBlock(block: seq<byte>, all: seq<byte>, n: nat)
    requires |block| == 64 && 64 * n + 64 <= |all| && forall i :: 0 <= i < 64 ==> block[i] == all[64 * n + i]
    ensures block == all[64 * n..64 * n + 64]
  {
  }

  lemma StartOfBlock(block: seq<byte>, m: seq<byte>, all: seq<byte>, n: nat)
    requires |block| == 64 && 64 * n <= |m| < 64 * n + 64 && m <= all && block[..|m| - 64 * n] == m[64 * n..]
    ensures forall i :: 0 <= i < |m| - 64 * n ==> block[i] == all[64 * n + i]
  {
    forall i | 0 <= i < |m| - 64 * n
      ensures block[i] == all[64 * n + i]
    {
      assert block[i] == block[..|m| - 64 * n][i] == m[64 * n..][i] == m[64 * n + i];
    }
  }

  lemma InnerSlice(s: seq<byte>, a: nat, b: nat, i: nat, j: nat)
    requires i <= j && a + j <= b <= |s|
    ensures s[a..b][i..j] == s[a + i..a + j]
  {
    var inner, outer := s[a..b][i..j], s[a + i..a + j];
    forall k | 0 <= k < |inner|
      ensures inner[k] == outer[k]
    {
      assert inner[k] == s[a..b][i + k] == s[a + (i + k)];
      assert outer[k] == s[a + i + k];
    }
  }

  class Md5Context {
    const host: Host
    const buf: array<word>
    const inp: array<byte>
    var bits0: uint32
    var bits1: uint32

    /** Everything fed in so far. */
    ghost var fed: seq<byte>

    function Chain(): Chaining
      requires buf.Length == 4
      reads buf
    {
      Chaining(buf[0], buf[1], buf[2], buf[3])
    }

    /** Between calls the buffer covers the whole blocks of m, and inp starts with what is left over. */
    ghost predicate Holds(m: seq<byte>)
      reads buf, inp
    {
      && buf.Length == 4 && inp.Length == 64
      && var n := |m| / 64;
         Chain() == Fold(n, m) && inp[..|m| - 64 * n] == m[64 * n..]
    }

    ghost predicate Valid()
      reads this, buf, inp
    {
      bits0 + 0x1_0000_0000 * bits1 == 8 * |fed| % 0x1_0000_0000_0000_0000 && Holds(fed)
    }

    /** The memory of the four words holds these bytes. */
    ghost predicate MemoryIs(bytes: seq<byte>)
      reads buf
    {
      && buf.Length == 4 && |bytes| == 16
      && forall i :: 0 <= i < 4 ==> NativeStore(host, buf[i]) == bytes[4 * i..4 * i + 4]
    }

    constructor (host: Host)
      ensures Valid() && fed == [] && fresh(buf) && fresh(inp) && this.host == host
    {
      this.host := host;
      var words := new word[4];
      words[0], words[1], words[2], words[3] := 0x67452301, 0xefcdab89, 0x98badcfe, 0x10325476;
      buf := words;
      inp := new byte[64];
      bits0, bits1 := 0, 0;
      fed := [];
    }

    /** memcpy into the carry-over buffer. */
    method CopyIn(at: nat, src: seq<byte>)
      requires inp.Length == 64 && at + |src| <= 64
      modifies inp
      ensures inp[at..at + |src|] == src
      ensures forall i :: 0 <= i < 64 && !(at <= i < at + |src|) ==> inp[i] == old(inp[i])
    {
      forall i | 0 <= i < |src| {
        inp[at + i] := src[i];
      }
    }

    /** Hashes the full carry-over buffer. */
    method TakeBlock()
      requires buf.Length == 4 && inp.Length == 64
      modifies buf, inp
      ensures Chain() == Compress(old(Chain()), Words(old(inp[..])))
    {
      ghost var block := inp[..];
      ByteReverse(host, inp, 16);
      ReversedWords(host, block, inp[..]);
      Md5Transform(buf, NativeWords(host, inp[..]));
    }

    /** Fills the carry-over buffer from position at on and hashes it as block n of all. */
    method FeedBlock(at: nat, src: seq<byte>, ghost all: seq<byte>, ghost n: nat)
      requires buf.Length == 4 && inp.Length == 64 && at + |src| == 64
      requires 64 * n + 64 <= |all| && inp[..at] + src == all[64 * n..64 * n + 64]
      requires Chain() == Fold(n, all)
      modifies buf, inp
      ensures Chain() == Fold(n + 1, all)
    {
      hide Compress, Words;
      ghost var head := inp[..at];
      CopyIn(at, src);
      assert inp[..at] == head;
      assert inp[..] == inp[..at] + inp[at..64];
      TakeBlock();
    }

    /** All the whole blocks of data, then what is left over: the second half of MD5Update. */
    method FeedBlocks(data: seq<byte>, ghost all: seq<byte>, ghost first: nat)
      requires buf.Length == 4 && inp.Length == 64
      requires 64 * first <= |all| && data == all[64 * first..]
      requires Chain() == Fold(first, all)
      modifies buf, inp
      ensures Holds(all)
    {
      hide Fold, Compress, Words;
      var rest := data;
      ghost var n := first;
      while |rest| >= 64
        invariant 64 * n + |rest| == |all| && rest == all[64 * n..]
        invariant Chain() == Fold(n, all)
      {
        FeedBlock(0, rest[..64], all, n);
        n := n + 1;
        rest := rest[64..];
      }
      CopyIn(0, rest);
      assert inp[..|rest|] == inp[0..|rest|];
    }

    method CountBits(len: uint32, ghost total: nat)
      requires bits0 + 0x1_0000_0000 * bits1 == 8 * total % 0x1_0000_0000_0000_0000
      modifies this`bits0, this`bits1
      ensures bits0 + 0x1_0000_0000 * bits1 == 8 * (total + len) % 0x1_0000_0000_0000_0000
    {
      CounterAdvances(bits0, bits1, total, len);
      var t := bits0;
      bits0 := (t + 8 * len % 0x1_0000_0000) % 0x1_0000_0000;
      if bits0 < t {
        bits1 := (bits1 + 1) % 0x1_0000_0000;
      }
      bits1 := (bits1 + len / 0x2000_0000) % 0x1_0000_0000;
    }

    /** The buffers' part of MD5Update, given how many bytes wait in the carry-over buffer. */
    method Absorb(t: nat, data: seq<byte>, ghost before: seq<byte>)
      requires Holds(before) && t == |before| % 64
      modifies buf, inp
      ensures Holds(before + data)
    {
      hide Fold, Compress, Words;
      ghost var all, n := before + data, |before| / 64;
      FoldExtends(n, before, data);
      assert all[64 * n..] == inp[..t] + data;
      if t == 0 {
        FeedBlocks(data, all, n);
      } else if |data| < 64 - t {
        ghost var head := inp[..t];
        CopyIn(t, data);
        assert inp[..t] == head;
        assert inp[..t + |data|] == inp[..t] + inp[t..t + |data|];
      } else {
        FeedBlock(t, data[..64 - t], all, n);
        FeedBlocks(data[64 - t..], all, n + 1);
      }
    }

    method Update(data: seq<byte>)
      requires Valid() && |data| < 0x1_0000_0000
      modifies this, buf, inp
      ensures Valid() && fed == old(fed) + data
    {
      hide Fold;
      var t: nat := bits0 / 8 % 64;
      TailFromCounter(bits0, bits1, |fed|);
      CountBits(|data|, |fed|);
      Absorb(t, data, fed);
      fed := fed + data;
    }

    /** Reverses fourteen words and writes two words, the counter, as native words 14 and 15. */
    method CloseBlock(lo: word, hi: word, ghost block: seq<byte>)
      requires inp.Length == 64 && |block| == 64
      requires forall i :: 0 <= i < 56 ==> inp[i] == block[i]
      requires block[56..60] == Store(lo) && block[60..64] == Store(hi)
      modifies inp
      ensures NativeWords(host, inp[..]) == Words(block)
    {
      hide Load, Store, NativeLoad, NativeStore, NativeWords, Words, Reversed;
      ghost var read := inp[..];
      ByteReverse(host, inp, 14);
      ghost var reversed := inp[..];
      CopyIn(56, NativeStore(host, lo));
      assert inp[56..60] == NativeStore(host, lo);
      CopyIn(60, NativeStore(host, hi));
      ghost var memory := inp[..];
      assert memory[56..60] == inp[56..60];
      assert memory[60..64] == inp[60..64];
      LastWords(host, read, reversed, memory, block, lo, hi);
    }

    method TakeLastBlock(ghost block: seq<byte>)
      requires buf.Length == 4 && inp.Length == 64 && |block| == 64
      requires forall i :: 0 <= i < 56 ==> inp[i] == block[i]
      requires block[56..60] == Store(ToWord(bits0)) && block[60..64] == Store(ToWord(bits1))
      modifies buf, inp
      ensures Chain() == Compress(old(Chain()), Words(block)) && NativeWords(host, inp[..]) == Words(block)
    {
      hide ToWord, Store, Words, Compress, NativeWords;
      CloseBlock(ToWord(bits0), ToWord(bits1), block);
      Md5Transform(buf, NativeWords(host, inp[..]));
    }

    /** The byte swap of the four words of the buffer in memory, and the copy into the digest. */
    method Output() returns (digest: seq<byte>)
      requires buf.Length == 4
      modifies buf
      ensures var r := old(Chain()); digest == Store(r.a) + Store(r.b) + Store(r.c) + Store(r.d)
      ensures MemoryIs(digest)
    {
      hide Load, Store, NativeLoad, NativeStore, Reversed, NativeBytes;
      ghost var words := buf[..];
      var memory := NativeBytes(host, buf[..]);
      var bytes := new byte[16](i requires 0 <= i < 16 => memory[i]);
      assert bytes[..] == memory;
      ByteReverse(host, bytes, 4);
      digest := bytes[..];
      OutputBytes(host, words, digest);
      forall i | 0 <= i < 4 {
        buf[i] := NativeLoad(host, digest[4 * i..4 * i + 4]);
      }
      forall i | 0 <= i < 4
        ensures NativeStore(host, buf[i]) == digest[4 * i..4 * i + 4]
      {
        NativeReadBack(host, digest[4 * i..4 * i + 4]);
      }
    }

    /** Writes value into inp[at..to]. */
    method Fill(at: nat, to: nat, value: byte)
      requires inp.Length == 64 && at <= to <= 64
      modifies inp
      ensures forall i :: 0 <= i < 64 ==> inp[i] == if at <= i < to then value else old(inp[i])
    {
      forall i | at <= i < to {
        inp[i] := value;
      }
    }

    /** Pads up to the eight length bytes, hashing one block if they do not fit in it. */
    method PadOut(ghost m: seq<byte>)
      requires Holds(m) && bits0 / 8 % 64 == |m| % 64
      modifies buf, inp
      ensures buf.Length == 4 && inp.Length == 64
      ensures var n := BlockCount(|m|) - 1;
              Chain() == Fold(n, Pad(m)) && forall i :: 0 <= i < 56 ==> inp[i] == Pad(m)[64 * n + i]
    {
      hide Fold, Compress, Words, LengthBytes, Pad;
      var count := bits0 / 8 % 64;
      ghost var padded, n := Pad(m), |m| / 64;
      PadLayout(m);
      FoldExtends(n, m, padded[|m|..]);
      assert padded == m + padded[|m|..];
      StartOfBlock(inp[..], m, padded, n);
      inp[count] := 0x80;
      if 63 - count < 8 {
        Fill(count + 1, 64, 0);
        WholeBlock(inp[..], padded, n);
        assert inp[..64] + [] == inp[..];
        FeedBlock(64, [], padded, n);
        Fill(0, 56, 0);
      } else {
        Fill(count + 1, 56, 0);
      }
    }

    /** The padding, the last one or two blocks, and the digest. */
    method Finish(ghost m: seq<byte>) returns (digest: seq<byte>)
      requires Holds(m) && bits0 + 0x1_0000_0000 * bits1 == 8 * |m| % 0x1_0000_0000_0000_0000
      modifies buf, inp
      ensures digest == Digest(m) && MemoryIs(digest)
      ensures inp.Length == 64 && NativeWords(host, inp[..]) == Words(LastBlock(m))
    {
      hide *;
      TailFromCounter(bits0, bits1, |m|);
      PadLayout(m);
      LengthLayout(m, bits0, bits1);
      DigestIsLastBlock(m);
      ghost var padded, n := Pad(m), BlockCount(|m|) - 1;
      ghost var block := LastBlock(m);
      LastBlockIs(m);
      InnerSlice(padded, 64 * n, 64 * n + 64, 56, 60);
      InnerSlice(padded, 64 * n, 64 * n + 64, 60, 64);
      PadOut(m);
      assert forall i :: 0 <= i < 56 ==> inp[i] == block[i];
      TakeLastBlock(block);
      digest := Output();
    }

    /**
     MD5Final: the digest; then the first pointerWords words of the context are cleared, which is what
     its memset with the size of a pointer does.  The other words keep the digest's bytes in memory, the
     counter the length of the message, and the input buffer its last block.
     */
    method Final(pointerWords: nat) returns (digest: seq<byte>)
      requires Valid() && 1 <= pointerWords <= 2
      modifies this, buf, inp
      ensures digest == Digest(old(fed))
      ensures buf.Length == 4 && forall i :: 0 <= i < pointerWords ==> buf[i] == 0
      ensures forall i :: pointerWords <= i < 4 ==> NativeStore(host, buf[i]) == digest[4 * i..4 * i + 4]
      ensures bits0 + 0x1_0000_0000 * bits1 == 8 * |old(fed)| % 0x1_0000_0000_0000_0000
      ensures inp.Length == 64 && NativeWords(host, inp[..]) == Words(LastBlock(old(fed)))
    {
      hide Digest, Fold, NativeStore, NativeWords, Words, LastBlock;
      digest := Finish(fed);
      ghost var block := inp[..];
      forall i | 0 <= i < pointerWords {
        buf[i] := 0;
      }
      assert inp[..] == block;
    }
  }

  function HexDigit(n: byte): octet
    requires n < 16
  {
    "0123456789abcdef"[n as int]
  }

  function HexString(p: seq<byte>): (s: seq<octet>)
    ensures |s| == 2 * |p|
  {
    if p == [] then [] else [HexDigit(p[0] >> 4), HexDigit(p[0] & 0x0f)] + HexString(p[1..])
  }

  lemma HexDigitReads(n: byte)
    requires n < 16
    ensures var c := HexDigit(n);
            Urls.IsHex(c) && Urls.HexValue(c) == n as int && !('A' <= c <= 'Z')
  {
    assert forall i :: 0 <= i < 10 ==> "0123456789abcdef"[i] as int == '0' as int + i;
    assert forall i :: 10 <= i < 16 ==> "0123456789abcdef"[i] as int == 'a' as int + i - 10;
  }

  lemma Nibbles(b: byte)
    ensures 16 * ((b >> 4) as int) + (b & 0x0f) as int == b as int
  {
  }

  /** Reading the text as hex digits, none of them a capital, gives the bytes back. */
  lemma {:induction false} HexReadsBack(p: seq<byte>, i: nat)
    requires i < |p|
    ensures var s := HexString(p);
            && Urls.IsHex(s[2 * i]) && !('A' <= s[2 * i] <= 'Z')
            && Urls.IsHex(s[2 * i + 1]) && !('A' <= s[2 * i + 1] <= 'Z')
            && 16 * Urls.HexValue(s[2 * i]) + Urls.HexValue(s[2 * i + 1]) == p[i] as int
  {
    hide HexDigit, Urls.IsHex, Urls.HexValue;
    var s := HexString(p);
    if i == 0 {
      HexDigitReads(p[0] >> 4);
      HexDigitReads(p[0] & 0x0f);
      Nibbles(p[0]);
    } else {
      HexReadsBack(p[1..], i - 1);
      assert s[2..] == HexString(p[1..]);
      assert s[2..][2 * (i - 1)] == s[2 * i] && s[2..][2 * (i - 1) + 1] == s[2 * i + 1];
    }
  }

  /** Two byte strings with the same text are the same, so comparing texts compares digests. */
  lemma HexStringInjective(a: seq<byte>, b: seq<byte>)
    requires HexString(a) == HexString(b)
    ensures a == b
  {
    hide HexString;
    assert |a| == |b|;
    forall i | 0 <= i < |a|
      ensures a[i] == b[i]
    {
      HexReadsBack(a, i);
      HexReadsBack(b, i);
      assert a[i] as int == b[i] as int;
    }
  }

  lemma HexNext(p: seq<byte>, i: nat)
    requires i < |p|
    ensures HexString(p[i..]) == [HexDigit(p[i] >> 4), HexDigit(p[i] & 0x0f)] + HexString(p[i + 1..])
  {
    hide HexDigit;
    assert p[i..][1..] == p[i + 1..];
  }

  lemma HexEnds()
    ensures HexString([]) == []
  {
  }

  method Bin2Str(p: seq<byte>) returns (to: seq<octet>)
    ensures to == HexString(p)
  {
    hide HexString, HexDigit;
    to := [];
    var i := 0;
    assert p[0..] == p;
    while i < |p|
      invariant i <= |p| && to + HexString(p[i..]) == HexString(p)
    {
      HexNext(p, i);
      to := to + [HexDigit(p[i] >> 4), HexDigit(p[i] & 0x0f)];
      i := i + 1;
    }
    HexEnds();
    assert p[i..] == [] && to + [] == to;
  }

  /** The digest of a list of strings is that of their concatenation, on a host of either order. */
  method MgMd5(host: Host, pointerWords: nat, parts: seq<seq<byte>>) returns (text: seq<octet>)
    requires 1 <= pointerWords <= 2
    requires forall i :: 0 <= i < |parts| ==> |parts[i]| < 0x1_0000_0000
    ensures text == HexString(Digest(Flat(parts)))
  {
    hide Digest, HexString;
    var ctx := new Md5Context(host);
    var i := 0;
    while i < |parts|
      invariant i <= |parts| && ctx.Valid() && ctx.fed == Flat(parts[..i])
      invariant fresh(ctx) && fresh(ctx.buf) && fresh(ctx.inp)
    {
      ctx.Update(parts[i]);
      assert parts[..i + 1][..i] == parts[..i];
      i := i + 1;
    }
    assert parts[..i] == parts;
    var hash := ctx.Final(pointerWords);
    text := Bin2Str(hash);
  }
}
