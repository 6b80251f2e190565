/**
 The MD5 message digest as RFC 1321 defines it (sections 3.1 to 3.5): padding, the four
 auxiliary functions, sixty-four table-driven operations on each sixteen-word block and the
 little-endian output.  Nothing here follows the C code.
 */
module Rfc1321 {
  type byte = bv8
  type word = bv32

  /** The four-word buffer (A, B, C, D) of section 3.3. */
  datatype Chaining = Chaining(a: word, b: word, c: word, d: word)

  const INITIAL := Chaining(0x67452301, 0xefcdab89, 0x98badcfe, 0x10325476)

  /** Addition of words, modulo 2^32. */
  function Add(x: word, y: word): word {
    x + y
  }

  // Section 3.4: the auxiliary functions.

  function F(x: word, y: word, z: word): word {
    (x & y) | (!x & z)
  }

  function G(x: word, y: word, z: word): word {
    (x & z) | (y & !z)
  }

  function H(x: word, y: word, z: word): word {
    x ^ y ^ z
  }

  function I(x: word, y: word, z: word): word {
    y ^ (x | !z)
  }

  function RotateLeft(x: word, s: word): word
    requires s <= 32
  {
    (x << s) | (x >> (32 - s))
  }

  // Round 1: the message word, the shift amount and the element of the table T (the integer part of
  // 4294967296 times abs(sin(1 + i)), the angle in radians) of its operation i.

  function Word1(i: nat): (k: nat)
    ensures k < 16
  {
    i % 16
  }

  function Shift1(i: nat): (s: word)
    ensures s <= 32
  {
    match i % 4 case 0 => 7 case 1 => 12 case 2 => 17 case _ => 22
  }

  function Sine1(i: nat): word {
    match i
    case 0 => 0xd76aa478 case 1 => 0xe8c7b756 case 2 => 0x242070db case 3 => 0xc1bdceee
    case 4 => 0xf57c0faf case 5 => 0x4787c62a case 6 => 0xa8304613 case 7 => 0xfd469501
    case 8 => 0x698098d8 case 9 => 0x8b44f7af case 10 => 0xffff5bb1 case 11 => 0x895cd7be
    case 12 => 0x6b901122 case 13 => 0xfd987193 case 14 => 0xa679438e case _ => 0x49b40821
  }

  // Round 2, likewise; its element of T is the one for the angle 17 + i.

  function Word2(i: nat): (k: nat)
    ensures k < 16
  {
    (5 * i + 1) % 16
  }

  function Shift2(i: nat): (s: word)
    ensures s <= 32
  {
    match i % 4 case 0 => 5 case 1 => 9 case 2 => 14 case _ => 20
  }

  function Sine2(i: nat): word {
    match i
    case 0 => 0xf61e2562 case 1 => 0xc040b340 case 2 => 0x265e5a51 case 3 => 0xe9b6c7aa
    case 4 => 0xd62f105d case 5 => 0x02441453 case 6 => 0xd8a1e681 case 7 => 0xe7d3fbc8
    case 8 => 0x21e1cde6 case 9 => 0xc33707d6 case 10 => 0xf4d50d87 case 11 => 0x455a14ed
    case 12 => 0xa9e3e905 case 13 => 0xfcefa3f8 case 14 => 0x676f02d9 case _ => 0x8d2a4c8a
  }

  // Round 3, likewise; its element of T is the one for the angle 33 + i.

  function Word3(i: nat): (k: nat)
    ensures k < 16
  {
    (3 * i + 5) % 16
  }

  function Shift3(i: nat): (s: word)
    ensures s <= 32
  {
    match i % 4 case 0 => 4 case 1 => 11 case 2 => 16 case _ => 23
  }

  function Sine3(i: nat): word {
    match i
    case 0 => 0xfffa3942 case 1 => 0x8771f681 case 2 => 0x6d9d6122 case 3 => 0xfde5380c
    case 4 => 0xa4beea44 case 5 => 0x4bdecfa9 case 6 => 0xf6bb4b60 case 7 => 0xbebfbc70
    case 8 => 0x289b7ec6 case 9 => 0xeaa127fa case 10 => 0xd4ef3085 case 11 => 0x04881d05
    case 12 => 0xd9d4d039 case 13 => 0xe6db99e5 case 14 => 0x1fa27cf8 case _ => 0xc4ac5665
  }

  // Round 4, likewise; its element of T is the one for the angle 49 + i.

  function Word4(i: nat): (k: nat)
    ensures k < 16
  {
    7 * i % 16
  }

  function Shift4(i: nat): (s: word)
    ensures s <= 32
  {
    match i % 4 case 0 => 6 case 1 => 10 case 2 => 15 case _ => 21
  }

  function Sine4(i: nat): word {
    match i
    case 0 => 0xf4292244 case 1 => 0x432aff97 case 2 => 0xab9423a7 case 3 => 0xfc93a039
    case 4 => 0x655b59c3 case 5 => 0x8f0ccc92 case 6 => 0xffeff47d case 7 => 0x85845dd1
    case 8 => 0x6fa87e4f case 9 => 0xfe2ce6e0 case 10 => 0xa3014314 case 11 => 0x4e0811a1
    case 12 => 0xf7537e82 case 13 => 0xbd3af235 case 14 => 0x2ad7d2bb case _ => 0xeb86d391
  }

  /** One operation, [abcd k s i]: a = b + ((a + aux(b, c, d) + X[k] + T[i]) <<< s). */
  function Operation(aux: word, s: Chaining, key: word, shift: word, sine: word): Chaining
    requires shift <= 32
  {
    var sum := Add(Add(Add(s.a, aux), key), sine);
    Chaining(s.d, Add(s.b, RotateLeft(sum, shift)), s.b, s.c)
  }

  /** The first n of the sixty-four operations; the registers trade places after each one. */
  function Operations(n: nat, s: Chaining, x: seq<word>): Chaining
    requires n <= 64 && |x| == 16
  {
    if n == 0 then s else
    var p := Operations(n - 1, s, x);
    if n <= 16 then var i := n - 1; Operation(F(p.b, p.c, p.d), p, x[Word1(i)], Shift1(i), Sine1(i))
    else if n <= 32 then var i := n - 17; Operation(G(p.b, p.c, p.d), p, x[Word2(i)], Shift2(i), Sine2(i))
    else if n <= 48 then var i := n - 33; Operation(H(p.b, p.c, p.d), p, x[Word3(i)], Shift3(i), Sine3(i))
    else var i := n - 49; Operation(I(p.b, p.c, p.d), p, x[Word4(i)], Shift4(i), Sine4(i))
  }

  function Compress(s: Chaining, x: seq<word>): Chaining
    requires |x| == 16
  {
    var r := Operations(64, s, x);
    Chaining(Add(s.a, r.a), Add(s.b, r.b), Add(s.c, r.c), Add(s.d, r.d))
  }

  // Sections 3.1, 3.2 and 3.5: bytes and words, padding, and the output.

  function Load(b: seq<byte>): word
    requires |b| == 4
  {
    (b[0] as word) | ((b[1] as word) << 8) | ((b[2] as word) << 16) | ((b[3] as word) << 24)
  }

  function Store(w: word): (b: seq<byte>)
    ensures |b| == 4
  {
    [(w & 0xff) as byte, ((w >> 8) & 0xff) as byte, ((w >> 16) & 0xff) as byte, ((w >> 24) & 0xff) as byte]
  }

  function Words(block: seq<byte>): (x: seq<word>)
    requires |block| == 64
    ensures |x| == 16
  {
    seq(16, j requires 0 <= j < 16 => Load(block[4 * j..4 * j + 4]))
  }

  /** The buffer after the first n sixty-four-byte blocks of m. */
  function Fold(n: nat, m: seq<byte>): Chaining
    requires 64 * n <= |m|
  {
    if n == 0 then INITIAL else Compress(Fold(n - 1, m), Words(m[64 * n - 64..64 * n]))
  }

  function Zeros(n: nat): (z: seq<byte>)
    ensures |z| == n
  {
    seq(n, _ => 0)
  }

  /** How many zero bytes follow the byte 0x80 so that eight are left in the last block. */
  function ZeroCount(length: nat): (z: nat)
    ensures length + 1 + z + 8 == 64 * BlockCount(length)
  {
    var used := length % 64;
    if used < 56 then 55 - used else 119 - used
  }

  function ToWord(n: nat): word
    requires n < 0x1_0000_0000
  {
    n as word
  }

  /** The length in bits, modulo 2^64, as two words, low-order word first. */
  function LengthBytes(length: nat): (b: seq<byte>)
    ensures |b| == 8
  {
    var bits := 8 * length % 0x1_0000_0000_0000_0000;
    Store(ToWord(bits % 0x1_0000_0000)) + Store(ToWord(bits / 0x1_0000_0000))
  }

  /** The number of blocks of the padded message. */
  function BlockCount(length: nat): (n: nat)
    ensures n >= 1
  {
    length / 64 + (if length % 64 < 56 then 1 else 2)
  }

  function Pad(m: seq<byte>): (p: seq<byte>)
    ensures |p| == 64 * BlockCount(|m|)
  {
    m + [0x80] + Zeros(ZeroCount(|m|)) + LengthBytes(|m|)
  }

  function Digest(m: seq<byte>): (d: seq<byte>)
    ensures |d| == 16
  {
    var r := Fold(BlockCount(|m|), Pad(m));
    Store(r.a) + Store(r.b) + Store(r.c) + Store(r.d)
  }
}
