/**
 A test vector of RFC 1321, appendix A.5: the digest of the sixty-two letters and digits, which takes two
 blocks.  It holds only if all constants, word orders and shifts of the tables are those of the RFC.
 */
module Rfc1321Suite {
  import opened Rfc1321
  import Md5

  /** "ABC...Zabc...z0...9" in ASCII. */
  function LettersAndDigits(): (m: seq<byte>)
    ensures |m| == 62
  {
    seq(62, i requires 0 <= i < 62 => ByteOf(i))
  }

  /** Byte k of the message once it is padded: letters, digits, 0x80, zeros, and the length of 496 bits. */
  function ByteOf(k: nat): byte {
    if k < 26 then (65 + k) as byte else if k < 52 then (97 + k - 26) as byte
    else if k < 62 then (48 + k - 52) as byte else if k == 62 then 0x80
    else if k == 120 then 0xf0 else if k == 121 then 1 else 0
  }

  /** The words of block 1 of the padded message. */
  predicate IsBlock1(x: seq<word>) {
    && |x| == 16
    && x[0] == 0x44434241 && x[1] == 0x48474645 && x[2] == 0x4c4b4a49 && x[3] == 0x504f4e4d
    && x[4] == 0x54535251 && x[5] == 0x58575655 && x[6] == 0x62615a59 && x[7] == 0x66656463
    && x[8] == 0x6a696867 && x[9] == 0x6e6d6c6b && x[10] == 0x7271706f && x[11] == 0x76757473
    && x[12] == 0x7a797877 && x[13] == 0x33323130 && x[14] == 0x37363534 && x[15] == 0x00803938
  }

  /** The words of block 2 of the padded message. */
  predicate IsBlock2(x: seq<word>) {
    && |x| == 16
    && x[0] == 0x00000000 && x[1] == 0x00000000 && x[2] == 0x00000000 && x[3] == 0x00000000
    && x[4] == 0x00000000 && x[5] == 0x00000000 && x[6] == 0x00000000 && x[7] == 0x00000000
    && x[8] == 0x00000000 && x[9] == 0x00000000 && x[10] == 0x00000000 && x[11] == 0x00000000
    && x[12] == 0x00000000 && x[13] == 0x00000000 && x[14] == 0x000001f0 && x[15] == 0x00000000
  }

  // One operation on known words, for each round.

  lemma Next1(i: nat, from: Chaining, x: seq<word>, s: Chaining, key: word, sine: word, b: word)
    requires |x| == 16 && i < 16 && Operations(i, from, x) == s && x[Word1(i)] == key && Sine1(i) == sine
    requires Add(s.b, RotateLeft(Add(Add(Add(s.a, F(s.b, s.c, s.d)), key), sine), Shift1(i))) == b
    ensures Operations(i + 1, from, x) == Chaining(s.d, b, s.b, s.c)
  {
    hide Add, RotateLeft, F;
  }

  lemma Next2(i: nat, from: Chaining, x: seq<word>, s: Chaining, key: word, sine: word, b: word)
    requires |x| == 16 && i < 16 && Operations(16 + i, from, x) == s && x[Word2(i)] == key && Sine2(i) == sine
    requires Add(s.b, RotateLeft(Add(Add(Add(s.a, G(s.b, s.c, s.d)), key), sine), Shift2(i))) == b
    ensures Operations(16 + i + 1, from, x) == Chaining(s.d, b, s.b, s.c)
  {
    hide Add, RotateLeft, G;
  }

  lemma Next3(i: nat, from: Chaining, x: seq<word>, s: Chaining, key: word, sine: word, b: word)
    requires |x| == 16 && i < 16 && Operations(32 + i, from, x) == s && x[Word3(i)] == key && Sine3(i) == sine
    requires Add(s.b, RotateLeft(Add(Add(Add(s.a, H(s.b, s.c, s.d)), key), sine), Shift3(i))) == b
    ensures Operations(32 + i + 1, from, x) == Chaining(s.d, b, s.b, s.c)
  {
    hide Add, RotateLeft, H;
  }

  lemma Next4(i: nat, from: Chaining, x: seq<word>, s: Chaining, key: word, sine: word, b: word)
    requires |x| == 16 && i < 16 && Operations(48 + i, from, x) == s && x[Word4(i)] == key && Sine4(i) == sine
    requires Add(s.b, RotateLeft(Add(Add(Add(s.a, I(s.b, s.c, s.d)), key), sine), Shift4(i))) == b
    ensures Operations(48 + i + 1, from, x) == Chaining(s.d, b, s.b, s.c)
  {
    hide Add, RotateLeft, I;
  }

  // The 128 operations.

  lemma Block1Round1(from: Chaining, x: seq<word>)
    requires IsBlock1(x) && Operations(0, from, x) == Chaining(0x67452301, 0xefcdab89, 0x98badcfe, 0x10325476)
    ensures Operations(16, from, x) == Chaining(0x3cbdcd45, 0x5d38e690, 0xfa148c8a, 0xb8dec763)
  {
    hide Operations;
    Next1(0, from, x, Chaining(0x67452301, 0xefcdab89, 0x98badcfe, 0x10325476), 0x44434241, 0xd76aa478, 0xc6c10796);
    Next1(1, from, x, Chaining(0x10325476, 0xc6c10796, 0xefcdab89, 0x98badcfe), 0x48474645, 0xe8c7b756, 0x99a09999);
    Next1(2, from, x, Chaining(0x98badcfe, 0x99a09999, 0xc6c10796, 0xefcdab89), 0x4c4b4a49, 0x242070db, 0x11067980);
    Next1(3, from, x, Chaining(0xefcdab89, 0x11067980, 0x99a09999, 0xc6c10796), 0x504f4e4d, 0xc1bdceee, 0x27bce07a);
    Next1(4, from, x, Chaining(0xc6c10796, 0x27bce07a, 0x11067980, 0x99a09999), 0x54535251, 0xf57c0faf, 0xf22e6c4e);
    Next1(5, from, x, Chaining(0x99a09999, 0xf22e6c4e, 0x27bce07a, 0x11067980), 0x58575655, 0x4787c62a, 0xb4ac9218);
    Next1(6, from, x, Chaining(0x11067980, 0xb4ac9218, 0xf22e6c4e, 0x27bce07a), 0x62615a59, 0xa8304613, 0xa95a2fc0);
    Next1(7, from, x, Chaining(0x27bce07a, 0xa95a2fc0, 0xb4ac9218, 0xf22e6c4e), 0x66656463, 0xfd469501, 0xa4799506);
    Next1(8, from, x, Chaining(0xf22e6c4e, 0xa4799506, 0xa95a2fc0, 0xb4ac9218), 0x6a696867, 0x698098d8, 0x1eb3e7c1);
    Next1(9, from, x, Chaining(0xb4ac9218, 0x1eb3e7c1, 0xa4799506, 0xa95a2fc0), 0x6e6d6c6b, 0x8b44f7af, 0xa6e70cfe);
    Next1(10, from, x, Chaining(0xa95a2fc0, 0xa6e70cfe, 0x1eb3e7c1, 0xa4799506), 0x7271706f, 0xffff5bb1, 0xca27520b);
    Next1(11, from, x, Chaining(0xa4799506, 0xca27520b, 0xa6e70cfe, 0x1eb3e7c1), 0x76757473, 0x895cd7be, 0x8a7612ec);
    Next1(12, from, x, Chaining(0x1eb3e7c1, 0x8a7612ec, 0xca27520b, 0xa6e70cfe), 0x7a797877, 0x6b901122, 0x3cbdcd45);
    Next1(13, from, x, Chaining(0xa6e70cfe, 0x3cbdcd45, 0x8a7612ec, 0xca27520b), 0x33323130, 0xfd987193, 0xb8dec763);
    Next1(14, from, x, Chaining(0xca27520b, 0xb8dec763, 0x3cbdcd45, 0x8a7612ec), 0x37363534, 0xa679438e, 0xfa148c8a);
    Next1(15, from, x, Chaining(0x8a7612ec, 0xfa148c8a, 0xb8dec763, 0x3cbdcd45), 0x00803938, 0x49b40821, 0x5d38e690);
  }

  lemma Block1Round2(from: Chaining, x: seq<word>)
    requires IsBlock1(x) && Operations(16, from, x) == Chaining(0x3cbdcd45, 0x5d38e690, 0xfa148c8a, 0xb8dec763)
    ensures Operations(32, from, x) == Chaining(0x9b085fa9, 0xdd789ecc, 0x5993248f, 0x4400a9bd)
  {
    hide Operations;
    Next2(0, from, x, Chaining(0x3cbdcd45, 0x5d38e690, 0xfa148c8a, 0xb8dec763), 0x48474645, 0xf61e2562, 0x04b9d52a);
    Next2(1, from, x, Chaining(0xb8dec763, 0x04b9d52a, 0x5d38e690, 0xfa148c8a), 0x62615a59, 0xc040b340, 0x783002eb);
    Next2(2, from, x, Chaining(0xfa148c8a, 0x783002eb, 0x04b9d52a, 0x5d38e690), 0x76757473, 0x265e5a51, 0xd3ee3ed1);
    Next2(3, from, x, Chaining(0x5d38e690, 0xd3ee3ed1, 0x783002eb, 0x04b9d52a), 0x44434241, 0xe9b6c7aa, 0x47ae7c81);
    Next2(4, from, x, Chaining(0x04b9d52a, 0x47ae7c81, 0xd3ee3ed1, 0x783002eb), 0x58575655, 0xd62f105d, 0x2d7d8a3f);
    Next2(5, from, x, Chaining(0x783002eb, 0x2d7d8a3f, 0x47ae7c81, 0xd3ee3ed1), 0x7271706f, 0x02441453, 0xd1210823);
    Next2(6, from, x, Chaining(0xd3ee3ed1, 0xd1210823, 0x2d7d8a3f, 0x47ae7c81), 0x00803938, 0xd8a1e681, 0x4b534dc3);
    Next2(7, from, x, Chaining(0x47ae7c81, 0x4b534dc3, 0xd1210823, 0x2d7d8a3f), 0x54535251, 0xe7d3fbc8, 0x75292030);
    Next2(8, from, x, Chaining(0x2d7d8a3f, 0x75292030, 0x4b534dc3, 0xd1210823), 0x6e6d6c6b, 0x21e1cde6, 0x9d2a6e33);
    Next2(9, from, x, Chaining(0xd1210823, 0x9d2a6e33, 0x75292030, 0x4b534dc3), 0x37363534, 0xc33707d6, 0x0e8d2e44);
    Next2(10, from, x, Chaining(0x4b534dc3, 0x0e8d2e44, 0x9d2a6e33, 0x75292030), 0x504f4e4d, 0xf4d50d87, 0xd473b564);
    Next2(11, from, x, Chaining(0x75292030, 0xd473b564, 0x0e8d2e44, 0x9d2a6e33), 0x6a696867, 0x455a14ed, 0xf2ff6ea0);
    Next2(12, from, x, Chaining(0x9d2a6e33, 0xf2ff6ea0, 0xd473b564, 0x0e8d2e44), 0x33323130, 0xa9e3e905, 0x9b085fa9);
    Next2(13, from, x, Chaining(0x0e8d2e44, 0x9b085fa9, 0xf2ff6ea0, 0xd473b564), 0x4c4b4a49, 0xfcefa3f8, 0x4400a9bd);
    Next2(14, from, x, Chaining(0xd473b564, 0x4400a9bd, 0x9b085fa9, 0xf2ff6ea0), 0x66656463, 0x676f02d9, 0x5993248f);
    Next2(15, from, x, Chaining(0xf2ff6ea0, 0x5993248f, 0x4400a9bd, 0x9b085fa9), 0x7a797877, 0x8d2a4c8a, 0xdd789ecc);
  }

  lemma Block1Round3(from: Chaining, x: seq<word>)
    requires IsBlock1(x) && Operations(32, from, x) == Chaining(0x9b085fa9, 0xdd789ecc, 0x5993248f, 0x4400a9bd)
    ensures Operations(48, from, x) == Chaining(0x2dbee21d, 0xf166f514, 0xee46e961, 0xe95c3a43)
  {
    hide Operations;
    Next3(0, from, x, Chaining(0x9b085fa9, 0xdd789ecc, 0x5993248f, 0x4400a9bd), 0x58575655, 0xfffa3942, 0x21c8d2b7);
    Next3(1, from, x, Chaining(0x4400a9bd, 0x21c8d2b7, 0xdd789ecc, 0x5993248f), 0x6a696867, 0x8771f681, 0x1d55a18e);
    Next3(2, from, x, Chaining(0x5993248f, 0x1d55a18e, 0x21c8d2b7, 0xdd789ecc), 0x76757473, 0x6d9d6122, 0x056ec119);
    Next3(3, from, x, Chaining(0xdd789ecc, 0x056ec119, 0x1d55a18e, 0x21c8d2b7), 0x37363534, 0xfde5380c, 0x1b9504f8);
    Next3(4, from, x, Chaining(0x21c8d2b7, 0x1b9504f8, 0x056ec119, 0x1d55a18e), 0x48474645, 0xa4beea44, 0x436b7fe9);
    Next3(5, from, x, Chaining(0x1d55a18e, 0x436b7fe9, 0x1b9504f8, 0x056ec119), 0x54535251, 0x4bdecfa9, 0x075800c1);
    Next3(6, from, x, Chaining(0x056ec119, 0x075800c1, 0x436b7fe9, 0x1b9504f8), 0x66656463, 0xf6bb4b60, 0xf404c2f6);
    Next3(7, from, x, Chaining(0x1b9504f8, 0xf404c2f6, 0x075800c1, 0x436b7fe9), 0x7271706f, 0xbebfbc70, 0xcf0341ed);
    Next3(8, from, x, Chaining(0x436b7fe9, 0xcf0341ed, 0xf404c2f6, 0x075800c1), 0x33323130, 0x289b7ec6, 0x888e7d8a);
    Next3(9, from, x, Chaining(0x075800c1, 0x888e7d8a, 0xcf0341ed, 0xf404c2f6), 0x44434241, 0xeaa127fa, 0xbbdaecd8);
    Next3(10, from, x, Chaining(0xf404c2f6, 0xbbdaecd8, 0x888e7d8a, 0xcf0341ed), 0x504f4e4d, 0xd4ef3085, 0xce620273);
    Next3(11, from, x, Chaining(0xcf0341ed, 0xce620273, 0xbbdaecd8, 0x888e7d8a), 0x62615a59, 0x04881d05, 0x047b9419);
    Next3(12, from, x, Chaining(0x888e7d8a, 0x047b9419, 0xce620273, 0xbbdaecd8), 0x6e6d6c6b, 0xd9d4d039, 0x2dbee21d);
    Next3(13, from, x, Chaining(0xbbdaecd8, 0x2dbee21d, 0x047b9419, 0xce620273), 0x7a797877, 0xe6db99e5, 0xe95c3a43);
    Next3(14, from, x, Chaining(0xce620273, 0xe95c3a43, 0x2dbee21d, 0x047b9419), 0x00803938, 0x1fa27cf8, 0xee46e961);
    Next3(15, from, x, Chaining(0x047b9419, 0xee46e961, 0xe95c3a43, 0x2dbee21d), 0x4c4b4a49, 0xc4ac5665, 0xf166f514);
  }

  lemma Block1Round4(from: Chaining, x: seq<word>)
    requires IsBlock1(x) && Operations(48, from, x) == Chaining(0x2dbee21d, 0xf166f514, 0xee46e961, 0xe95c3a43)
    ensures Operations(64, from, x) == Chaining(0x1cb80f0a, 0xef2e3a46, 0x10f68731, 0xea3d3eb4)
  {
    hide Operations;
    Next4(0, from, x, Chaining(0x2dbee21d, 0xf166f514, 0xee46e961, 0xe95c3a43), 0x44434241, 0xf4292244, 0xe47fd4f3);
    Next4(1, from, x, Chaining(0xe95c3a43, 0xe47fd4f3, 0xf166f514, 0xee46e961), 0x66656463, 0x432aff97, 0xfb887751);
    Next4(2, from, x, Chaining(0xee46e961, 0xfb887751, 0xe47fd4f3, 0xf166f514), 0x37363534, 0xab9423a7, 0xf22aedcc);
    Next4(3, from, x, Chaining(0xf166f514, 0xf22aedcc, 0xfb887751, 0xe47fd4f3), 0x58575655, 0xfc93a039, 0x7a13bc5c);
    Next4(4, from, x, Chaining(0xe47fd4f3, 0x7a13bc5c, 0xf22aedcc, 0xfb887751), 0x7a797877, 0x655b59c3, 0xa691d430);
    Next4(5, from, x, Chaining(0xfb887751, 0xa691d430, 0x7a13bc5c, 0xf22aedcc), 0x504f4e4d, 0x8f0ccc92, 0x528452f2);
    Next4(6, from, x, Chaining(0xf22aedcc, 0x528452f2, 0xa691d430, 0x7a13bc5c), 0x7271706f, 0xffeff47d, 0x3fc23df6);
    Next4(7, from, x, Chaining(0x7a13bc5c, 0x3fc23df6, 0x528452f2, 0xa691d430), 0x48474645, 0x85845dd1, 0xefb0e72f);
    Next4(8, from, x, Chaining(0xa691d430, 0xefb0e72f, 0x3fc23df6, 0x528452f2), 0x6a696867, 0x6fa87e4f, 0x27145703);
    Next4(9, from, x, Chaining(0x528452f2, 0x27145703, 0xefb0e72f, 0x3fc23df6), 0x00803938, 0xfe2ce6e0, 0x21a11069);
    Next4(10, from, x, Chaining(0x3fc23df6, 0x21a11069, 0x27145703, 0xefb0e72f), 0x62615a59, 0xa3014314, 0x374fbe79);
    Next4(11, from, x, Chaining(0xefb0e72f, 0x374fbe79, 0x21a11069, 0x27145703), 0x33323130, 0x4e0811a1, 0x49d9a5b4);
    Next4(12, from, x, Chaining(0x27145703, 0x49d9a5b4, 0x374fbe79, 0x21a11069), 0x54535251, 0xf7537e82, 0x1cb80f0a);
    Next4(13, from, x, Chaining(0x21a11069, 0x1cb80f0a, 0x49d9a5b4, 0x374fbe79), 0x76757473, 0xbd3af235, 0xea3d3eb4);
    Next4(14, from, x, Chaining(0x374fbe79, 0xea3d3eb4, 0x1cb80f0a, 0x49d9a5b4), 0x4c4b4a49, 0x2ad7d2bb, 0x10f68731);
    Next4(15, from, x, Chaining(0x49d9a5b4, 0x10f68731, 0xea3d3eb4, 0x1cb80f0a), 0x6e6d6c6b, 0xeb86d391, 0xef2e3a46);
  }

  lemma Block2Round1(from: Chaining, x: seq<word>)
    requires IsBlock2(x) && Operations(0, from, x) == Chaining(0x83fd320b, 0xdefbe5cf, 0xa9b1642f, 0xfa6f932a)
    ensures Operations(16, from, x) == Chaining(0xa70737da, 0xa36f556f, 0x96f6586e, 0x5473f8a7)
  {
    hide Operations;
    Next1(0, from, x, Chaining(0x83fd320b, 0xdefbe5cf, 0xa9b1642f, 0xfa6f932a), 0x00000000, 0xd76aa478, 0xeda23ed1);
    Next1(1, from, x, Chaining(0xfa6f932a, 0xeda23ed1, 0xdefbe5cf, 0xa9b1642f), 0x00000000, 0xe8c7b756, 0x989939cf);
    Next1(2, from, x, Chaining(0xa9b1642f, 0x989939cf, 0xeda23ed1, 0xdefbe5cf), 0x00000000, 0x242070db, 0x3c307338);
    Next1(3, from, x, Chaining(0xdefbe5cf, 0x3c307338, 0x989939cf, 0xeda23ed1), 0x00000000, 0xc1bdceee, 0xddcf0634);
    Next1(4, from, x, Chaining(0xeda23ed1, 0xddcf0634, 0x3c307338, 0x989939cf), 0x00000000, 0xf57c0faf, 0x75144433);
    Next1(5, from, x, Chaining(0x989939cf, 0x75144433, 0xddcf0634, 0x3c307338), 0x00000000, 0x4787c62a, 0xc8875807);
    Next1(6, from, x, Chaining(0x3c307338, 0xc8875807, 0x75144433, 0xddcf0634), 0x00000000, 0xa8304613, 0xc783cb60);
    Next1(7, from, x, Chaining(0xddcf0634, 0xc783cb60, 0xc8875807, 0x75144433), 0x00000000, 0xfd469501, 0x99b6b699);
    Next1(8, from, x, Chaining(0x75144433, 0x99b6b699, 0xc783cb60, 0xc8875807), 0x00000000, 0x698098d8, 0xa60a3f69);
    Next1(9, from, x, Chaining(0xc8875807, 0xa60a3f69, 0x99b6b699, 0xc783cb60), 0x00000000, 0x8b44f7af, 0xaa6630be);
    Next1(10, from, x, Chaining(0xc783cb60, 0xaa6630be, 0xa60a3f69, 0x99b6b699), 0x00000000, 0xffff5bb1, 0x64db26e9);
    Next1(11, from, x, Chaining(0x99b6b699, 0x64db26e9, 0xaa6630be, 0xa60a3f69), 0x00000000, 0x895cd7be, 0x64cc7c5a);
    Next1(12, from, x, Chaining(0xa60a3f69, 0x64cc7c5a, 0x64db26e9, 0xaa6630be), 0x00000000, 0x6b901122, 0xa70737da);
    Next1(13, from, x, Chaining(0xaa6630be, 0xa70737da, 0x64cc7c5a, 0x64db26e9), 0x00000000, 0xfd987193, 0x5473f8a7);
    Next1(14, from, x, Chaining(0x64db26e9, 0x5473f8a7, 0xa70737da, 0x64cc7c5a), 0x000001f0, 0xa679438e, 0x96f6586e);
    Next1(15, from, x, Chaining(0x64cc7c5a, 0x96f6586e, 0x5473f8a7, 0xa70737da), 0x00000000, 0x49b40821, 0xa36f556f);
  }

  lemma Block2Round2(from: Chaining, x: seq<word>)
    requires IsBlock2(x) && Operations(16, from, x) == Chaining(0xa70737da, 0xa36f556f, 0x96f6586e, 0x5473f8a7)
    ensures Operations(32, from, x) == Chaining(0x24eba695, 0x9c03e2e8, 0x10c42a2f, 0x4bd0378b)
  {
    hide Operations;
    Next2(0, from, x, Chaining(0xa70737da, 0xa36f556f, 0x96f6586e, 0x5473f8a7), 0x00000000, 0xf61e2562, 0xa5050ad3);
    Next2(1, from, x, Chaining(0x5473f8a7, 0xa5050ad3, 0xa36f556f, 0x96f6586e), 0x00000000, 0xc040b340, 0x28776046);
    Next2(2, from, x, Chaining(0x96f6586e, 0x28776046, 0xa5050ad3, 0xa36f556f), 0x00000000, 0x265e5a51, 0x27dcd8b4);
    Next2(3, from, x, Chaining(0xa36f556f, 0x27dcd8b4, 0x28776046, 0xa5050ad3), 0x00000000, 0xe9b6c7aa, 0x82b8827c);
    Next2(4, from, x, Chaining(0xa5050ad3, 0x82b8827c, 0x27dcd8b4, 0x28776046), 0x00000000, 0xd62f105d, 0xe04f070c);
    Next2(5, from, x, Chaining(0x28776046, 0xe04f070c, 0x82b8827c, 0x27dcd8b4), 0x00000000, 0x02441453, 0x2f3cd2a2);
    Next2(6, from, x, Chaining(0x27dcd8b4, 0x2f3cd2a2, 0xe04f070c, 0x82b8827c), 0x00000000, 0xd8a1e681, 0xc0d22b61);
    Next2(7, from, x, Chaining(0x82b8827c, 0xc0d22b61, 0x2f3cd2a2, 0xe04f070c), 0x00000000, 0xe7d3fbc8, 0xdf35cb56);
    Next2(8, from, x, Chaining(0xe04f070c, 0xdf35cb56, 0xc0d22b61, 0x2f3cd2a2), 0x00000000, 0x21e1cde6, 0x242dd210);
    Next2(9, from, x, Chaining(0x2f3cd2a2, 0x242dd210, 0xdf35cb56, 0xc0d22b61), 0x000001f0, 0xc33707d6, 0x576ace33);
    Next2(10, from, x, Chaining(0xc0d22b61, 0x576ace33, 0x242dd210, 0xdf35cb56), 0x00000000, 0xf4d50d87, 0x5c295967);
    Next2(11, from, x, Chaining(0xdf35cb56, 0x5c295967, 0x576ace33, 0x242dd210), 0x00000000, 0x455a14ed, 0x2291191a);
    Next2(12, from, x, Chaining(0x242dd210, 0x2291191a, 0x5c295967, 0x576ace33), 0x00000000, 0xa9e3e905, 0x24eba695);
    Next2(13, from, x, Chaining(0x576ace33, 0x24eba695, 0x2291191a, 0x5c295967), 0x00000000, 0xfcefa3f8, 0x4bd0378b);
    Next2(14, from, x, Chaining(0x5c295967, 0x4bd0378b, 0x24eba695, 0x2291191a), 0x00000000, 0x676f02d9, 0x10c42a2f);
    Next2(15, from, x, Chaining(0x2291191a, 0x10c42a2f, 0x4bd0378b, 0x24eba695), 0x00000000, 0x8d2a4c8a, 0x9c03e2e8);
  }

  lemma Block2Round3(from: Chaining, x: seq<word>)
    requires IsBlock2(x) && Operations(32, from, x) == Chaining(0x24eba695, 0x9c03e2e8, 0x10c42a2f, 0x4bd0378b)
    ensures Operations(48, from, x) == Chaining(0x54c9eb3a, 0x79c0710a, 0x2ec86f72, 0xd4d9c6ac)
  {
    hide Operations;
    Next3(0, from, x, Chaining(0x24eba695, 0x9c03e2e8, 0x10c42a2f, 0x4bd0378b), 0x00000000, 0xfffa3942, 0x5be1d526);
    Next3(1, from, x, Chaining(0x4bd0378b, 0x5be1d526, 0x9c03e2e8, 0x10c42a2f), 0x00000000, 0x8771f681, 0x9e414279);
    Next3(2, from, x, Chaining(0x10c42a2f, 0x9e414279, 0x5be1d526, 0x9c03e2e8), 0x00000000, 0x6d9d6122, 0x9f4a1a7e);
    Next3(3, from, x, Chaining(0x9c03e2e8, 0x9f4a1a7e, 0x9e414279, 0x5be1d526), 0x000001f0, 0xfde5380c, 0xa2448453);
    Next3(4, from, x, Chaining(0x5be1d526, 0xa2448453, 0x9f4a1a7e, 0x9e414279), 0x00000000, 0xa4beea44, 0xe14e403d);
    Next3(5, from, x, Chaining(0x9e414279, 0xe14e403d, 0xa2448453, 0x9f4a1a7e), 0x00000000, 0x4bdecfa9, 0xe8cfd670);
    Next3(6, from, x, Chaining(0x9f4a1a7e, 0xe8cfd670, 0xe14e403d, 0xa2448453), 0x00000000, 0xf6bb4b60, 0x60cc183a);
    Next3(7, from, x, Chaining(0xa2448453, 0x60cc183a, 0xe8cfd670, 0xe14e403d), 0x00000000, 0xbebfbc70, 0xfe314121);
    Next3(8, from, x, Chaining(0xe14e403d, 0xfe314121, 0x60cc183a, 0xe8cfd670), 0x00000000, 0x289b7ec6, 0xfff62809);
    Next3(9, from, x, Chaining(0xe8cfd670, 0xfff62809, 0xfe314121, 0x60cc183a), 0x00000000, 0xeaa127fa, 0xe37209ac);
    Next3(10, from, x, Chaining(0x60cc183a, 0xe37209ac, 0xfff62809, 0xfe314121), 0x00000000, 0xd4ef3085, 0x8cb5221c);
    Next3(11, from, x, Chaining(0xfe314121, 0x8cb5221c, 0xe37209ac, 0xfff62809), 0x00000000, 0x04881d05, 0x7c7e974c);
    Next3(12, from, x, Chaining(0xfff62809, 0x7c7e974c, 0x8cb5221c, 0xe37209ac), 0x00000000, 0xd9d4d039, 0x54c9eb3a);
    Next3(13, from, x, Chaining(0xe37209ac, 0x54c9eb3a, 0x7c7e974c, 0x8cb5221c), 0x00000000, 0xe6db99e5, 0xd4d9c6ac);
    Next3(14, from, x, Chaining(0x8cb5221c, 0xd4d9c6ac, 0x54c9eb3a, 0x7c7e974c), 0x00000000, 0x1fa27cf8, 0x2ec86f72);
    Next3(15, from, x, Chaining(0x7c7e974c, 0x2ec86f72, 0xd4d9c6ac, 0x54c9eb3a), 0x00000000, 0xc4ac5665, 0x79c0710a);
  }

  lemma Block2Round4(from: Chaining, x: seq<word>)
    requires IsBlock2(x) && Operations(48, from, x) == Chaining(0x54c9eb3a, 0x79c0710a, 0x2ec86f72, 0xd4d9c6ac)
    ensures Operations(64, from, x) == Chaining(0x14ae42c6, 0x16dd9203, 0x826afd76, 0xa52dae75)
  {
    hide Operations;
    Next4(0, from, x, Chaining(0x54c9eb3a, 0x79c0710a, 0x2ec86f72, 0xd4d9c6ac), 0x00000000, 0xf4292244, 0x02095af1);
    Next4(1, from, x, Chaining(0xd4d9c6ac, 0x02095af1, 0x79c0710a, 0x2ec86f72), 0x00000000, 0x432aff97, 0x13d245fd);
    Next4(2, from, x, Chaining(0x2ec86f72, 0x13d245fd, 0x02095af1, 0x79c0710a), 0x000001f0, 0xab9423a7, 0xa8dcfe26);
    Next4(3, from, x, Chaining(0x79c0710a, 0xa8dcfe26, 0x13d245fd, 0x02095af1), 0x00000000, 0xfc93a039, 0x2ba98e3f);
    Next4(4, from, x, Chaining(0x02095af1, 0x2ba98e3f, 0xa8dcfe26, 0x13d245fd), 0x00000000, 0x655b59c3, 0xe126c1aa);
    Next4(5, from, x, Chaining(0x13d245fd, 0xe126c1aa, 0x2ba98e3f, 0xa8dcfe26), 0x00000000, 0x8f0ccc92, 0x96b00fa7);
    Next4(6, from, x, Chaining(0xa8dcfe26, 0x96b00fa7, 0xe126c1aa, 0x2ba98e3f), 0x00000000, 0xffeff47d, 0x6f287ff5);
    Next4(7, from, x, Chaining(0x2ba98e3f, 0x6f287ff5, 0x96b00fa7, 0xe126c1aa), 0x00000000, 0x85845dd1, 0xfb7bcee0);
    Next4(8, from, x, Chaining(0xe126c1aa, 0xfb7bcee0, 0x6f287ff5, 0x96b00fa7), 0x00000000, 0x6fa87e4f, 0x452c1099);
    Next4(9, from, x, Chaining(0x96b00fa7, 0x452c1099, 0xfb7bcee0, 0x6f287ff5), 0x00000000, 0xfe2ce6e0, 0xca801ba6);
    Next4(10, from, x, Chaining(0x6f287ff5, 0xca801ba6, 0x452c1099, 0xfb7bcee0), 0x00000000, 0xa3014314, 0xc197ea8e);
    Next4(11, from, x, Chaining(0xfb7bcee0, 0xc197ea8e, 0xca801ba6, 0x452c1099), 0x00000000, 0x4e0811a1, 0x5ac74608);
    Next4(12, from, x, Chaining(0x452c1099, 0x5ac74608, 0xc197ea8e, 0xca801ba6), 0x00000000, 0xf7537e82, 0x14ae42c6);
    Next4(13, from, x, Chaining(0xca801ba6, 0x14ae42c6, 0x5ac74608, 0xc197ea8e), 0x00000000, 0xbd3af235, 0xa52dae75);
    Next4(14, from, x, Chaining(0xc197ea8e, 0xa52dae75, 0x14ae42c6, 0x5ac74608), 0x00000000, 0x2ad7d2bb, 0x826afd76);
    Next4(15, from, x, Chaining(0x5ac74608, 0x826afd76, 0xa52dae75, 0x14ae42c6), 0x00000000, 0xeb86d391, 0x16dd9203);
  }

  lemma NoOperations(from: Chaining, x: seq<word>)
    requires |x| == 16
    ensures Operations(0, from, x) == from
  {
  }

  lemma Block1(x: seq<word>)
    requires IsBlock1(x)
    ensures Compress(Chaining(0x67452301, 0xefcdab89, 0x98badcfe, 0x10325476), x) ==
            Chaining(0x83fd320b, 0xdefbe5cf, 0xa9b1642f, 0xfa6f932a)
  {
    hide Operations, IsBlock1;
    assert |x| == 16 by { Sixteen1(x); }
    var from := Chaining(0x67452301, 0xefcdab89, 0x98badcfe, 0x10325476);
    NoOperations(from, x);
    Block1Round1(from, x);
    Block1Round2(from, x);
    Block1Round3(from, x);
    Block1Round4(from, x);
  }

  lemma Sixteen1(x: seq<word>)
    requires IsBlock1(x)
    ensures |x| == 16
  {
  }

  lemma Block2(x: seq<word>)
    requires IsBlock2(x)
    ensures Compress(Chaining(0x83fd320b, 0xdefbe5cf, 0xa9b1642f, 0xfa6f932a), x) ==
            Chaining(0x98ab74d1, 0xf5d977d2, 0x2c1c61a5, 0x9f9d419f)
  {
    hide Operations, IsBlock2;
    assert |x| == 16 by { Sixteen2(x); }
    var from := Chaining(0x83fd320b, 0xdefbe5cf, 0xa9b1642f, 0xfa6f932a);
    NoOperations(from, x);
    Block2Round1(from, x);
    Block2Round2(from, x);
    Block2Round3(from, x);
    Block2Round4(from, x);
  }

  lemma Sixteen2(x: seq<word>)
    requires IsBlock2(x)
    ensures |x| == 16
  {
  }

  // The padded message.

  lemma PaddedByte(k: nat)
    requires k < 128
    ensures var p := Pad(LettersAndDigits()); |p| == 128 && p[k] == ByteOf(k)
  {
    hide Pad;
    var m := LettersAndDigits();
    Md5.PadLayout(m);
    Md5.LengthLayout(m, 496, 0);
    LengthStored();
    if k >= 124 {
      assert Pad(m)[124..128][k - 124] == Pad(m)[k];
    } else if k >= 120 {
      assert Pad(m)[120..124][k - 120] == Pad(m)[k];
    }
  }

  lemma LengthStored()
    ensures Store(ToWord(496)) == [0xf0, 1, 0, 0] && Store(ToWord(0)) == [0, 0, 0, 0]
  {
    assert ToWord(496) == 0x1f0;
  }

  lemma WordAt(p: seq<byte>, n: nat, j: nat)
    requires 64 * n + 64 <= |p| && j < 16
    ensures var k := 64 * n + 4 * j;
            Words(p[64 * n..64 * n + 64])[j] == Load([p[k], p[k + 1], p[k + 2], p[k + 3]])
  {
    hide Load;
    var k, block := 64 * n + 4 * j, p[64 * n..64 * n + 64];
    Md5.InnerSlice(p, 64 * n, 64 * n + 64, 4 * j, 4 * j + 4);
    assert p[k..k + 4] == [p[k], p[k + 1], p[k + 2], p[k + 3]];
  }

  lemma PaddedWord(n: nat, j: nat)
    requires n < 2 && j < 16
    ensures var p := Pad(LettersAndDigits());
            |p| == 128 && Words(p[64 * n..64 * n + 64])[j] == Load(FourBytes(64 * n + 4 * j))
  {
    hide Pad, Load, Words, ByteOf, LettersAndDigits;
    var p, k := Pad(LettersAndDigits()), 64 * n + 4 * j;
    PaddedByte(k);
    PaddedByte(k + 1);
    PaddedByte(k + 2);
    PaddedByte(k + 3);
    WordAt(p, n, j);
  }

  function FourBytes(k: nat): (b: seq<byte>)
    ensures |b| == 4
  {
    [ByteOf(k), ByteOf(k + 1), ByteOf(k + 2), ByteOf(k + 3)]
  }

  lemma PaddedBlock1()
    ensures var p := Pad(LettersAndDigits()); |p| == 128 && IsBlock1(Words(p[0..64]))
  {
    hide Pad, Words, Load, FourBytes, LettersAndDigits;
    Words0And1();
    PaddedWord(0, 0);
    PaddedWord(0, 1);
    Words2And3();
    PaddedWord(0, 2);
    PaddedWord(0, 3);
    Words4And5();
    PaddedWord(0, 4);
    PaddedWord(0, 5);
    Words6And7();
    PaddedWord(0, 6);
    PaddedWord(0, 7);
    Words8And9();
    PaddedWord(0, 8);
    PaddedWord(0, 9);
    Words10And11();
    PaddedWord(0, 10);
    PaddedWord(0, 11);
    Words12And13();
    PaddedWord(0, 12);
    PaddedWord(0, 13);
    Words14And15();
    PaddedWord(0, 14);
    PaddedWord(0, 15);
  }

  lemma PaddedBlock2()
    ensures var p := Pad(LettersAndDigits()); |p| == 128 && IsBlock2(Words(p[64..128]))
  {
    hide Pad, Words, Load, FourBytes, LettersAndDigits;
    PaddedWord(1, 0);
    var x := Words(Pad(LettersAndDigits())[64..128]);
    forall j | 0 <= j < 16
      ensures x[j] == if j == 14 then 0x1f0 else 0
    {
      PaddedWord(1, j);
      if j == 14 {
        LengthWord();
      } else {
        ZeroWord(j);
      }
    }
  }

  lemma LoadIs(k: nat, a: byte, b: byte, c: byte, d: byte, w: word)
    requires ByteOf(k) == a && ByteOf(k + 1) == b && ByteOf(k + 2) == c && ByteOf(k + 3) == d
    requires Load([a, b, c, d]) == w
    ensures Load(FourBytes(k)) == w
  {
    hide ByteOf, Load;
  }

  lemma Words0And1()
    ensures Load(FourBytes(0)) == 0x44434241 && Load(FourBytes(4)) == 0x48474645
  {
    hide FourBytes;
    LoadIs(0, 0x41, 0x42, 0x43, 0x44, 0x44434241);
    LoadIs(4, 0x45, 0x46, 0x47, 0x48, 0x48474645);
  }

  lemma Words2And3()
    ensures Load(FourBytes(8)) == 0x4c4b4a49 && Load(FourBytes(12)) == 0x504f4e4d
  {
    hide FourBytes;
    LoadIs(8, 0x49, 0x4a, 0x4b, 0x4c, 0x4c4b4a49);
    LoadIs(12, 0x4d, 0x4e, 0x4f, 0x50, 0x504f4e4d);
  }

  lemma Words4And5()
    ensures Load(FourBytes(16)) == 0x54535251 && Load(FourBytes(20)) == 0x58575655
  {
    hide FourBytes;
    LoadIs(16, 0x51, 0x52, 0x53, 0x54, 0x54535251);
    LoadIs(20, 0x55, 0x56, 0x57, 0x58, 0x58575655);
  }

  lemma Words6And7()
    ensures Load(FourBytes(24)) == 0x62615a59 && Load(FourBytes(28)) == 0x66656463
  {
    hide FourBytes;
    LoadIs(24, 0x59, 0x5a, 0x61, 0x62, 0x62615a59);
    LoadIs(28, 0x63, 0x64, 0x65, 0x66, 0x66656463);
  }

  lemma Words8And9()
    ensures Load(FourBytes(32)) == 0x6a696867 && Load(FourBytes(36)) == 0x6e6d6c6b
  {
    hide FourBytes;
    LoadIs(32, 0x67, 0x68, 0x69, 0x6a, 0x6a696867);
    LoadIs(36, 0x6b, 0x6c, 0x6d, 0x6e, 0x6e6d6c6b);
  }

  lemma Words10And11()
    ensures Load(FourBytes(40)) == 0x7271706f && Load(FourBytes(44)) == 0x76757473
  {
    hide FourBytes;
    LoadIs(40, 0x6f, 0x70, 0x71, 0x72, 0x7271706f);
    LoadIs(44, 0x73, 0x74, 0x75, 0x76, 0x76757473);
  }

  lemma Words12And13()
    ensures Load(FourBytes(48)) == 0x7a797877 && Load(FourBytes(52)) == 0x33323130
  {
    hide FourBytes;
    LoadIs(48, 0x77, 0x78, 0x79, 0x7a, 0x7a797877);
    LoadIs(52, 0x30, 0x31, 0x32, 0x33, 0x33323130);
  }

  lemma Words14And15()
    ensures Load(FourBytes(56)) == 0x37363534 && Load(FourBytes(60)) == 0x00803938
  {
    hide FourBytes;
    LoadIs(56, 0x34, 0x35, 0x36, 0x37, 0x37363534);
    LoadIs(60, 0x38, 0x39, 0x80, 0x00, 0x00803938);
  }

  lemma ZeroWord(j: nat)
    requires j < 16 && j != 14
    ensures Load(FourBytes(64 + 4 * j)) == 0
  {
    hide FourBytes;
    LoadIs(64 + 4 * j, 0, 0, 0, 0, 0);
  }

  lemma LengthWord()
    ensures Load(FourBytes(120)) == 0x1f0
  {
    hide FourBytes;
    LoadIs(120, 0xf0, 1, 0, 0, 0x1f0);
  }

  /** The digest of the RFC's suite for the letters and digits. */
  lemma SuiteDigest()
    ensures Digest(LettersAndDigits()) ==
            [0xd1, 0x74, 0xab, 0x98, 0xd2, 0x77, 0xd9, 0xf5,
             0xa5, 0x61, 0x1c, 0x2c, 0x9f, 0x41, 0x9d, 0x9f]
  {
    hide Pad, Words, Compress, Store, IsBlock1, IsBlock2, LettersAndDigits;
    var m := LettersAndDigits();
    var p := Pad(m);
    PaddedBlock1();
    PaddedBlock2();
    Block1(Words(p[0..64]));
    Block2(Words(p[64..128]));
    assert BlockCount(|m|) == 2;
    assert Fold(0, p) == INITIAL;
    assert Fold(1, p) == Compress(INITIAL, Words(p[0..64]));
    assert Fold(2, p) == Compress(Fold(1, p), Words(p[64..128]));
    DigestWords();
  }

  lemma DigestWords()
    ensures Store(0x98ab74d1) == [0xd1, 0x74, 0xab, 0x98]
    ensures Store(0xf5d977d2) == [0xd2, 0x77, 0xd9, 0xf5]
    ensures Store(0x2c1c61a5) == [0xa5, 0x61, 0x1c, 0x2c]
    ensures Store(0x9f9d419f) == [0x9f, 0x41, 0x9d, 0x9f]
  {
  }
}
