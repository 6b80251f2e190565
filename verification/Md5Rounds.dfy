module Md5Rounds {
  import opened Rfc1321

  function F1(x: word, y: word, z: word): word {
    z ^ (x & (y ^ z))
  }

  function F2(x: word, y: word, z: word): word {
    F1(z, x, y)
  }

  function F3(x: word, y: word, z: word): word {
    x ^ y ^ z
  }

  function F4(x: word, y: word, z: word): word {
    y ^ (x | !z)
  }

  lemma SelectByXor(x: word, y: word, z: word)
    ensures z ^ (x & (y ^ z)) == (x & y) | (!x & z)
  {
  }

  lemma SelectLastByXor(x: word, y: word, z: word)
    ensures y ^ (z & (x ^ y)) == (x & z) | (y & !z)
  {
  }

  lemma F1IsF(x: word, y: word, z: word)
    ensures F1(x, y, z) == F(x, y, z)
  {
    calc {
      F1(x, y, z);
      z ^ (x & (y ^ z));
      { SelectByXor(x, y, z); }
      (x & y) | (!x & z);
      F(x, y, z);
    }
  }

  lemma F2IsG(x: word, y: word, z: word)
    ensures F2(x, y, z) == G(x, y, z)
  {
    calc {
      F2(x, y, z);
      y ^ (z & (x ^ y));
      { SelectLastByXor(x, y, z); }
      (x & z) | (y & !z);
      G(x, y, z);
    }
  }

  lemma F3IsH(x: word, y: word, z: word)
    ensures F3(x, y, z) == H(x, y, z)
  {
  }

  lemma F4IsI(x: word, y: word, z: word)
    ensures F4(x, y, z) == I(x, y, z)
  {
  }

  lemma ShortForms(x: word, y: word, z: word)
    ensures F1(x, y, z) == F(x, y, z) && F2(x, y, z) == G(x, y, z)
    ensures F3(x, y, z) == H(x, y, z) && F4(x, y, z) == I(x, y, z)
  {
    hide *;
    F1IsF(x, y, z);
    F2IsG(x, y, z);
    F3IsH(x, y, z);
    F4IsI(x, y, z);
  }

  lemma AddAssociates(x: word, y: word, z: word)
    ensures Add(x, Add(y, z)) == Add(Add(x, y), z)
  {
    calc {
      Add(x, Add(y, z));
      x + Add(y, z);
      x + (y + z);
      (x + y) + z;
      Add(x, y) + z;
      Add(Add(x, y), z);
    }
  }

  lemma AddCommutes(x: word, y: word)
    ensures Add(x, y) == Add(y, x)
  {
  }

  /** The macro MD5STEP on words; its sum in the order the RFC writes it. */
  method Md5Step(f: word, w: word, x: word, ghost y: word, ghost z: word, key: word, sine: word, s: word)
    returns (r: word)
    requires s <= 32
    ensures Chaining(z, r, x, y) == Operation(f, Chaining(w, x, y, z), key, s, sine)
  {
    hide Add, RotateLeft;
    var data := Add(key, sine);
    var sum := Add(w, Add(f, data));
    r := Add(RotateLeft(sum, s), x);
    AddAssociates(w, f, data);
    AddAssociates(Add(w, f), key, sine);
    AddCommutes(RotateLeft(sum, s), x);
  }

  method Step1(ghost i: nat, ghost start: Chaining, block: seq<word>,
               w: word, x: word, y: word, z: word, key: nat, sine: word, s: word)
    returns (r: word)
    requires |block| == 16 && i < 16 && key == Word1(i) && sine == Sine1(i) && s == Shift1(i)
    requires Operations(i, start, block) == Chaining(w, x, y, z)
    ensures Operations(i + 1, start, block) == Chaining(z, r, x, y)
  {
    hide F, G, H, I, F1, F2, F3, F4, Operation;
    ShortForms(x, y, z);
    r := Md5Step(F1(x, y, z), w, x, y, z, block[key], sine, s);
  }

  method Step2(ghost i: nat, ghost start: Chaining, block: seq<word>,
               w: word, x: word, y: word, z: word, key: nat, sine: word, s: word)
    returns (r: word)
    requires |block| == 16 && i < 16 && key == Word2(i) && sine == Sine2(i) && s == Shift2(i)
    requires Operations(16 + i, start, block) == Chaining(w, x, y, z)
    ensures Operations(16 + i + 1, start, block) == Chaining(z, r, x, y)
  {
    hide F, G, H, I, F1, F2, F3, F4, Operation;
    ShortForms(x, y, z);
    r := Md5Step(F2(x, y, z), w, x, y, z, block[key], sine, s);
  }

  method Step3(ghost i: nat, ghost start: Chaining, block: seq<word>,
               w: word, x: word, y: word, z: word, key: nat, sine: word, s: word)
    returns (r: word)
    requires |block| == 16 && i < 16 && key == Word3(i) && sine == Sine3(i) && s == Shift3(i)
    requires Operations(32 + i, start, block) == Chaining(w, x, y, z)
    ensures Operations(32 + i + 1, start, block) == Chaining(z, r, x, y)
  {
    hide F, G, H, I, F1, F2, F3, F4, Operation;
    ShortForms(x, y, z);
    r := Md5Step(F3(x, y, z), w, x, y, z, block[key], sine, s);
  }

  method Step4(ghost i: nat, ghost start: Chaining, block: seq<word>,
               w: word, x: word, y: word, z: word, key: nat, sine: word, s: word)
    returns (r: word)
    requires |block| == 16 && i < 16 && key == Word4(i) && sine == Sine4(i) && s == Shift4(i)
    requires Operations(48 + i, start, block) == Chaining(w, x, y, z)
    ensures Operations(48 + i + 1, start, block) == Chaining(z, r, x, y)
  {
    hide F, G, H, I, F1, F2, F3, F4, Operation;
    ShortForms(x, y, z);
    r := Md5Step(F4(x, y, z), w, x, y, z, block[key], sine, s);
  }

  method Round1(ghost start: Chaining, block: seq<word>, a0: word, b0: word, c0: word, d0: word)
    returns (a: word, b: word, c: word, d: word)
    requires |block| == 16
    requires Operations(0, start, block) == Chaining(a0, b0, c0, d0)
    ensures Operations(16, start, block) == Chaining(a, b, c, d)
  {
    hide Operation, Operations;
    a, b, c, d := a0, b0, c0, d0;
    a := Step1(0, start, block, a, b, c, d, 0, 0xd76aa478, 7);
    d := Step1(1, start, block, d, a, b, c, 1, 0xe8c7b756, 12);
    c := Step1(2, start, block, c, d, a, b, 2, 0x242070db, 17);
    b := Step1(3, start, block, b, c, d, a, 3, 0xc1bdceee, 22);
    a := Step1(4, start, block, a, b, c, d, 4, 0xf57c0faf, 7);
    d := Step1(5, start, block, d, a, b, c, 5, 0x4787c62a, 12);
    c := Step1(6, start, block, c, d, a, b, 6, 0xa8304613, 17);
    b := Step1(7, start, block, b, c, d, a, 7, 0xfd469501, 22);
    a := Step1(8, start, block, a, b, c, d, 8, 0x698098d8, 7);
    d := Step1(9, start, block, d, a, b, c, 9, 0x8b44f7af, 12);
    c := Step1(10, start, block, c, d, a, b, 10, 0xffff5bb1, 17);
    b := Step1(11, start, block, b, c, d, a, 11, 0x895cd7be, 22);
    a := Step1(12, start, block, a, b, c, d, 12, 0x6b901122, 7);
    d := Step1(13, start, block, d, a, b, c, 13, 0xfd987193, 12);
    c := Step1(14, start, block, c, d, a, b, 14, 0xa679438e, 17);
    b := Step1(15, start, block, b, c, d, a, 15, 0x49b40821, 22);
  }

  method Round2(ghost start: Chaining, block: seq<word>, a0: word, b0: word, c0: word, d0: word)
    returns (a: word, b: word, c: word, d: word)
    requires |block| == 16
    requires Operations(16, start, block) == Chaining(a0, b0, c0, d0)
    ensures Operations(32, start, block) == Chaining(a, b, c, d)
  {
    hide Operation, Operations;
    a, b, c, d := a0, b0, c0, d0;
    a := Step2(0, start, block, a, b, c, d, 1, 0xf61e2562, 5);
    d := Step2(1, start, block, d, a, b, c, 6, 0xc040b340, 9);
    c := Step2(2, start, block, c, d, a, b, 11, 0x265e5a51, 14);
    b := Step2(3, start, block, b, c, d, a, 0, 0xe9b6c7aa, 20);
    a := Step2(4, start, block, a, b, c, d, 5, 0xd62f105d, 5);
    d := Step2(5, start, block, d, a, b, c, 10, 0x02441453, 9);
    c := Step2(6, start, block, c, d, a, b, 15, 0xd8a1e681, 14);
    b := Step2(7, start, block, b, c, d, a, 4, 0xe7d3fbc8, 20);
    a := Step2(8, start, block, a, b, c, d, 9, 0x21e1cde6, 5);
    d := Step2(9, start, block, d, a, b, c, 14, 0xc33707d6, 9);
    c := Step2(10, start, block, c, d, a, b, 3, 0xf4d50d87, 14);
    b := Step2(11, start, block, b, c, d, a, 8, 0x455a14ed, 20);
    a := Step2(12, start, block, a, b, c, d, 13, 0xa9e3e905, 5);
    d := Step2(13, start, block, d, a, b, c, 2, 0xfcefa3f8, 9);
    c := Step2(14, start, block, c, d, a, b, 7, 0x676f02d9, 14);
    b := Step2(15, start, block, b, c, d, a, 12, 0x8d2a4c8a, 20);
  }

  method Round3(ghost start: Chaining, block: seq<word>, a0: word, b0: word, c0: word, d0: word)
    returns (a: word, b: word, c: word, d: word)
    requires |block| == 16
    requires Operations(32, start, block) == Chaining(a0, b0, c0, d0)
    ensures Operations(48, start, block) == Chaining(a, b, c, d)
  {
    hide Operation, Operations;
    a, b, c, d := a0, b0, c0, d0;
    a := Step3(0, start, block, a, b, c, d, 5, 0xfffa3942, 4);
    d := Step3(1, start, block, d, a, b, c, 8, 0x8771f681, 11);
    c := Step3(2, start, block, c, d, a, b, 11, 0x6d9d6122, 16);
    b := Step3(3, start, block, b, c, d, a, 14, 0xfde5380c, 23);
    a := Step3(4, start, block, a, b, c, d, 1, 0xa4beea44, 4);
    d := Step3(5, start, block, d, a, b, c, 4, 0x4bdecfa9, 11);
    c := Step3(6, start, block, c, d, a, b, 7, 0xf6bb4b60, 16);
    b := Step3(7, start, block, b, c, d, a, 10, 0xbebfbc70, 23);
    a := Step3(8, start, block, a, b, c, d, 13, 0x289b7ec6, 4);
    d := Step3(9, start, block, d, a, b, c, 0, 0xeaa127fa, 11);
    c := Step3(10, start, block, c, d, a, b, 3, 0xd4ef3085, 16);
    b := Step3(11, start, block, b, c, d, a, 6, 0x04881d05, 23);
    a := Step3(12, start, block, a, b, c, d, 9, 0xd9d4d039, 4);
    d := Step3(13, start, block, d, a, b, c, 12, 0xe6db99e5, 11);
    c := Step3(14, start, block, c, d, a, b, 15, 0x1fa27cf8, 16);
    b := Step3(15, start, block, b, c, d, a, 2, 0xc4ac5665, 23);
  }

  method Round4(ghost start: Chaining, block: seq<word>, a0: word, b0: word, c0: word, d0: word)
    returns (a: word, b: word, c: word, d: word)
    requires |block| == 16
    requires Operations(48, start, block) == Chaining(a0, b0, c0, d0)
    ensures Operations(64, start, block) == Chaining(a, b, c, d)
  {
    hide Operation, Operations;
    a, b, c, d := a0, b0, c0, d0;
    a := Step4(0, start, block, a, b, c, d, 0, 0xf4292244, 6);
    d := Step4(1, start, block, d, a, b, c, 7, 0x432aff97, 10);
    c := Step4(2, start, block, c, d, a, b, 14, 0xab9423a7, 15);
    b := Step4(3, start, block, b, c, d, a, 5, 0xfc93a039, 21);
    a := Step4(4, start, block, a, b, c, d, 12, 0x655b59c3, 6);
    d := Step4(5, start, block, d, a, b, c, 3, 0x8f0ccc92, 10);
    c := Step4(6, start, block, c, d, a, b, 10, 0xffeff47d, 15);
    b := Step4(7, start, block, b, c, d, a, 1, 0x85845dd1, 21);
    a := Step4(8, start, block, a, b, c, d, 8, 0x6fa87e4f, 6);
    d := Step4(9, start, block, d, a, b, c, 15, 0xfe2ce6e0, 10);
    c := Step4(10, start, block, c, d, a, b, 6, 0xa3014314, 15);
    b := Step4(11, start, block, b, c, d, a, 13, 0x4e0811a1, 21);
    a := Step4(12, start, block, a, b, c, d, 4, 0xf7537e82, 6);
    d := Step4(13, start, block, d, a, b, c, 11, 0xbd3af235, 10);
    c := Step4(14, start, block, c, d, a, b, 2, 0x2ad7d2bb, 15);
    b := Step4(15, start, block, b, c, d, a, 9, 0xeb86d391, 21);
  }

  lemma NoOperations(start: Chaining, block: seq<word>)
    requires |block| == 16
    ensures Operations(0, start, block) == start
  {
  }

  method Md5Transform(buf: array<word>, block: seq<word>)
    requires buf.Length == 4 && |block| == 16
    modifies buf
    ensures Chaining(buf[0], buf[1], buf[2], buf[3]) ==
            Compress(old(Chaining(buf[0], buf[1], buf[2], buf[3])), block)
  {
    hide Add, Operations;
    var a, b, c, d := buf[0], buf[1], buf[2], buf[3];
    ghost var start := Chaining(a, b, c, d);
    NoOperations(start, block);
    a, b, c, d := Round1(start, block, a, b, c, d);
    a, b, c, d := Round2(start, block, a, b, c, d);
    a, b, c, d := Round3(start, block, a, b, c, d);
    a, b, c, d := Round4(start, block, a, b, c, d);
    buf[0] := Add(buf[0], a);
    buf[1] := Add(buf[1], b);
    buf[2] := Add(buf[2], c);
    buf[3] := Add(buf[3], d);
  }
}
