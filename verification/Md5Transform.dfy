module Md5Transform {
  import opened Basics
  import opened Rfc1321

  // The optimised core functions.
  function F1(x: word, y: word, z: word): word { (Bits(z) ^ (Bits(x) & (Bits(y) ^ Bits(z)))) as int }
  function F2(x: word, y: word, z: word): word { F1(z, x, y) }
  function F3(x: word, y: word, z: word): word { (Bits(x) ^ Bits(y) ^ Bits(z)) as int }
  function F4(x: word, y: word, z: word): word { (Bits(y) ^ (Bits(x) | !Bits(z))) as int }

  function Core(f: nat, x: word, y: word, z: word): word
    requires 1 <= f <= 4
  {
    match f case 1 => F1(x, y, z) case 2 => F2(x, y, z) case 3 => F3(x, y, z) case _ => F4(x, y, z)
  }

  // The bit identities behind the optimised forms.
  lemma ChooseBits(x: bv32, y: bv32, z: bv32)
    ensures z ^ (x & (y ^ z)) == (x & y) | (!x & z)
  {}

  lemma ChooseBitsSwapped(x: bv32, y: bv32, z: bv32)
    ensures y ^ (z & (x ^ y)) == (x & z) | (y & !z)
  {}

  lemma F1IsF(x: word, y: word, z: word)
    ensures F1(x, y, z) == F(x, y, z)
  {
    ChooseBits(Bits(x), Bits(y), Bits(z));
  }

  lemma F2IsG(x: word, y: word, z: word)
    ensures F2(x, y, z) == G(x, y, z)
  {
    ChooseBitsSwapped(Bits(x), Bits(y), Bits(z));
  }

  lemma CoreIsAuxiliary(f: nat, i: nat, x: word, y: word, z: word)
    requires i < 64 && 16 * (f - 1) <= i < 16 * f
    ensures Core(f, x, y, z) == Auxiliary(i, x, y, z)
  {
    hide F1, F2, F, G;
    if f == 1 { F1IsF(x, y, z); } else if f == 2 { F2IsG(x, y, z); }
  }

  // A sum of uint32 terms may wrap around once at the end or after each term.
  lemma SumWraps(w: word, f: word, m: word, t: word)
    ensures (w + f + m + t) % 0x1_0000_0000 == Add(w, Add(Add(f, m), t))
  {
    WrapsEarly(f + m, t);
    WrapsEarly(f + m + t, w);
    assert Add(Add(f, m), t) == (f + m + t) % 0x1_0000_0000;
  }

  lemma WrapsEarly(a: int, b: int)
    requires 0 <= a && 0 <= b
    ensures (a % 0x1_0000_0000 + b) % 0x1_0000_0000 == (a + b) % 0x1_0000_0000
  {}

  // w<<s | w>>(32-s): what is shifted out at the top comes back at the bottom.
  method Rotate(w: word, s: nat) returns (r: word)
    requires 0 < s < 32
    ensures r == Rotl(w, s)
  {
    hide Pow2;
    Pow2Splits(s);
    var a, b := Pow2(32 - s), Pow2(s);
    RotatedFits(w, a, b);
    ShiftedOut(w, a, b);
    r := w * b % 0x1_0000_0000 + w / a;
  }

  lemma ShiftedOut(w: nat, a: nat, b: nat)
    requires a > 0 && b > 0 && a * b == 0x1_0000_0000
    ensures w * b % 0x1_0000_0000 == w % a * b
  {
    var q, r := w / a, w % a;
    assert w == a * q + r;
    Spread(a, q, r, b);
    Times(r, a - 1, b);
    assert (a - 1) * b == a * b - b;
  }

  lemma Spread(a: nat, q: nat, r: nat, b: nat)
    ensures (a * q + r) * b == (a * b) * q + r * b
  {}

  lemma StepIsOperation(i: nat, w: word, x: word, y: word, z: word, r: word, block: seq<word>)
    requires |block| == 16 && i < 64
    requires r == Add(x, Rotl(Add(w, Add(Add(Auxiliary(i, x, y, z), block[Index(i)]), Sine(i))), Shift(i)))
    ensures Operation(i, State(w, x, y, z), block) == State(z, r, x, y)
  {}

  lemma AddedLast(r: word, x: word)
    ensures (r + x) % 0x1_0000_0000 == Add(x, r)
  {}

  lemma OneMore(i: nat, s: State, x: seq<word>)
    requires |x| == 16 && i < 64
    ensures Steps(i, s, x) == Steps(i + 1, Operation(i, s, x), x)
  {}

  // One MD5STEP line. The ghost arguments say which operation of the reference it stands for.
  method Step(f: nat, w: word, x: word, y: word, z: word, m: word, t: word, s: nat,
              ghost i: nat, ghost block: seq<word>)
    returns (r: word)
    requires |block| == 16 && i < 64 && 16 * (f - 1) <= i < 16 * f
    requires m == block[Index(i)] && t == Sine(i) && s == Shift(i)
    ensures Steps(i, State(w, x, y, z), block) == Steps(i + 1, State(z, r, x, y), block)
  {
    hide *;
    r := (w + Core(f, x, y, z) + m + t) % 0x1_0000_0000;
    SumWraps(w, Core(f, x, y, z), m, t);
    CoreIsAuxiliary(f, i, x, y, z);
    r := Rotate(r, s);
    AddedLast(r, x);
    r := (r + x) % 0x1_0000_0000;
    StepIsOperation(i, w, x, y, z, r, block);
    OneMore(i, State(w, x, y, z), block);
  }

  // Round 1 of the unrolled body, four lines at a time.

  method Lines1To4(s: State, x: seq<word>) returns (t: State)
    requires |x| == 16
    ensures Steps(0, s, x) == Steps(4, t, x)
  {
    hide Steps, Add;
    var a, b, c, d := s.a, s.b, s.c, s.d;
    a := Step(1, a, b, c, d, x[0], 0xd76aa478, 7, 0, x);
    d := Step(1, d, a, b, c, x[1], 0xe8c7b756, 12, 1, x);
    c := Step(1, c, d, a, b, x[2], 0x242070db, 17, 2, x);
    b := Step(1, b, c, d, a, x[3], 0xc1bdceee, 22, 3, x);
    t := State(a, b, c, d);
  }

  method Lines5To8(s: State, x: seq<word>) returns (t: State)
    requires |x| == 16
    ensures Steps(4, s, x) == Steps(8, t, x)
  {
    hide Steps, Add;
    var a, b, c, d := s.a, s.b, s.c, s.d;
    a := Step(1, a, b, c, d, x[4], 0xf57c0faf, 7, 4, x);
    d := Step(1, d, a, b, c, x[5], 0x4787c62a, 12, 5, x);
    c := Step(1, c, d, a, b, x[6], 0xa8304613, 17, 6, x);
    b := Step(1, b, c, d, a, x[7], 0xfd469501, 22, 7, x);
    t := State(a, b, c, d);
  }

  method Lines9To12(s: State, x: seq<word>) returns (t: State)
    requires |x| == 16
    ensures Steps(8, s, x) == Steps(12, t, x)
  {
    hide Steps, Add;
    var a, b, c, d := s.a, s.b, s.c, s.d;
    a := Step(1, a, b, c, d, x[8], 0x698098d8, 7, 8, x);
    d := Step(1, d, a, b, c, x[9], 0x8b44f7af, 12, 9, x);
    c := Step(1, c, d, a, b, x[10], 0xffff5bb1, 17, 10, x);
    b := Step(1, b, c, d, a, x[11], 0x895cd7be, 22, 11, x);
    t := State(a, b, c, d);
  }

  method Lines13To16(s: State, x: seq<word>) returns (t: State)
    requires |x| == 16
    ensures Steps(12, s, x) == Steps(16, t, x)
  {
    hide Steps, Add;
    var a, b, c, d := s.a, s.b, s.c, s.d;
    a := Step(1, a, b, c, d, x[12], 0x6b901122, 7, 12, x);
    d := Step(1, d, a, b, c, x[13], 0xfd987193, 12, 13, x);
    c := Step(1, c, d, a, b, x[14], 0xa679438e, 17, 14, x);
    b := Step(1, b, c, d, a, x[15], 0x49b40821, 22, 15, x);
    t := State(a, b, c, d);
  }

  // Round 2 of the unrolled body, four lines at a time.

  method Lines17To20(s: State, x: seq<word>) returns (t: State)
    requires |x| == 16
    ensures Steps(16, s, x) == Steps(20, t, x)
  {
    hide Steps, Add;
    var a, b, c, d := s.a, s.b, s.c, s.d;
    a := Step(2, a, b, c, d, x[1], 0xf61e2562, 5, 16, x);
    d := Step(2, d, a, b, c, x[6], 0xc040b340, 9, 17, x);
    c := Step(2, c, d, a, b, x[11], 0x265e5a51, 14, 18, x);
    b := Step(2, b, c, d, a, x[0], 0xe9b6c7aa, 20, 19, x);
    t := State(a, b, c, d);
  }

  method Lines21To24(s: State, x: seq<word>) returns (t: State)
    requires |x| == 16
    ensures Steps(20, s, x) == Steps(24, t, x)
  {
    hide Steps, Add;
    var a, b, c, d := s.a, s.b, s.c, s.d;
    a := Step(2, a, b, c, d, x[5], 0xd62f105d, 5, 20, x);
    d := Step(2, d, a, b, c, x[10], 0x02441453, 9, 21, x);
    c := Step(2, c, d, a, b, x[15], 0xd8a1e681, 14, 22, x);
    b := Step(2, b, c, d, a, x[4], 0xe7d3fbc8, 20, 23, x);
    t := State(a, b, c, d);
  }

  method Lines25To28(s: State, x: seq<word>) returns (t: State)
    requires |x| == 16
    ensures Steps(24, s, x) == Steps(28, t, x)
  {
    hide Steps, Add;
    var a, b, c, d := s.a, s.b, s.c, s.d;
    a := Step(2, a, b, c, d, x[9], 0x21e1cde6, 5, 24, x);
    d := Step(2, d, a, b, c, x[14], 0xc33707d6, 9, 25, x);
    c := Step(2, c, d, a, b, x[3], 0xf4d50d87, 14, 26, x);
    b := Step(2, b, c, d, a, x[8], 0x455a14ed, 20, 27, x);
    t := State(a, b, c, d);
  }

  method Lines29To32(s: State, x: seq<word>) returns (t: State)
    requires |x| == 16
    ensures Steps(28, s, x) == Steps(32, t, x)
  {
    hide Steps, Add;
    var a, b, c, d := s.a, s.b, s.c, s.d;
    a := Step(2, a, b, c, d, x[13], 0xa9e3e905, 5, 28, x);
    d := Step(2, d, a, b, c, x[2], 0xfcefa3f8, 9, 29, x);
    c := Step(2, c, d, a, b, x[7], 0x676f02d9, 14, 30, x);
    b := Step(2, b, c, d, a, x[12], 0x8d2a4c8a, 20, 31, x);
    t := State(a, b, c, d);
  }

  // Round 3 of the unrolled body, four lines at a time.

  method Lines33To36(s: State, x: seq<word>) returns (t: State)
    requires |x| == 16
    ensures Steps(32, s, x) == Steps(36, t, x)
  {
    hide Steps, Add;
    var a, b, c, d := s.a, s.b, s.c, s.d;
    a := Step(3, a, b, c, d, x[5], 0xfffa3942, 4, 32, x);
    d := Step(3, d, a, b, c, x[8], 0x8771f681, 11, 33, x);
    c := Step(3, c, d, a, b, x[11], 0x6d9d6122, 16, 34, x);
    b := Step(3, b, c, d, a, x[14], 0xfde5380c, 23, 35, x);
    t := State(a, b, c, d);
  }

  method Lines37To40(s: State, x: seq<word>) returns (t: State)
    requires |x| == 16
    ensures Steps(36, s, x) == Steps(40, t, x)
  {
    hide Steps, Add;
    var a, b, c, d := s.a, s.b, s.c, s.d;
    a := Step(3, a, b, c, d, x[1], 0xa4beea44, 4, 36, x);
    d := Step(3, d, a, b, c, x[4], 0x4bdecfa9, 11, 37, x);
    c := Step(3, c, d, a, b, x[7], 0xf6bb4b60, 16, 38, x);
    b := Step(3, b, c, d, a, x[10], 0xbebfbc70, 23, 39, x);
    t := State(a, b, c, d);
  }

  method Lines41To44(s: State, x: seq<word>) returns (t: State)
    requires |x| == 16
    ensures Steps(40, s, x) == Steps(44, t, x)
  {
    hide Steps, Add;
    var a, b, c, d := s.a, s.b, s.c, s.d;
    a := Step(3, a, b, c, d, x[13], 0x289b7ec6, 4, 40, x);
    d := Step(3, d, a, b, c, x[0], 0xeaa127fa, 11, 41, x);
    c := Step(3, c, d, a, b, x[3], 0xd4ef3085, 16, 42, x);
    b := Step(3, b, c, d, a, x[6], 0x04881d05, 23, 43, x);
    t := State(a, b, c, d);
  }

  method Lines45To48(s: State, x: seq<word>) returns (t: State)
    requires |x| == 16
    ensures Steps(44, s, x) == Steps(48, t, x)
  {
    hide Steps, Add;
    var a, b, c, d := s.a, s.b, s.c, s.d;
    a := Step(3, a, b, c, d, x[9], 0xd9d4d039, 4, 44, x);
    d := Step(3, d, a, b, c, x[12], 0xe6db99e5, 11, 45, x);
    c := Step(3, c, d, a, b, x[15], 0x1fa27cf8, 16, 46, x);
    b := Step(3, b, c, d, a, x[2], 0xc4ac5665, 23, 47, x);
    t := State(a, b, c, d);
  }

  // Round 4 of the unrolled body, four lines at a time.

  method Lines49To52(s: State, x: seq<word>) returns (t: State)
    requires |x| == 16
    ensures Steps(48, s, x) == Steps(52, t, x)
  {
    hide Steps, Add;
    var a, b, c, d := s.a, s.b, s.c, s.d;
    a := Step(4, a, b, c, d, x[0], 0xf4292244, 6, 48, x);
    d := Step(4, d, a, b, c, x[7], 0x432aff97, 10, 49, x);
    c := Step(4, c, d, a, b, x[14], 0xab9423a7, 15, 50, x);
    b := Step(4, b, c, d, a, x[5], 0xfc93a039, 21, 51, x);
    t := State(a, b, c, d);
  }

  method Lines53To56(s: State, x: seq<word>) returns (t: State)
    requires |x| == 16
    ensures Steps(52, s, x) == Steps(56, t, x)
  {
    hide Steps, Add;
    var a, b, c, d := s.a, s.b, s.c, s.d;
    a := Step(4, a, b, c, d, x[12], 0x655b59c3, 6, 52, x);
    d := Step(4, d, a, b, c, x[3], 0x8f0ccc92, 10, 53, x);
    c := Step(4, c, d, a, b, x[10], 0xffeff47d, 15, 54, x);
    b := Step(4, b, c, d, a, x[1], 0x85845dd1, 21, 55, x);
    t := State(a, b, c, d);
  }

  method Lines57To60(s: State, x: seq<word>) returns (t: State)
    requires |x| == 16
    ensures Steps(56, s, x) == Steps(60, t, x)
  {
    hide Steps, Add;
    var a, b, c, d := s.a, s.b, s.c, s.d;
    a := Step(4, a, b, c, d, x[8], 0x6fa87e4f, 6, 56, x);
    d := Step(4, d, a, b, c, x[15], 0xfe2ce6e0, 10, 57, x);
    c := Step(4, c, d, a, b, x[6], 0xa3014314, 15, 58, x);
    b := Step(4, b, c, d, a, x[13], 0x4e0811a1, 21, 59, x);
    t := State(a, b, c, d);
  }

  method Lines61To64(s: State, x: seq<word>) returns (t: State)
    requires |x| == 16
    ensures Steps(60, s, x) == Steps(64, t, x)
  {
    hide Steps, Add;
    var a, b, c, d := s.a, s.b, s.c, s.d;
    a := Step(4, a, b, c, d, x[4], 0xf7537e82, 6, 60, x);
    d := Step(4, d, a, b, c, x[11], 0xbd3af235, 10, 61, x);
    c := Step(4, c, d, a, b, x[2], 0x2ad7d2bb, 15, 62, x);
    b := Step(4, b, c, d, a, x[9], 0xeb86d391, 21, 63, x);
    t := State(a, b, c, d);
  }

  /** The compression function over the caller's four-word buffer. */
  method Transform(buf: array<word>, x: seq<word>)
    requires buf.Length == 4 && |x| == 16
    modifies buf
    ensures Registers(buf[..]) == Compress(old(Registers(buf[..])), x)
  {
    hide Steps;
    var s := State(buf[0], buf[1], buf[2], buf[3]);
    var t := Lines1To4(s, x);
    t := Lines5To8(t, x);
    t := Lines9To12(t, x);
    t := Lines13To16(t, x);
    t := Lines17To20(t, x);
    t := Lines21To24(t, x);
    t := Lines25To28(t, x);
    t := Lines29To32(t, x);
    t := Lines33To36(t, x);
    t := Lines37To40(t, x);
    t := Lines41To44(t, x);
    t := Lines45To48(t, x);
    t := Lines49To52(t, x);
    t := Lines53To56(t, x);
    t := Lines57To60(t, x);
    t := Lines61To64(t, x);
    NoneLeft(t, x);
    buf[0] := (buf[0] + t.a) % 0x1_0000_0000;
    buf[1] := (buf[1] + t.b) % 0x1_0000_0000;
    buf[2] := (buf[2] + t.c) % 0x1_0000_0000;
    buf[3] := (buf[3] + t.d) % 0x1_0000_0000;
  }

  function Registers(w: seq<word>): State
    requires |w| == 4
  {
    State(w[0], w[1], w[2], w[3])
  }

  lemma NoneLeft(s: State, x: seq<word>)
    requires |x| == 16
    ensures Steps(64, s, x) == s
  {}
}
