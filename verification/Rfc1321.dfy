/** The reference for the digest: sections 3.1 to 3.5 of RFC 1321, as functions on values. */
module Rfc1321 {
  import opened Basics

  // Section 2: a word is a 32-bit quantity.
  type word = x: int | 0 <= x < 0x1_0000_0000

  datatype State = State(a: word, b: word, c: word, d: word)

  function Bits(x: word): bv32 { x as bv32 }

  // Section 3.4: the four auxiliary functions.
  function F(x: word, y: word, z: word): word { ((Bits(x) & Bits(y)) | (!Bits(x) & Bits(z))) as int }
  function G(x: word, y: word, z: word): word { ((Bits(x) & Bits(z)) | (Bits(y) & !Bits(z))) as int }
  function H(x: word, y: word, z: word): word { (Bits(x) ^ Bits(y) ^ Bits(z)) as int }
  function I(x: word, y: word, z: word): word { (Bits(y) ^ (Bits(x) | !Bits(z))) as int }

  // Section 2: addition modulo 2^32.
  function Add(x: word, y: word): word { (x + y) % 0x1_0000_0000 }

  function Pow2(k: nat): (p: nat)
    ensures p > 0
  {
    if k == 0 then 1 else 2 * Pow2(k - 1)
  }

  lemma {:induction false} Pow2Add(j: nat, k: nat)
    ensures Pow2(j + k) == Pow2(j) * Pow2(k)
  {
    if j > 0 {
      Pow2Add(j - 1, k);
    }
  }

  lemma Pow2Splits(s: nat)
    requires s <= 32
    ensures Pow2(32 - s) * Pow2(s) == 0x1_0000_0000
  {
    assert Pow2(4) == 16;
    hide Pow2;
    Pow2Add(4, 4);
    assert Pow2(8) == 256;
    Pow2Add(8, 8);
    assert Pow2(16) == 65536;
    Pow2Add(16, 16);
    assert Pow2(32) == 0x1_0000_0000;
    Pow2Add(32 - s, s);
  }

  lemma Times(a: nat, b: nat, c: nat)
    requires a <= b
    ensures a * c <= b * c
  {}

  lemma QuotientBelow(x: nat, a: nat, b: nat)
    requires a > 0 && x < a * b
    ensures x / a < b
  {
    if x / a >= b {
      Times(b, x / a, a);
    }
  }

  lemma OneLess(a: nat, b: nat)
    requires a > 0
    ensures (a - 1) * b == a * b - b
  {}

  lemma RotatedFits(x: nat, a: nat, b: nat)
    requires a > 0 && x < a * b
    ensures 0 <= x % a * b + x / a < a * b
  {
    QuotientBelow(x, a, b);
    Times(x % a, a - 1, b);
    OneLess(a, b);
  }

  // Section 2: the circular left shift. The low 32 - s bits move up, the high s bits go to the bottom.
  function Rotl(x: word, s: nat): word
    requires 0 < s < 32
  {
    Pow2Splits(s);
    RotatedFits(x, Pow2(32 - s), Pow2(s));
    x % Pow2(32 - s) * Pow2(s) + x / Pow2(32 - s)
  }

  // Section 3.4: the index, shift and sine-table schedules of step i (counted from 0).
  function Index(i: nat): (k: nat)
    ensures k < 16
  {
    if i < 16 then i
    else if i < 32 then (5 * i + 1) % 16
    else if i < 48 then (3 * i + 5) % 16
    else (7 * i) % 16
  }

  function Shift(i: nat): (s: nat)
    ensures 0 < s < 32
  {
    var c := i % 4;
    if i < 16 then (if c == 0 then 7 else if c == 1 then 12 else if c == 2 then 17 else 22)
    else if i < 32 then (if c == 0 then 5 else if c == 1 then 9 else if c == 2 then 14 else 20)
    else if i < 48 then (if c == 0 then 4 else if c == 1 then 11 else if c == 2 then 16 else 23)
    else (if c == 0 then 6 else if c == 1 then 10 else if c == 2 then 15 else 21)
  }

  // floor(4294967296 * |sin(i + 1)|)
  function Sine(i: nat): word {
    if i < 16 then Sine1(i) else if i < 32 then Sine2(i) else if i < 48 then Sine3(i) else Sine4(i)
  }

  function Sine1(i: nat): word {
    match i
    case 0 => 0xd76aa478 case 1 => 0xe8c7b756 case 2 => 0x242070db case 3 => 0xc1bdceee
    case 4 => 0xf57c0faf case 5 => 0x4787c62a case 6 => 0xa8304613 case 7 => 0xfd469501
    case 8 => 0x698098d8 case 9 => 0x8b44f7af case 10 => 0xffff5bb1 case 11 => 0x895cd7be
    case 12 => 0x6b901122 case 13 => 0xfd987193 case 14 => 0xa679438e
    case _ => 0x49b40821
  }

  function Sine2(i: nat): word {
    match i
    case 16 => 0xf61e2562 case 17 => 0xc040b340 case 18 => 0x265e5a51 case 19 => 0xe9b6c7aa
    case 20 => 0xd62f105d case 21 => 0x02441453 case 22 => 0xd8a1e681 case 23 => 0xe7d3fbc8
    case 24 => 0x21e1cde6 case 25 => 0xc33707d6 case 26 => 0xf4d50d87 case 27 => 0x455a14ed
    case 28 => 0xa9e3e905 case 29 => 0xfcefa3f8 case 30 => 0x676f02d9
    case _ => 0x8d2a4c8a
  }

  function Sine3(i: nat): word {
    match i
    case 32 => 0xfffa3942 case 33 => 0x8771f681 case 34 => 0x6d9d6122 case 35 => 0xfde5380c
    case 36 => 0xa4beea44 case 37 => 0x4bdecfa9 case 38 => 0xf6bb4b60 case 39 => 0xbebfbc70
    case 40 => 0x289b7ec6 case 41 => 0xeaa127fa case 42 => 0xd4ef3085 case 43 => 0x04881d05
    case 44 => 0xd9d4d039 case 45 => 0xe6db99e5 case 46 => 0x1fa27cf8
    case _ => 0xc4ac5665
  }

  function Sine4(i: nat): word {
    match i
    case 48 => 0xf4292244 case 49 => 0x432aff97 case 50 => 0xab9423a7 case 51 => 0xfc93a039
    case 52 => 0x655b59c3 case 53 => 0x8f0ccc92 case 54 => 0xffeff47d case 55 => 0x85845dd1
    case 56 => 0x6fa87e4f case 57 => 0xfe2ce6e0 case 58 => 0xa3014314 case 59 => 0x4e0811a1
    case 60 => 0xf7537e82 case 61 => 0xbd3af235 case 62 => 0x2ad7d2bb
    case _ => 0xeb86d391
  }

  function Auxiliary(i: nat, x: word, y: word, z: word): word {
    if i < 16 then F(x, y, z) else if i < 32 then G(x, y, z) else if i < 48 then H(x, y, z) else I(x, y, z)
  }

  // One operation a = b + ((a + f(b, c, d) + X[k] + T[i]) <<< s), with the registers renamed
  // so that the next operation again acts on the first one.
  function Operation(i: nat, s: State, x: seq<word>): State
    requires |x| == 16
  {
    var sum := Add(s.a, Add(Add(Auxiliary(i, s.b, s.c, s.d), x[Index(i)]), Sine(i)));
    State(s.d, Add(s.b, Rotl(sum, Shift(i))), s.b, s.c)
  }

  // Operations i, i + 1, ..., 63.
  function Steps(i: nat, s: State, x: seq<word>): State
    requires |x| == 16
    decreases 64 - i
  {
    if i >= 64 then s else Steps(i + 1, Operation(i, s, x), x)
  }

  // Section 3.4: the effect of one 16-word block.
  function Compress(s: State, x: seq<word>): State
    requires |x| == 16
  {
    var t := Steps(0, s, x);
    State(Add(s.a, t.a), Add(s.b, t.b), Add(s.c, t.c), Add(s.d, t.d))
  }

  // Section 2: a word is four bytes, the low-order byte first.
  function Word(b: seq<byte>): word
    requires |b| == 4
  {
    b[0] as int + 256 * (b[1] as int) + 65536 * (b[2] as int) + 16777216 * (b[3] as int)
  }

  function Words(b: seq<byte>): (x: seq<word>)
    requires |b| == 64
    ensures |x| == 16
  {
    seq(16, i requires 0 <= i < 16 => Word(b[4 * i..4 * i + 4]))
  }

  // The k low-order bytes of a number, low-order byte first.
  function LowBytes(v: nat, k: nat): (b: seq<byte>)
    ensures |b| == k
  {
    if k == 0 then [] else [v % 256] + LowBytes(v / 256, k - 1)
  }

  // Section 3.3.
  const INITIAL: State := State(0x67452301, 0xefcdab89, 0x98badcfe, 0x10325476)

  // Section 3.4: a message of whole 64-byte blocks, folded block by block.
  function Fold(s: State, m: seq<byte>): State
    requires |m| % 64 == 0
    decreases |m|
  {
    assert |m| != 0 ==> |m| >= 64 && (|m| - 64) % 64 == 0;
    if |m| == 0 then s else Fold(Compress(s, Words(m[..64])), m[64..])
  }

  function Zeros(k: nat): (z: seq<byte>)
    ensures |z| == k
  {
    seq(k, _ => 0)
  }

  // Section 3.1: the number of zero bytes after the byte 0x80.
  function Gap(n: nat): (k: nat)
    ensures (n + 1 + k + 8) % 64 == 0 && k < 64
  {
    if n % 64 <= 55 then 55 - n % 64 else 119 - n % 64
  }

  // Sections 3.1 and 3.2: padding, then the length in bits modulo 2^64.
  function Padded(m: seq<byte>): (p: seq<byte>)
    ensures |p| % 64 == 0
  {
    m + [0x80] + Zeros(Gap(|m|)) + LowBytes(8 * |m| % 0x1_0000_0000_0000_0000, 8)
  }

  // Section 3.5.
  function Output(s: State): (d: seq<byte>)
    ensures |d| == 16
  {
    LowBytes(s.a, 4) + LowBytes(s.b, 4) + LowBytes(s.c, 4) + LowBytes(s.d, 4)
  }

  function Digest(m: seq<byte>): (d: seq<byte>)
    ensures |d| == 16
  {
    Output(Fold(INITIAL, Padded(m)))
  }
}
