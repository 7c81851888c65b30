/** The streaming context: md5_init, md5_update and md5_final. */
module Md5 {
  import opened Basics
  import opened Rfc1321
  import opened Md5Transform

  // The two-word bit counter stands for 8n modulo 2^64.
  ghost predicate Counts(bits0: int, bits1: int, n: nat) {
    && 0 <= bits0 < 0x1_0000_0000
    && 0 <= bits1 < 0x1_0000_0000
    && bits0 + 0x1_0000_0000 * bits1 == 8 * n % (0x1_0000_0000_0000_0000)
  }

  lemma LowWord(bits0: int, bits1: int, n: nat)
    requires Counts(bits0, bits1, n)
    ensures bits0 / 8 % 64 == n % 64
  {
    var k := 8 * n / 0x1_0000_0000_0000_0000;
    assert 8 * n == 0x1_0000_0000_0000_0000 * k + (bits0 + 0x1_0000_0000 * bits1);
    assert 8 * n == 8 * (64 * (0x80_0000 * (0x1_0000_0000 * k + bits1))) + bits0;
    hide Counts;
    Eighths(n, 64 * (0x80_0000 * (0x1_0000_0000 * k + bits1)), bits0);
    SameRest(n, 0x80_0000 * (0x1_0000_0000 * k + bits1), bits0 / 8);
  }

  lemma Eighths(n: int, a: int, b: int)
    requires 8 * n == 8 * a + b
    ensures n == a + b / 8
  {}

  lemma SameRest(n: int, q: int, r: int)
    requires n == 64 * q + r
    ensures r % 64 == n % 64
  {}

  // Two 32-bit additions with an explicit carry add the 64-bit numbers.
  lemma AddWithCarry(bits0: int, bits1: int, len: nat, low: int, high: int) returns (over: int)
    requires 0 <= bits0 < 0x1_0000_0000 && 0 <= bits1 < 0x1_0000_0000
    requires low == (bits0 + len * 8 % 0x1_0000_0000) % 0x1_0000_0000
    requires high == if low < bits0 then (bits1 + 1) % 0x1_0000_0000 else bits1
    ensures low + 0x1_0000_0000 * ((high + len / 0x2000_0000) % 0x1_0000_0000)
         == bits0 + 0x1_0000_0000 * bits1 + 8 * len - 0x1_0000_0000_0000_0000 * over
  {
    var add0, add1 := len * 8 % 0x1_0000_0000, len / 0x2000_0000;
    assert 8 * len == add0 + 0x1_0000_0000 * add1;
    var carry := if low < bits0 then 1 else 0;
    assert bits0 + add0 == low + 0x1_0000_0000 * carry;
    var wrap := if bits1 + carry == 0x1_0000_0000 then 1 else 0;
    assert high == bits1 + carry - 0x1_0000_0000 * wrap;
    over := wrap + (high + add1) / 0x1_0000_0000;
  }

  lemma CarryIsAddition(bits0: int, bits1: int, n: nat, len: nat, low: int, high: int)
    requires Counts(bits0, bits1, n)
    requires low == (bits0 + len * 8 % 0x1_0000_0000) % 0x1_0000_0000
    requires high == if low < bits0 then (bits1 + 1) % 0x1_0000_0000 else bits1
    ensures Counts(low, (high + len / 0x2000_0000) % 0x1_0000_0000, n + len)
  {
    var over := AddWithCarry(bits0, bits1, len, low, high);
    var sum := (high + len / 0x2000_0000) % 0x1_0000_0000;
    var q := 8 * n / 0x1_0000_0000_0000_0000;
    ModuloIs(8 * (n + len), q + over, low + 0x1_0000_0000 * sum);
  }

  lemma ModuloIs(a: int, q: int, r: int)
    requires a == 0x1_0000_0000_0000_0000 * q + r && 0 <= r < 0x1_0000_0000_0000_0000
    ensures a % 0x1_0000_0000_0000_0000 == r
  {}

  lemma {:induction false} FoldAppend(s: State, a: seq<byte>, b: seq<byte>)
    requires |a| % 64 == 0 && |b| % 64 == 0
    ensures Fold(s, a + b) == Fold(Fold(s, a), b)
    decreases |a|
  {
    hide Compress, Words;
    if |a| == 0 {
      assert a + b == b;
    } else {
      assert (a + b)[..64] == a[..64] && (a + b)[64..] == a[64..] + b;
      FoldAppend(Compress(s, Words(a[..64])), a[64..], b);
    }
  }

  lemma FoldBlock(s: State, a: seq<byte>, block: seq<byte>)
    requires |a| % 64 == 0 && |block| == 64
    ensures Fold(s, a + block) == Compress(Fold(s, a), Words(block))
  {
    hide Compress, Words;
    FoldAppend(s, a, block);
    assert block[..64] == block && block[64..] == [];
  }

  // The state that a context holds after a message: whole blocks folded, the rest carried over.
  function Whole(m: seq<byte>): (k: nat)
    ensures k <= |m| && k % 64 == 0 && |m| - k == |m| % 64
  {
    |m| / 64 * 64
  }

  ghost predicate Holds(s: State, carry: seq<byte>, m: seq<byte>)
    requires |carry| == 64
  {
    && s == Fold(INITIAL, m[..Whole(m)])
    && carry[..|m| % 64] == m[Whole(m)..]
  }

  // Bytes that stay short of the next block boundary are only carried over.
  lemma CarryOver(s: State, carry: seq<byte>, carry': seq<byte>, m: seq<byte>, d: seq<byte>)
    requires |carry| == 64 == |carry'| && Holds(s, carry, m) && |m| % 64 + |d| < 64
    requires carry'[..|m| % 64 + |d|] == carry[..|m| % 64] + d
    ensures Holds(s, carry', m + d)
  {
    hide Fold;
    assert Whole(m + d) == Whole(m);
    assert (m + d)[..Whole(m)] == m[..Whole(m)];
    assert (m + d)[Whole(m)..] == m[Whole(m)..] + d;
  }

  // Bytes that reach it complete one block.
  lemma Complete(s: State, carry: seq<byte>, carry': seq<byte>, m: seq<byte>, d: seq<byte>)
    requires |carry| == 64 == |carry'| && Holds(s, carry, m) && |m| % 64 + |d| == 64
    requires carry' == carry[..|m| % 64] + d
    ensures Holds(Compress(s, Words(carry')), carry', m + d)
  {
    hide Fold, Compress, Words;
    var k := Whole(m);
    assert Whole(m + d) == k + 64 == |m + d|;
    assert (m + d)[..k + 64] == m[..k] + carry';
    FoldBlock(INITIAL, m[..k], carry');
  }

  lemma NextByte(v: nat, k: nat)
    ensures LowBytes(v, k + 1) == [v % 256] + LowBytes(v / 256, k)
  {}

  lemma LowByteOfSum(x: nat, z: nat)
    ensures (x + 256 * z) / 256 == x / 256 + z && (x + 256 * z) % 256 == x % 256
  {}

  // Low word first, and low byte first in each word: the eight bytes of the 64-bit count.
  lemma LengthBytes(bits0: nat, bits1: nat)
    requires bits0 < 0x1_0000_0000
    ensures LowBytes(bits0 + 0x1_0000_0000 * bits1, 8) == LowBytes(bits0, 4) + LowBytes(bits1, 4)
  {
    hide LowBytes;
    var b := bits0 / 256;
    var c := b / 256;
    var d := c / 256;
    LowByteOfSum(bits0, 0x100_0000 * bits1);
    LowByteOfSum(b, 0x1_0000 * bits1);
    LowByteOfSum(c, 0x100 * bits1);
    LowByteOfSum(d, bits1);
    assert d / 256 == 0;
    NextByte(bits0 + 0x1_0000_0000 * bits1, 7);
    NextByte(b + 0x100_0000 * bits1, 6);
    NextByte(c + 0x1_0000 * bits1, 5);
    NextByte(d + 0x100 * bits1, 4);
    FourBytes(bits0);
  }

  lemma FourBytes(v: nat)
    ensures LowBytes(v, 4) == [v % 256, v / 256 % 256, v / 256 / 256 % 256, v / 256 / 256 / 256 % 256]
  {
    hide LowBytes;
    var b := v / 256;
    var c := b / 256;
    NextByte(v, 3);
    NextByte(b, 2);
    NextByte(c, 1);
    NextByte(c / 256, 0);
    NoBytes(c / 256 / 256);
  }

  lemma NoBytes(v: nat)
    ensures LowBytes(v, 0) == []
  {}

  // A word and its four bytes determine each other.
  lemma WordOfBytes(w: word)
    ensures Word(LowBytes(w, 4)) == w
  {
    hide LowBytes;
    FourBytes(w);
    var b := w / 256;
    var c := b / 256;
    assert w == 256 * b + w % 256 && b == 256 * c + b % 256 && c == 256 * (c / 256) + c % 256;
    assert c / 256 < 256;
  }

  lemma BytesOfWord(b: seq<byte>)
    requires |b| == 4
    ensures LowBytes(Word(b), 4) == b
  {
    hide LowBytes;
    var d: nat := b[3];
    var c: nat := b[2] + 256 * d;
    var v: nat := b[1] + 256 * c;
    assert Word(b) == b[0] + 256 * v;
    FourBytes(Word(b));
    hide Word;
    LowestByte(b[0], v);
    LowestByte(b[1], c);
    LowestByte(b[2], d);
  }

  lemma LowestByte(x: byte, z: nat)
    ensures (x + 256 * z) / 256 == z && (x + 256 * z) % 256 == x
  {}

  // Section 3.3 of RFC 1321 gives the registers as bytes, low-order byte first.
  lemma InitialBytes()
    ensures Output(INITIAL) ==
      [0x01, 0x23, 0x45, 0x67, 0x89, 0xab, 0xcd, 0xef, 0xfe, 0xdc, 0xba, 0x98, 0x76, 0x54, 0x32, 0x10]
  {
    hide LowBytes;
    FourBytes(INITIAL.a);
    FourBytes(INITIAL.b);
    FourBytes(INITIAL.c);
    FourBytes(INITIAL.d);
  }

  // What the padding is: the message, a one bit, zero bits to 448 modulo 512, and the length in bits.
  lemma PaddedIs(m: seq<byte>)
    ensures var p, n := Padded(m), |m|;
      && |p| % 64 == 0 && n + 9 <= |p| <= n + 72
      && p[..n] == m && p[n] == 128
      && (forall i :: n < i < |p| - 8 ==> p[i] == 0)
      && Number(p[|p| - 8..]) == 8 * n % 0x1_0000_0000_0000_0000
  {
    hide LowBytes, Number;
    var p, n := Padded(m), |m|;
    var v := 8 * n % 0x1_0000_0000_0000_0000;
    assert p[|p| - 8..] == LowBytes(v, 8);
    assert Power(8) == 0x1_0000_0000_0000_0000 by {
      assert Power(4) == 0x1_0000_0000;
    }
    hide Power;
    NumberOf(v, 8);
  }

  // The number that bytes stand for, low-order byte first.
  function Number(b: seq<byte>): int {
    if b == [] then 0 else b[0] as int + 256 * Number(b[1..])
  }

  function Power(k: nat): (p: nat) {
    if k == 0 then 1 else 256 * Power(k - 1)
  }

  lemma {:induction false} NumberOf(v: nat, k: nat)
    requires v < Power(k)
    ensures Number(LowBytes(v, k)) == v
  {
    if k > 0 {
      NumberOf(v / 256, k - 1);
      assert LowBytes(v, k)[1..] == LowBytes(v / 256, k - 1);
    }
  }

  lemma GapIs(message: seq<byte>, m: seq<byte>, count: nat)
    requires count == |message| % 64
    requires m == if 64 - 1 - count < 8 then message + ([0x80] + Zeros(64 - 1 - count)) + Zeros(56)
                  else message + ([0x80] + Zeros(64 - 1 - count - 8))
    ensures m == message + [0x80] + Zeros(Gap(|message|))
  {}

  class Md5Context {
    const buf: array<word>
    var bits0: int
    var bits1: int
    const input: array<byte>
    ghost var message: seq<byte>

    ghost predicate Shape() {
      buf.Length == 4 && input.Length == 64 && buf as object != input
    }

    // The invariant: the registers fold every whole block, input holds the tail, bits count the bits.
    ghost predicate Valid()
      reads this, buf, input
    {
      && Shape()
      && Counts(bits0, bits1, |message|)
      && Holds(Registers(buf[..]), input[..], message)
    }

    // A context on the stack, as md5_init leaves it.
    constructor ()
      ensures Valid() && message == []
      ensures fresh(buf) && fresh(input)
    {
      buf := new word[4];
      input := new byte[64];
      bits0, bits1 := 0, 0;
      message := [];
      new;
      Start();
    }

    method Start()
      requires Shape()
      modifies this, buf
      ensures Valid() && message == []
    {
      buf[0] := 0x67452301;
      buf[1] := 0xefcdab89;
      buf[2] := 0x98badcfe;
      buf[3] := 0x10325476;
      bits0, bits1 := 0, 0;
      message := [];
      assert Registers(buf[..]) == INITIAL;
    }

    method Copy(at: nat, data: seq<byte>)
      requires at + |data| <= input.Length
      modifies input
      ensures input[..] == old(input[..at]) + data + old(input[at + |data|..])
    {
      ghost var before := input[..];
      for i := 0 to |data|
        invariant forall k :: 0 <= k < input.Length ==> input[k] == if at <= k < at + i then data[k - at] else before[k]
      {
        input[at + i] := data[i];
      }
    }

    // memcpy of a chunk that stays short of the block boundary.
    method Keep(at: nat, chunk: seq<byte>)
      requires Shape() && Holds(Registers(buf[..]), input[..], message)
      requires at == |message| % 64 && at + |chunk| < 64
      modifies this`message, input
      ensures Holds(Registers(buf[..]), input[..], message)
      ensures message == old(message) + chunk
    {
      hide Holds, Registers;
      ghost var carry := input[..];
      Copy(at, chunk);
      CarryOver(Registers(buf[..]), carry, input[..], message, chunk);
      message := message + chunk;
    }

    // memcpy of a chunk that completes the block, then md5_transform.
    method Absorb(at: nat, chunk: seq<byte>)
      requires Shape() && Holds(Registers(buf[..]), input[..], message)
      requires at == |message| % 64 && at + |chunk| == 64
      modifies this`message, input, buf
      ensures Holds(Registers(buf[..]), input[..], message)
      ensures message == old(message) + chunk && |message| % 64 == 0
    {
      hide Fold, Compress, Words;
      ghost var carry := input[..];
      Copy(at, chunk);
      Complete(Registers(buf[..]), carry, input[..], message, chunk);
      var x := LoadWords();
      Transform(buf, x);
      message := message + chunk;
    }

    method CountBits(len: nat) returns (t: int)
      requires Counts(bits0, bits1, |message|) && len < 0x1_0000_0000
      modifies this`bits0, this`bits1
      ensures Counts(bits0, bits1, |message| + len)
      ensures t == |message| % 64
    {
      hide Counts;
      t := bits0;
      bits0 := (t + len * 8 % 0x1_0000_0000) % 0x1_0000_0000;
      if bits0 < t {
        bits1 := (bits1 + 1) % 0x1_0000_0000;
      }
      CarryIsAddition(old(bits0), old(bits1), |message|, len, bits0, bits1);
      LowWord(old(bits0), old(bits1), |message|);
      bits1 := (bits1 + len / 0x2000_0000) % 0x1_0000_0000;
      t := t / 8 % 64;
    }

    method Update(data: seq<byte>)
      requires Valid() && |data| < 0x1_0000_0000
      modifies this, buf, input
      ensures Valid() && message == old(message) + data
    {
      hide Counts, Holds;
      var p, len := 0, |data|;
      var t := CountBits(len);
      if t != 0 {
        var room := 64 - t;
        if len < room {
          Keep(t, data);
          return;
        }
        Absorb(t, data[..room]);
        p := room;
        len := len - room;
      }
      assert message == old(message) + data[..p];
      while len >= 64
        invariant 0 <= p <= |data| && len == |data| - p
        invariant message == old(message) + data[..p] && |message| % 64 == 0
        invariant Counts(bits0, bits1, |old(message)| + |data|)
        invariant Holds(Registers(buf[..]), input[..], message)
      {
        Absorb(0, data[p..p + 64]);
        p := p + 64;
        len := len - 64;
      }
      Keep(0, data[p..]);
      assert message == old(message) + data;
    }

    // memset to zero.
    method Clear(at: nat, n: nat)
      requires at + n <= input.Length
      modifies input
      ensures input[..] == old(input[..at]) + Zeros(n) + old(input[at + n..])
    {
      ghost var before := input[..];
      for i := 0 to n
        invariant forall k :: 0 <= k < input.Length ==> input[k] == if at <= k < at + i then 0 else before[k]
      {
        input[at + i] := 0;
      }
    }

    // The reads through a uint32 pointer, on a machine that keeps the low-order byte first.
    method LoadWords() returns (x: seq<word>)
      requires input.Length == 64
      ensures x == Words(input[..])
    {
      x := [];
      for i := 0 to 16
        invariant |x| == i && forall k :: 0 <= k < i ==> x[k] == Word(input[..][4 * k..4 * k + 4])
      {
        var at := 4 * i;
        var high: int := input[at + 2] as int + 256 * (input[at + 3] as int);
        x := x + [input[at] as int + 256 * (input[at + 1] as int + 256 * high)];
      }
    }

    // memcpy of the registers on the same machine.
    method CopyRegisters() returns (digest: seq<byte>)
      requires buf.Length == 4
      ensures digest == Output(Registers(buf[..]))
    {
      digest := [];
      hide LowBytes;
      for i := 0 to 4
        invariant |digest| == 4 * i
        invariant i > 0 ==> digest[..4] == LowBytes(buf[0], 4)
        invariant i > 1 ==> digest[4..8] == LowBytes(buf[1], 4)
        invariant i > 2 ==> digest[8..12] == LowBytes(buf[2], 4)
        invariant i > 3 ==> digest[12..16] == LowBytes(buf[3], 4)
      {
        var w := buf[i];
        FourBytes(w);
        digest := digest + [w % 256, w / 256 % 256, w / 256 / 256 % 256, w / 256 / 256 / 256 % 256];
      }
      assert digest == digest[..4] + digest[4..8] + digest[8..12] + digest[12..16];
    }

    // The store through a uint32 pointer, on a machine that keeps the low-order byte first.
    method StoreWord(at: nat, v: nat)
      requires at + 4 <= input.Length
      modifies input
      ensures input[..] == old(input[..at]) + LowBytes(v, 4) + old(input[at + 4..])
    {
      input[at] := v % 256;
      input[at + 1] := v / 256 % 256;
      input[at + 2] := v / 256 / 256 % 256;
      input[at + 3] := v / 256 / 256 / 256 % 256;
      FourBytes(v);
    }

    // The byte 0x80 and n zero bytes after it.
    method Mark(at: nat, n: nat)
      requires at + 1 + n <= input.Length
      modifies input
      ensures input[..] == old(input[..at]) + ([0x80] + Zeros(n)) + old(input[at + 1 + n..])
    {
      hide Zeros;
      input[at] := 0x80;
      Clear(at + 1, n);
    }

    // The mark does not leave room for the length: this block is completed.
    method FinishBlock(count: nat)
      requires Valid() && count == |message| % 64
      modifies buf, input
      ensures Holds(Registers(buf[..]), input[..], message + ([0x80] + Zeros(64 - 1 - count)))
    {
      hide Fold, Compress, Words, Counts, Holds, Registers, Zeros;
      ghost var s, carry, chunk := Registers(buf[..]), input[..], [0x80] + Zeros(64 - 1 - count);
      Mark(count, 64 - 1 - count);
      Complete(s, carry, input[..], message, chunk);
      var x := LoadWords();
      Transform(buf, x);
    }

    // And the next one is filled with 56 zero bytes.
    method ClearBlock(ghost m: seq<byte>)
      requires Shape() && |m| % 64 == 0 && Holds(Registers(buf[..]), input[..], m)
      modifies input
      ensures Holds(Registers(buf[..]), input[..], m + Zeros(56))
    {
      hide Fold, Holds, Registers, Zeros;
      ghost var carry := input[..];
      Clear(0, 56);
      CarryOver(Registers(buf[..]), carry, input[..], m, Zeros(56));
    }

    method PadOnce(count: nat) returns (ghost m: seq<byte>)
      requires Valid() && count == |message| % 64 && 64 - 1 - count >= 8
      modifies input
      ensures m == message + ([0x80] + Zeros(64 - 1 - count - 8))
      ensures Holds(Registers(buf[..]), input[..], m)
    {
      hide Fold, Compress, Words, Counts, Holds, Registers, Zeros;
      ghost var carry, chunk := input[..], [0x80] + Zeros(64 - 1 - count - 8);
      Mark(count, 64 - 1 - count - 8);
      CarryOver(Registers(buf[..]), carry, input[..], message, chunk);
      m := message + chunk;
    }

    // The padding: one byte 0x80, then zero bytes up to 56 modulo 64, through an extra block if need be.
    method Pad() returns (ghost m: seq<byte>)
      requires Valid()
      modifies buf, input
      ensures m == message + [0x80] + Zeros(Gap(|message|)) && |m| % 64 == 56
      ensures Holds(Registers(buf[..]), input[..], m)
    {
      hide Fold, Compress, Words, Counts, Holds, Registers, Gap, Zeros;
      LowWord(bits0, bits1, |message|);
      var count := bits0 / 8 % 64;
      if 64 - 1 - count < 8 {
        FinishBlock(count);
        m := message + ([0x80] + Zeros(64 - 1 - count));
        ClearBlock(m);
        m := m + Zeros(56);
      } else {
        m := PadOnce(count);
      }
      GapIs(message, m, count);
    }

    // Afterwards only the first 8 bytes of the context are cleared: sizeof is taken of the pointer.
    method Final() returns (digest: seq<byte>)
      requires Valid()
      modifies buf, input
      ensures digest == Digest(old(message))
      ensures buf[0] == 0 && buf[1] == 0
    {
      hide Fold, Compress, Words, Output, LowBytes;
      ghost var m := Pad();
      ghost var carry := input[..];
      StoreWord(56, bits0);
      StoreWord(60, bits1);
      ghost var chunk := LowBytes(bits0, 4) + LowBytes(bits1, 4);
      assert input[..] == carry[..56] + chunk;
      Complete(Registers(buf[..]), carry, input[..], m, chunk);
      var x := LoadWords();
      Transform(buf, x);
      LengthBytes(bits0, bits1);
      assert Padded(message) == m + chunk;
      assert (m + chunk)[..Whole(m + chunk)] == m + chunk;
      digest := CopyRegisters();
      buf[0], buf[1] := 0, 0;
    }
  }

  function Flatten(parts: seq<seq<byte>>): seq<byte> {
    if |parts| == 0 then [] else Flatten(parts[..|parts| - 1]) + parts[|parts| - 1]
  }

  // However a message is cut into calls, empty ones included, the digest is that of the whole.
  method Hash(parts: seq<seq<byte>>) returns (digest: seq<byte>)
    requires forall i :: 0 <= i < |parts| ==> |parts[i]| < 0x1_0000_0000
    ensures digest == Digest(Flatten(parts))
  {
    hide Digest, Counts, Holds, Fold, Registers;
    var ctx := new Md5Context();
    for i := 0 to |parts|
      invariant fresh(ctx) && fresh(ctx.buf) && fresh(ctx.input)
      invariant ctx.Valid() && ctx.message == Flatten(parts[..i])
    {
      ctx.Update(parts[i]);
      assert parts[..i + 1][..i] == parts[..i];
    }
    assert parts[..|parts|] == parts;
    digest := ctx.Final();
  }
}
