/** decode_base64 against section 4 of RFC 4648. Bytes and sextets are numbers; shifts and masks are written as
    products, quotients and remainders, and an OR into bits that are still zero as a sum. */
module Base64 {
  import opened Basics

  type sextet = x: int | 0 <= x < 64

  // ---------- section 4 of RFC 4648 ----------

  // Table 1: the alphabet A-Z a-z 0-9 + /
  function Letter(v: sextet): char {
    if v < 26 then 'A' + v as char
    else if v < 52 then 'a' + (v - 26) as char
    else if v < 62 then '0' + (v - 52) as char
    else if v == 62 then '+' else '/'
  }

  // Three, two and one bytes as a quantum of four characters.
  function Quantum3(a: byte, b: byte, c: byte): (s: string)
    ensures |s| == 4
  {
    [Letter(a / 4), Letter(a % 4 * 16 + b / 16), Letter(b % 16 * 4 + c / 64), Letter(c % 64)]
  }

  function Quantum2(a: byte, b: byte): string {
    [Letter(a / 4), Letter(a % 4 * 16 + b / 16), Letter(b % 16 * 4), '=']
  }

  function Quantum1(a: byte): string {
    [Letter(a / 4), Letter(a % 4 * 16), '=', '=']
  }

  function Encode(b: seq<byte>): string {
    if |b| == 0 then ""
    else if |b| == 1 then Quantum1(b[0])
    else if |b| == 2 then Quantum2(b[0], b[1])
    else Quantum3(b[0], b[1], b[2]) + Encode(b[3..])
  }

  // ---------- the decoder as a machine ----------

  predicate IsSpace(c: char) { c == ' ' || '\t' <= c <= '\r' }

  predicate InAlphabet(c: char) {
    'A' <= c <= 'Z' || 'a' <= c <= 'z' || '0' <= c <= '9' || c == '+' || c == '/'
  }

  // The offset of a character in the alphabet string.
  function Offset(c: char): (v: sextet)
    requires InAlphabet(c)
  {
    if 'A' <= c <= 'Z' then c as int - 'A' as int
    else if 'a' <= c <= 'z' then c as int - 'a' as int + 26
    else if '0' <= c <= '9' then c as int - '0' as int + 52
    else if c == '+' then 62 else 63
  }

  // The bytes that are complete, and the bits of the next one.
  datatype Machine = Machine(state: nat, out: seq<byte>, part: int)

  ghost predicate Ready(m: Machine) {
    && m.state < 4
    && 0 <= m.part < 256
    && (m.state == 0 ==> m.part == 0)
    && (m.state == 1 ==> m.part % 4 == 0)
    && (m.state == 2 ==> m.part % 16 == 0)
    && (m.state == 3 ==> m.part % 64 == 0)
  }

  lemma Shifts(v: sextet)
    ensures v * 4 < 256 && v / 16 < 4 && v % 16 * 16 < 256 && v / 4 < 16 && v % 4 * 64 < 256
    ensures v * 4 % 4 == 0 && v % 16 * 16 % 16 == 0 && v % 4 * 64 % 64 == 0
  {}

  function Feed1(m: Machine, v: sextet): (r: Machine)
    requires Ready(m)
    ensures Ready(r) && m.out <= r.out
  {
    Shifts(v);
    if m.state == 0 then Machine(1, m.out, v * 4)
    else if m.state == 1 then Machine(2, m.out + [m.part + v / 16], v % 16 * 16)
    else if m.state == 2 then Machine(3, m.out + [m.part + v / 4], v % 4 * 64)
    else Machine(0, m.out + [m.part + v], 0)
  }

  // Blanks are skipped; '=' and anything foreign end the text.
  function Feed(m: Machine, s: string): (r: Machine)
    requires Ready(m)
    ensures Ready(r) && m.out <= r.out
    decreases |s|
  {
    if s == [] || (!IsSpace(s[0]) && !InAlphabet(s[0])) then m
    else if IsSpace(s[0]) then Feed(m, s[1..])
    else Feed(Feed1(m, Offset(s[0])), s[1..])
  }

  // Whether the text ends at a foreign character.
  predicate Foreign(s: string) {
    s != [] &&
    if IsSpace(s[0]) || InAlphabet(s[0]) then Foreign(s[1..]) else s[0] != '='
  }

  function Start(): Machine { Machine(0, [], 0) }

  function Bytes(s: string): seq<byte> { Feed(Start(), s).out }

  // What isspace skips: blank, tab, line feed, vertical tab, form feed and carriage return.
  lemma WhiteSpaceIs(c: char)
    ensures var n := c as int; IsSpace(c) <==> n == 32 || n == 9 || n == 10 || n == 11 || n == 12 || n == 13
  {}

  const CAPITALS: string := "ABCDEFGHIJKLMNOPQRSTUVWXYZ"
  const LETTERS: string := "abcdefghijklmnopqrstuvwxyz"
  const SYMBOLS: string := "0123456789+/"
  const ALPHABET: string := CAPITALS + LETTERS + SYMBOLS

  lemma AlphabetIs(v: sextet)
    ensures |ALPHABET| == 64 && Letter(v) == ALPHABET[v]
  {
    assert |CAPITALS| == 26 && |LETTERS| == 26 && |SYMBOLS| == 12;
    if v < 26 {
      assert ALPHABET[v] == CAPITALS[v];
    } else if v < 52 {
      assert ALPHABET[v] == LETTERS[v - 26];
    } else {
      SymbolsAre(v - 52);
      assert ALPHABET[v] == SYMBOLS[v - 52];
    }
  }

  lemma SymbolsAre(k: nat)
    requires k < 12
    ensures Letter(k + 52) == SYMBOLS[k]
  {}

  // Only those characters are in the alphabet.
  lemma AlphabetOnly(c: char, v: sextet)
    ensures InAlphabet(c) ==> Letter(Offset(c)) == c
    ensures InAlphabet(Letter(v)) && Offset(Letter(v)) == v
  {}

  // Test vectors of section 10 of RFC 4648: "f", "fo", "foo".
  lemma TestVectors()
    ensures Encode([102]) == "Zg==" && Encode([102, 111]) == "Zm8=" && Encode([102, 111, 111]) == "Zm9v"
  {
    assert [102, 111, 111][3..] == [];
    assert Encode([]) == "";
  }

  // ---------- round trip ----------

  function NoSpace(s: string): string {
    if s == [] then [] else (if IsSpace(s[0]) then [] else [s[0]]) + NoSpace(s[1..])
  }

  lemma {:induction false} SpacesAreIgnored(m: Machine, s: string)
    requires Ready(m)
    ensures Feed(m, s) == Feed(m, NoSpace(s)) && Foreign(s) == Foreign(NoSpace(s))
    decreases |s|
  {
    if s != [] {
      var rest := NoSpace(s[1..]);
      if IsSpace(s[0]) {
        SpacesAreIgnored(m, s[1..]);
        assert NoSpace(s) == rest;
      } else {
        assert NoSpace(s) == [s[0]] + rest && NoSpace(s)[1..] == rest;
        SpacesAreIgnored(if InAlphabet(s[0]) then Feed1(m, Offset(s[0])) else m, s[1..]);
      }
    }
  }

  lemma FeedLetter(m: Machine, v: sextet, s: string)
    requires Ready(m)
    ensures Feed(m, [Letter(v)] + s) == Feed(Feed1(m, v), s)
    ensures Foreign([Letter(v)] + s) == Foreign(s)
  {}

  // Three bytes, through the four states and back.
  lemma FourLetters(out: seq<byte>, a: byte, b: byte, c: byte)
    ensures Feed1(Feed1(Feed1(Feed1(Machine(0, out, 0), a / 4), a % 4 * 16 + b / 16), b % 16 * 4 + c / 64), c % 64)
         == Machine(0, out + [a, b, c], 0)
  {
    Regroup16(a % 4, b / 16);
    Regroup4(b % 16, c / 64);
    assert out + [a] + [b] + [c] == out + [a, b, c];
  }

  lemma Regroup16(high: nat, low: nat)
    requires low < 16
    ensures (high * 16 + low) / 16 == high && (high * 16 + low) % 16 == low
  {}

  lemma Regroup4(high: nat, low: nat)
    requires low < 4
    ensures (high * 4 + low) / 4 == high && (high * 4 + low) % 4 == low
  {}

  lemma EncodeCases(b: seq<byte>)
    ensures |b| == 0 ==> Encode(b) == ""
    ensures |b| == 1 ==> Encode(b) == Quantum1(b[0])
    ensures |b| == 2 ==> Encode(b) == Quantum2(b[0], b[1])
    ensures |b| >= 3 ==> Encode(b) == Quantum3(b[0], b[1], b[2]) + Encode(b[3..])
  {
    hide Quantum1, Quantum2, Quantum3;
  }

  lemma Fresh(out: seq<byte>)
    ensures Ready(Machine(0, out, 0)) && Feed(Machine(0, out, 0), "") == Machine(0, out, 0) && !Foreign("")
  {}

  lemma {:induction false} DecodesEncoding(out: seq<byte>, b: seq<byte>)
    ensures Ready(Machine(0, out, 0))
    ensures Feed(Machine(0, out, 0), Encode(b)).out == out + b && !Foreign(Encode(b))
    decreases |b|
  {
    hide *;
    Fresh(out);
    EncodeCases(b);
    var m := Machine(0, out, 0);
    if |b| == 0 {
      assert out + b == out;
    } else if |b| == 1 {
      Pad1(m, b[0]);
      assert b == [b[0]];
    } else if |b| == 2 {
      Pad2(m, b[0], b[1]);
      assert b == [b[0], b[1]];
    } else {
      FourLettersThen(m, b[0], b[1], b[2], Encode(b[3..]));
      DecodesEncoding(out + [b[0], b[1], b[2]], b[3..]);
      assert out + [b[0], b[1], b[2]] + b[3..] == out + b;
    }
  }

  lemma FourLettersThen(m: Machine, a: byte, b: byte, c: byte, s: string)
    requires m.state == 0 && m.part == 0
    ensures var t := Quantum3(a, b, c) + s;
      Feed(m, t) == Feed(Machine(0, m.out + [a, b, c], 0), s) && Foreign(t) == Foreign(s)
  {
    hide Letter, Feed, Feed1, Foreign;
    var v0, v1, v2, v3 := a / 4, a % 4 * 16 + b / 16, b % 16 * 4 + c / 64, c % 64;
    var t3 := [Letter(v3)] + s;
    var t2 := [Letter(v2)] + t3;
    var t1 := [Letter(v1)] + t2;
    assert [Letter(v0), Letter(v1), Letter(v2), Letter(v3)] + s == [Letter(v0)] + t1;
    FeedLetter(m, v0, t1);
    FeedLetter(Feed1(m, v0), v1, t2);
    FeedLetter(Feed1(Feed1(m, v0), v1), v2, t3);
    FeedLetter(Feed1(Feed1(Feed1(m, v0), v1), v2), v3, s);
    FourLetters(m.out, a, b, c);
  }

  // The first padding character ends the text.
  lemma Stops(m: Machine, s: string)
    requires Ready(m) && s != [] && s[0] == '='
    ensures Feed(m, s) == m && !Foreign(s)
  {}

  lemma OneByte(out: seq<byte>, a: byte)
    ensures Feed1(Feed1(Machine(0, out, 0), a / 4), a % 4 * 16).out == out + [a]
  {
    assert a / 4 * 4 + a % 4 == a;
  }

  lemma TwoBytes(out: seq<byte>, a: byte, b: byte)
    ensures Feed1(Feed1(Feed1(Machine(0, out, 0), a / 4), a % 4 * 16 + b / 16), b % 16 * 4).out == out + [a, b]
  {
    var v := a % 4 * 16 + b / 16;
    assert v / 16 == a % 4 && v % 16 == b / 16;
    assert a / 4 * 4 + a % 4 == a && b / 16 * 16 + b % 16 == b;
    assert out + [a] + [b] == out + [a, b];
  }

  lemma Pad1(m: Machine, a: byte)
    requires m.state == 0 && m.part == 0
    ensures var t := Quantum1(a); Feed(m, t).out == m.out + [a] && !Foreign(t)
  {
    hide Letter, Feed, Feed1, Foreign;
    var v0, v1 := a / 4, a % 4 * 16;
    var t := [Letter(v1)] + "==";
    assert [Letter(v0), Letter(v1), '=', '='] == [Letter(v0)] + t;
    FeedLetter(m, v0, t);
    FeedLetter(Feed1(m, v0), v1, "==");
    Stops(Feed1(Feed1(m, v0), v1), "==");
    OneByte(m.out, a);
  }

  lemma Pad2(m: Machine, a: byte, b: byte)
    requires m.state == 0 && m.part == 0
    ensures var t := Quantum2(a, b); Feed(m, t).out == m.out + [a, b] && !Foreign(t)
  {
    hide Letter, Feed, Feed1, Foreign;
    var v0, v1, v2 := a / 4, a % 4 * 16 + b / 16, b % 16 * 4;
    var t2 := [Letter(v2)] + "=";
    var t1 := [Letter(v1)] + t2;
    assert [Letter(v0), Letter(v1), Letter(v2), '='] == [Letter(v0)] + t1;
    FeedLetter(m, v0, t1);
    FeedLetter(Feed1(m, v0), v1, t2);
    FeedLetter(Feed1(Feed1(m, v0), v1), v2, "=");
    Stops(Feed1(Feed1(Feed1(m, v0), v1), v2), "=");
    TwoBytes(m.out, a, b);
  }

  // The encoding of b, with blanks anywhere, decodes to b.
  lemma RoundTrip(b: seq<byte>, s: string)
    requires NoSpace(s) == Encode(b)
    ensures Bytes(s) == b && !Foreign(s)
  {
    SpacesAreIgnored(Start(), s);
    DecodesEncoding([], b);
  }

  // ---------- decode_base64 ----------

  // Where the machine stands is what the destination holds.
  ghost predicate Mirrors(dest: seq<byte>, m: Machine, szdest: int)
    requires 0 <= szdest < |dest|
  {
    && Ready(m) && |m.out| <= szdest && dest[..|m.out|] == m.out
    && (m.state != 0 ==> |m.out| < szdest && dest[|m.out|] == m.part)
  }

  // Three bytes for every four characters.
  ghost predicate InPhase(m: Machine) {
    |m.out| % 3 == if m.state <= 1 then 0 else m.state - 1
  }

  lemma PhaseKept(m: Machine, v: sextet)
    requires Ready(m) && InPhase(m)
    ensures InPhase(Feed1(m, v))
  {}

  // What a destination of szdest bytes holds of as many or more: all szdest at the end of a quantum, and else
  // szdest - 1 of them and the bits that the characters so far gave the next one.
  ghost predicate Filled(dest: seq<byte>, bytes: seq<byte>, szdest: nat)
    requires szdest < |dest| && szdest <= |bytes|
  {
    if szdest % 3 == 0 then dest[..szdest] == bytes[..szdest]
    else
      var k := if szdest % 3 == 1 then 4 else 16;
      dest[..szdest - 1] == bytes[..szdest - 1] && dest[szdest - 1] == bytes[szdest - 1] / k * k
  }

  // The machine is where no further character has room.
  ghost predicate NoRoom(m: Machine, szdest: int) {
    m.state != 3 && |m.out| == if m.state == 0 then szdest else szdest - 1
  }

  lemma NoRoomIsFilled(dest: seq<byte>, m: Machine, v: sextet, bytes: seq<byte>, szdest: nat)
    requires szdest < |dest| && Mirrors(dest, m, szdest) && InPhase(m) && NoRoom(m, szdest)
    requires Feed1(m, v).out <= bytes
    ensures szdest <= |bytes| && Filled(dest, bytes, szdest)
    ensures szdest % 3 == 0 <==> m.state == 0
  {
    var n := |m.out|;
    assert bytes[..n] == m.out;
    if m.state != 0 {
      HighBits(m, v);
      assert bytes[n] == Feed1(m, v).out[n];
    }
  }

  lemma HighBits(m: Machine, v: sextet)
    requires Ready(m) && (m.state == 1 || m.state == 2)
    ensures var k := if m.state == 1 then 4 else 16;
      |Feed1(m, v).out| == |m.out| + 1 && Feed1(m, v).out[|m.out|] / k * k == m.part
  {
    if m.state == 1 {
      LowTwo(m.part, v / 16);
    } else {
      LowFour(m.part, v / 4);
    }
  }

  lemma LowTwo(p: nat, x: nat)
    requires p % 4 == 0 && x < 4
    ensures (p + x) / 4 * 4 == p
  {}

  lemma LowFour(p: nat, x: nat)
    requires p % 16 == 0 && x < 16
    ensures (p + x) / 16 * 16 == p
  {}

  lemma {:induction false} FeedInPhase(m: Machine, s: string)
    requires Ready(m) && InPhase(m)
    ensures InPhase(Feed(m, s))
    decreases |s|
  {
    if s != [] {
      if IsSpace(s[0]) {
        FeedInPhase(m, s[1..]);
      } else if InAlphabet(s[0]) {
        PhaseKept(m, Offset(s[0]));
        hide InPhase, Feed1;
        FeedInPhase(Feed1(m, Offset(s[0])), s[1..]);
      }
    }
  }

  // From state 1 on, each further character completes a byte.
  lemma {:induction false} AnotherByte(m: Machine, s: string)
    requires Ready(m) && m.state == 1
    ensures Feed(m, s) == m || |Feed(m, s).out| > |m.out|
    decreases |s|
  {
    if s != [] && IsSpace(s[0]) {
      AnotherByte(m, s[1..]);
    }
  }

  // One character of the alphabet; false when there is no room for it.
  method Store(dest: array<byte>, szdest: int, state: nat, destidx: nat, v: sextet, ghost m: Machine)
    returns (room: bool, state': nat, destidx': nat)
    requires 0 <= szdest < dest.Length && Mirrors(dest[..], m, szdest)
    requires state == m.state && destidx == |m.out|
    modifies dest
    ensures dest[szdest..] == old(dest[szdest..])
    ensures room ==> Mirrors(dest[..], Feed1(m, v), szdest)
    ensures room ==> state' == Feed1(m, v).state && destidx' == |Feed1(m, v).out|
    ensures !room ==> dest[..] == old(dest[..]) && NoRoom(m, szdest)
  {
    room, state', destidx' := true, (state + 1) % 4, destidx;
    ghost var before := dest[..destidx];
    match state
    case 0 =>
      if destidx >= szdest {
        room := false;
      } else {
        dest[destidx] := v * 4;
      }
    case 1 =>
      if destidx + 1 >= szdest {
        room := false;
      } else {
        dest[destidx] := dest[destidx] + v / 16;
        dest[destidx + 1] := v % 16 * 16;
        destidx' := destidx + 1;
      }
    case 2 =>
      if destidx + 1 >= szdest {
        room := false;
      } else {
        dest[destidx] := dest[destidx] + v / 4;
        dest[destidx + 1] := v % 4 * 64;
        destidx' := destidx + 1;
      }
    case _ =>
      // the room was checked in state 2
      dest[destidx] := dest[destidx] + v;
      destidx' := destidx + 1;
    assert dest[..destidx] == before;
    assert destidx' > destidx ==> dest[..destidx'] == before + [dest[destidx]];
  }

  // The destination gets the decoded bytes as far as they fit. Without a foreign character before the destination
  // is full, a final NUL is put at szdest, unless a further character found no room.
  method Decode(dest: array<byte>, szdest: int, src: string) returns (ok: bool)
    requires 0 <= szdest < dest.Length
    modifies dest
    ensures |Bytes(src)| < szdest ==> dest[..|Bytes(src)|] == Bytes(src)
    ensures |Bytes(src)| >= szdest ==> Filled(dest[..], Bytes(src), szdest)
    ensures var ends := |Bytes(src)| < szdest || (|Bytes(src)| == szdest && Feed(Start(), src).state == 0);
      && ok == !(ends && Foreign(src))
      && dest[szdest] == if ends && ok then 0 else old(dest[szdest])
    ensures dest[szdest + 1..] == old(dest[szdest + 1..])
  {
    hide Feed1, Offset, InAlphabet, IsSpace, Ready, InPhase, Filled, NoRoom;
    var state: nat, destidx: nat := 0, 0;
    ghost var m := Start();
    StartReady();
    for i := 0 to |src|
      invariant Ready(m) && InPhase(m) && Mirrors(dest[..], m, szdest) && state == m.state && destidx == |m.out|
      invariant Feed(m, src[i..]) == Feed(Start(), src) && Foreign(src[i..]) == Foreign(src)
      invariant dest[szdest..] == old(dest[szdest..])
    {
      var ch := src[i];
      assert src[i..][0] == ch && src[i..][1..] == src[i + 1..];
      if IsSpace(ch) {
        continue;
      }
      if ch == '=' {
        Letters();
        break;
      }
      if !InAlphabet(ch) {
        AllStored(dest[..], m, szdest);
        return false;
      }
      var room;
      ghost var m' := Feed1(m, Offset(ch));
      PhaseKept(m, Offset(ch));
      room, state, destidx := Store(dest, szdest, state, destidx, Offset(ch), m);
      if !room {
        NoRoomIsFilled(dest[..], m, Offset(ch), Bytes(src), szdest);
        NoneLeft(m, Offset(ch), src[i + 1..], szdest);
        return true;
      }
      m := m';
    }
    AllStored(dest[..], m, szdest);
    ghost var before := dest[..];
    dest[szdest] := 0;
    SameFilled(before, dest[..], m.out, szdest);
    ok := true;
  }

  // The text ends while everything has found its place.
  lemma AllStored(dest: seq<byte>, m: Machine, szdest: nat)
    requires szdest < |dest| && Mirrors(dest, m, szdest) && InPhase(m)
    ensures |m.out| <= szdest && dest[..|m.out|] == m.out
    ensures |m.out| == szdest ==> m.state == 0 && Filled(dest, m.out, szdest)
  {}

  lemma SameFilled(dest: seq<byte>, after: seq<byte>, out: seq<byte>, szdest: nat)
    requires szdest < |dest| == |after| && after[..szdest] == dest[..szdest]
    requires |out| <= szdest && dest[..|out|] == out && (|out| == szdest ==> Filled(dest, out, szdest))
    ensures after[..|out|] == out && (|out| == szdest ==> Filled(after, out, szdest))
  {
    assert after[..|out|] == after[..szdest][..|out|] && dest[..|out|] == dest[..szdest][..|out|];
    if szdest > 0 {
      var n := szdest - 1;
      assert after[..n] == after[..szdest][..n] && dest[..n] == dest[..szdest][..n];
      assert after[n] == after[..szdest][n] && dest[n] == dest[..szdest][n];
    }
  }

  // A character that finds no room is one too many.
  lemma NoneLeft(m: Machine, v: sextet, rest: string, szdest: nat)
    requires Ready(m) && InPhase(m) && NoRoom(m, szdest)
    ensures var r := Feed(Feed1(m, v), rest); |r.out| > szdest || (|r.out| == szdest && r.state != 0)
  {
    PhaseKept(m, v);
    FeedInPhase(Feed1(m, v), rest);
    if m.state == 0 {
      AnotherByte(Feed1(m, v), rest);
    }
  }

  lemma StartReady()
    ensures Ready(Start()) && InPhase(Start())
  {}

  lemma Letters()
    ensures !IsSpace('=') && !InAlphabet('=')
  {}
}
