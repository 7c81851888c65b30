/** The "$1$" password scheme on top of MD5. C strings are byte sequences without their NUL. */
module Md5Crypt {
  import opened Basics
  import opened Rfc1321
  import opened Md5

  type text = seq<byte>

  const DOLLAR: byte := 36
  const MAGIC: text := [36, 49, 36]

  // The true salt: what follows an optional "$1$", up to a '$' or 8 characters.
  function SkipMagic(salt: text): text {
    if |salt| >= 3 && salt[..3] == MAGIC then salt[3..] else salt
  }

  function UpToDollar(s: text, room: nat): (k: nat)
    ensures k <= |s| && k <= room
    ensures DOLLAR !in s[..k]
    ensures k == |s| || k == room || s[k] == DOLLAR
  {
    if s == [] || s[0] == DOLLAR || room == 0 then 0 else 1 + UpToDollar(s[1..], room - 1)
  }

  function Refine(salt: text): (sp: text)
    ensures |sp| <= 8 && DOLLAR !in sp
  {
    var s := SkipMagic(salt);
    s[..UpToDollar(s, 8)]
  }

  // The digest repeated to the length of the password.
  function Cyclic(f: text, n: nat): (s: text)
    requires |f| == 16
    ensures |s| == n
  {
    seq(n, i requires 0 <= i < n => f[i % 16])
  }

  // One byte per binary digit of the length, from the lowest.
  function LengthMix(pw: text, i: nat): text
    requires i <= |pw|
  {
    if i == 0 then [] else (if i % 2 == 1 then [0] else [pw[0]]) + LengthMix(pw, i / 2)
  }

  // What is hashed for the seed.
  function SeedMessage(pw: text, sp: text): text {
    pw + MAGIC + sp + Cyclic(Digest(pw + sp + pw), |pw|) + LengthMix(pw, |pw|)
  }

  function Seed(pw: text, sp: text): (f: text)
    ensures |f| == 16
  {
    Digest(SeedMessage(pw, sp))
  }

  // What is hashed in round i.
  function Mixture(i: nat, f: text, pw: text, sp: text): text {
    (if i % 2 == 1 then pw else f)
    + (if i % 3 != 0 then sp else [])
    + (if i % 7 != 0 then pw else [])
    + (if i % 2 == 1 then f else pw)
  }

  function Round(i: nat, f: text, pw: text, sp: text): (g: text)
    ensures |g| == 16
  {
    Digest(Mixture(i, f, pw, sp))
  }

  function Stretch(rounds: nat, f: text, pw: text, sp: text): (g: text)
    requires |f| == 16
    ensures |g| == 16
  {
    if rounds == 0 then f else Round(rounds - 1, Stretch(rounds - 1, f, pw, sp), pw, sp)
  }

  // The alphabet "./0-9A-Za-z", whose first twelve characters are consecutive in ASCII.
  function Itoa64(d: nat): byte
    requires d < 64
  {
    if d < 12 then d + 46 else if d < 38 then d + 53 else d + 59
  }

  // The low 6n bits of v, six at a time from the lowest.
  function Printed64(v: nat, n: nat): (s: text)
    ensures |s| == n
  {
    if n == 0 then [] else [Itoa64(v % 64)] + Printed64(v / 64, n - 1)
  }

  function Group(x: byte, y: byte, z: byte): (v: nat)
    ensures v < 0x100_0000
  {
    65536 * (x as int) + 256 * (y as int) + z as int
  }

  function Tail(f: text): (s: text)
    requires |f| == 16
    ensures |s| == 22
  {
    Printed64(Group(f[0], f[6], f[12]), 4) + Printed64(Group(f[1], f[7], f[13]), 4)
    + Printed64(Group(f[2], f[8], f[14]), 4) + Printed64(Group(f[3], f[9], f[15]), 4)
    + Printed64(Group(f[4], f[10], f[5]), 4) + Printed64(f[11], 2)
  }

  function Crypt(pw: text, salt: text): (s: text)
    ensures |s| == 4 + |Refine(salt)| + 22 <= 34
  {
    var sp := Refine(salt);
    MAGIC + sp + [DOLLAR] + Tail(Stretch(1000, Seed(pw, sp), pw, sp))
  }

  // ---------- the printed characters ----------

  const SYMBOLS: string := "./0123456789"
  const CAPITALS: string := "ABCDEFGHIJKLMNOPQRSTUVWXYZ"
  const LETTERS: string := "abcdefghijklmnopqrstuvwxyz"

  function Alphabet(): (s: string) {
    SYMBOLS + CAPITALS + LETTERS
  }

  lemma AlphabetIs(d: nat)
    requires d < 64
    ensures |Alphabet()| == 64 && Itoa64(d) == Alphabet()[d] as int
  {
    assert |SYMBOLS| == 12 && |CAPITALS| == 26 && |LETTERS| == 26;
    if d < 12 {
      assert Alphabet()[d] == SYMBOLS[d];
    } else if d < 38 {
      assert Alphabet()[d] == CAPITALS[d - 12];
    } else {
      assert Alphabet()[d] == LETTERS[d - 38];
    }
  }

  // The number that a character stands for, and what a text of them reads as, lowest first.
  function Atoi64(c: byte): (d: int) {
    if c < 58 then c - 46 else if c < 91 then c - 53 else c - 59
  }

  function Read64(s: text): int {
    if s == [] then 0 else Atoi64(s[0]) + 64 * Read64(s[1..])
  }

  function Pow64(n: nat): (p: nat)
    ensures p > 0
  {
    if n == 0 then 1 else 64 * Pow64(n - 1)
  }

  // Printing and reading back loses nothing below 64^n.
  lemma {:induction false} Read64Inverts(v: nat, n: nat)
    requires v < Pow64(n)
    ensures Read64(Printed64(v, n)) == v
    decreases n
  {
    if n > 0 {
      assert v / 64 < Pow64(n - 1);
      Read64Inverts(v / 64, n - 1);
      assert Printed64(v, n)[1..] == Printed64(v / 64, n - 1);
      assert Atoi64(Itoa64(v % 64)) == v % 64;
    }
  }

  // A group of three bytes is determined by its four characters.
  lemma GroupDetermined(x: byte, y: byte, z: byte, x': byte, y': byte, z': byte)
    requires Printed64(Group(x, y, z), 4) == Printed64(Group(x', y', z'), 4)
    ensures x == x' && y == y' && z == z'
  {
    assert Pow64(2) == 4096 && Pow64(4) == 0x100_0000;
    Read64Inverts(Group(x, y, z), 4);
    Read64Inverts(Group(x', y', z'), 4);
    hide Printed64, Read64;
    GroupSplits(x, y, z);
    GroupSplits(x', y', z');
  }

  lemma GroupSplits(x: byte, y: byte, z: byte)
    ensures var v := Group(x, y, z); v / 65536 == x && v / 256 % 256 == y && v % 256 == z
  {
    var v := Group(x, y, z);
    LowByteOfSum(z, 256 * (x as int) + y as int);
    LowByteOfSum(y, x);
    assert v / 65536 == v / 256 / 256;
  }

  lemma ByteDetermined(x: byte, x': byte)
    requires Printed64(x, 2) == Printed64(x', 2)
    ensures x == x'
  {
    assert Pow64(2) == 4096;
    Read64Inverts(x, 2);
    Read64Inverts(x', 2);
  }

  lemma SixParts(a: text, b: text, c: text, d: text, e: text, g: text)
    requires |a| == |b| == |c| == |d| == |e| == 4 && |g| == 2
    ensures var s := a + b + c + d + e + g;
      && s[0..4] == a && s[4..8] == b && s[8..12] == c && s[12..16] == d && s[16..20] == e && s[20..22] == g
  {}

  lemma TailParts(f: text)
    requires |f| == 16
    ensures Tail(f)[0..4] == Printed64(Group(f[0], f[6], f[12]), 4)
    ensures Tail(f)[4..8] == Printed64(Group(f[1], f[7], f[13]), 4)
    ensures Tail(f)[8..12] == Printed64(Group(f[2], f[8], f[14]), 4)
    ensures Tail(f)[12..16] == Printed64(Group(f[3], f[9], f[15]), 4)
    ensures Tail(f)[16..20] == Printed64(Group(f[4], f[10], f[5]), 4)
    ensures Tail(f)[20..22] == Printed64(f[11], 2)
  {
    hide Printed64, Group;
    SixParts(Printed64(Group(f[0], f[6], f[12]), 4), Printed64(Group(f[1], f[7], f[13]), 4),
             Printed64(Group(f[2], f[8], f[14]), 4), Printed64(Group(f[3], f[9], f[15]), 4),
             Printed64(Group(f[4], f[10], f[5]), 4), Printed64(f[11], 2));
  }

  // Which bytes the characters stand for, in numbers.
  lemma TailReads(f: text)
    requires |f| == 16
    ensures var s := Tail(f);
      && Read64(s[0..4]) == 65536 * (f[0] as int) + 256 * (f[6] as int) + f[12] as int
      && Read64(s[4..8]) == 65536 * (f[1] as int) + 256 * (f[7] as int) + f[13] as int
      && Read64(s[8..12]) == 65536 * (f[2] as int) + 256 * (f[8] as int) + f[14] as int
      && Read64(s[12..16]) == 65536 * (f[3] as int) + 256 * (f[9] as int) + f[15] as int
      && Read64(s[16..20]) == 65536 * (f[4] as int) + 256 * (f[10] as int) + f[5] as int
      && Read64(s[20..22]) == f[11]
  {
    assert Pow64(2) == 4096 && Pow64(4) == 0x100_0000;
    hide Printed64, Read64, Tail, Pow64;
    TailParts(f);
    Read64Inverts(Group(f[0], f[6], f[12]), 4);
    Read64Inverts(Group(f[1], f[7], f[13]), 4);
    Read64Inverts(Group(f[2], f[8], f[14]), 4);
    Read64Inverts(Group(f[3], f[9], f[15]), 4);
    Read64Inverts(Group(f[4], f[10], f[5]), 4);
    Read64Inverts(f[11], 2);
  }

  // The 22 printed characters determine all 16 bytes of the digest.
  lemma TailDetermines(f: text, g: text)
    requires |f| == 16 && |g| == 16
    requires Tail(f) == Tail(g)
    ensures f == g
  {
    hide Printed64, Group, Tail;
    TailParts(f);
    TailParts(g);
    GroupDetermined(f[0], f[6], f[12], g[0], g[6], g[12]);
    GroupDetermined(f[1], f[7], f[13], g[1], g[7], g[13]);
    GroupDetermined(f[2], f[8], f[14], g[2], g[8], g[14]);
    GroupDetermined(f[3], f[9], f[15], g[3], g[9], g[15]);
    GroupDetermined(f[4], f[10], f[5], g[4], g[10], g[5]);
    ByteDetermined(f[11], g[11]);
  }

  ghost predicate InAlphabet64(c: byte) {
    exists d: nat :: d < 64 && Itoa64(d) == c
  }

  lemma {:induction false} PrintedInAlphabet(v: nat, n: nat)
    ensures forall i :: 0 <= i < n ==> InAlphabet64(Printed64(v, n)[i])
    decreases n
  {
    if n > 0 {
      assert InAlphabet64(Itoa64(v % 64));
      PrintedInAlphabet(v / 64, n - 1);
    }
  }

  // Nothing but "./0-9A-Za-z" is printed for a digest.
  lemma TailInAlphabet(f: text)
    requires |f| == 16
    ensures forall i :: 0 <= i < 22 ==> InAlphabet64(Tail(f)[i])
  {
    hide Printed64, Group, InAlphabet64;
    PrintedInAlphabet(Group(f[0], f[6], f[12]), 4);
    PrintedInAlphabet(Group(f[1], f[7], f[13]), 4);
    PrintedInAlphabet(Group(f[2], f[8], f[14]), 4);
    PrintedInAlphabet(Group(f[3], f[9], f[15]), 4);
    PrintedInAlphabet(Group(f[4], f[10], f[5]), 4);
    PrintedInAlphabet(f[11], 2);
  }

  // The printed result parses back to the salt it was made with, with or without the prefix.
  lemma SaltSurvives(sp: text, rest: text)
    requires |sp| <= 8 && DOLLAR !in sp
    ensures Refine(MAGIC + sp + [DOLLAR] + rest) == sp
  {
    var s := MAGIC + sp + [DOLLAR] + rest;
    assert s[..3] == MAGIC && s[3..] == sp + [DOLLAR] + rest;
    StopsAtDollar(sp, [DOLLAR] + rest, 8);
    assert sp + [DOLLAR] + rest == sp + ([DOLLAR] + rest);
  }

  lemma {:induction false} StopsAtDollar(sp: text, rest: text, room: nat)
    requires |sp| <= room && DOLLAR !in sp && rest != [] && rest[0] == DOLLAR
    ensures UpToDollar(sp + rest, room) == |sp|
  {
    if sp == [] {
      assert sp + rest == rest;
    } else {
      assert sp[0] in sp;
      assert (sp + rest)[1..] == sp[1..] + rest;
      StopsAtDollar(sp[1..], rest, room - 1);
    }
  }

  // A salt without the prefix is its own first 8 characters, or what stands before its first '$'.
  lemma PlainSalt(salt: text, k: nat)
    requires !(|salt| >= 3 && salt[0] == '$' as int && salt[1] == '1' as int && salt[2] == '$' as int)
    requires k <= |salt| && k <= 8 && '$' as int !in salt[..k] && (k == |salt| || k == 8 || salt[k] == '$' as int)
    ensures Refine(salt) == salt[..k]
  {
    assert |salt| >= 3 ==> salt[..3] == [salt[0], salt[1], salt[2]];
    CountsTo(salt, k, 8);
  }

  lemma {:induction false} CountsTo(s: text, k: nat, room: nat)
    requires k <= |s| && k <= room && DOLLAR !in s[..k] && (k == |s| || k == room || s[k] == DOLLAR)
    ensures UpToDollar(s, room) == k
  {
    if k > 0 {
      assert s[0] == s[..k][0] && s[..k][1..] == s[1..][..k - 1];
      assert forall c :: c in s[..k][1..] ==> c in s[..k];
      CountsTo(s[1..], k - 1, room - 1);
    }
  }

  // ---------- what is mixed ----------

  // The mixture of each round, by the remainder of its number modulo 42.
  lemma MixtureIs(i: nat, f: text, pw: text, sp: text)
    ensures var m, r := Mixture(i, f, pw, sp), i % 42;
      && (r in {0} ==> m == f + pw)
      && (r in {21} ==> m == pw + f)
      && (r in {14, 28} ==> m == f + sp + pw)
      && (r in {7, 35} ==> m == pw + sp + f)
      && (r in {6, 12, 18, 24, 30, 36} ==> m == f + pw + pw)
      && (r in {3, 9, 15, 27, 33, 39} ==> m == pw + pw + f)
      && (r in {2, 4, 8, 10, 16, 20, 22, 26, 32, 34, 38, 40} ==> m == f + sp + pw + pw)
      && (r in {1, 5, 11, 13, 17, 19, 23, 25, 29, 31, 37, 41} ==> m == pw + sp + pw + f)
  {
    Residues(i);
    MixtureCases(f, pw, sp, i % 2 == 1, i % 3 != 0, i % 7 != 0);
  }

  lemma Residues(i: nat)
    ensures i % 2 == i % 42 % 2 && i % 3 == i % 42 % 3 && i % 7 == i % 42 % 7
  {
    var q := i / 42;
    Modulo2(i, 21 * q);
    Modulo3(i, 14 * q);
    Modulo7(i, 6 * q);
  }

  lemma Modulo2(i: nat, q: nat)
    ensures (i - 2 * q) % 2 == i % 2
  {}

  lemma Modulo3(i: nat, q: nat)
    ensures (i - 3 * q) % 3 == i % 3
  {}

  lemma Modulo7(i: nat, q: nat)
    ensures (i - 7 * q) % 7 == i % 7
  {}

  lemma MixtureCases(f: text, pw: text, sp: text, odd: bool, salted: bool, again: bool)
    ensures (if odd then pw else f) + (if salted then sp else []) + (if again then pw else []) + (if odd then f else pw)
         == if odd then
              if salted then (if again then pw + sp + pw + f else pw + sp + f)
              else (if again then pw + pw + f else pw + f)
            else
              if salted then (if again then f + sp + pw + pw else f + sp + pw)
              else (if again then f + pw + pw else f + pw)
  {}

  lemma MixtureLength(i: nat, f: text, pw: text, sp: text)
    requires |f| == 16
    ensures |Mixture(i, f, pw, sp)| == 16 + |pw| + (if i % 3 == 0 then 0 else |sp|) + (if i % 7 == 0 then 0 else |pw|)
  {}

  // The first two rounds.
  lemma FirstRounds(f: text, pw: text, sp: text)
    requires |f| == 16
    ensures Stretch(1, f, pw, sp) == Digest(f + pw)
    ensures Stretch(2, f, pw, sp) == Digest(pw + sp + pw + Stretch(1, f, pw, sp))
  {
    hide Digest, Mixture;
    MixtureIs(0, f, pw, sp);
    MixtureIs(1, Stretch(1, f, pw, sp), pw, sp);
    assert Stretch(0, f, pw, sp) == f;
    assert Stretch(1, f, pw, sp) == Round(0, f, pw, sp);
    assert Stretch(2, f, pw, sp) == Round(1, Stretch(1, f, pw, sp), pw, sp);
  }

  // Byte k of the length's mixture is 0 where binary digit k of the length is 1, and the first character elsewhere.
  lemma {:induction false} LengthMixIs(pw: text, i: nat, k: nat)
    requires i <= |pw|
    ensures k < |LengthMix(pw, i)| <==> i / Pow2(k) > 0
    ensures k < |LengthMix(pw, i)| ==> LengthMix(pw, i)[k] == if i / Pow2(k) % 2 == 1 then 0 else pw[0]
    decreases k
  {
    if i > 0 && k > 0 {
      LengthMixIs(pw, i / 2, k - 1);
      Halved(i, Pow2(k - 1));
    } else if i == 0 {
      assert 0 / Pow2(k) == 0;
    } else {
      assert Pow2(0) == 1;
    }
  }

  lemma Halved(i: nat, p: nat)
    requires p > 0
    ensures i / (2 * p) == i / 2 / p
  {
    var q, r := i / 2 / p, i / 2 % p;
    assert i / 2 == p * q + r;
    assert i == 2 * p * q + (2 * r + i % 2) by { assert 2 * (p * q) == 2 * p * q; }
    Quotient(i, 2 * p, q, 2 * r + i % 2);
  }

  lemma Quotient(n: nat, d: nat, q: nat, r: nat)
    requires d > 0 && n == d * q + r && r < d
    ensures n / d == q
  {
    var k := n / d - q;
    assert d * k == r - n % d by { assert n == d * (n / d) + n % d; assert d * k == d * (n / d) - d * q; }
    if k >= 1 {
      Times(1, k, d);
    }
  }

  // The seed hashes the password, the prefix, the salt, the repeated inner digest and the length's mixture.
  lemma SeedMessageIs(pw: text, sp: text)
    ensures var m, n := SeedMessage(pw, sp), |pw|;
      && |m| == 2 * n + 3 + |sp| + |LengthMix(pw, n)|
      && m[..n] == pw
      && m[n] == '$' as int && m[n + 1] == '1' as int && m[n + 2] == '$' as int
      && m[n + 3..n + 3 + |sp|] == sp
      && (forall j :: 0 <= j < n ==> m[n + 3 + |sp| + j] == Digest(pw + sp + pw)[j % 16])
      && m[2 * n + 3 + |sp|..] == LengthMix(pw, n)
  {
    hide Digest, LengthMix;
  }

  // The printed result is "$1$", the salt, "$" and the tail.
  lemma CryptIs(pw: text, salt: text)
    ensures var s, sp := Crypt(pw, salt), Refine(salt);
      && s[0] == '$' as int && s[1] == '1' as int && s[2] == '$' as int && s[3 + |sp|] == '$' as int
      && s[3..3 + |sp|] == sp && s[4 + |sp|..] == Tail(Stretch(1000, Seed(pw, sp), pw, sp))
  {
    hide Stretch, Seed, Tail;
  }

  // ---------- checking a password ----------

  // Checking a password: hashing it again under the stored result gives the stored result.
  lemma VerificationFixedPoint(pw: text, salt: text)
    ensures Crypt(pw, Crypt(pw, salt)) == Crypt(pw, salt)
  {
    hide Stretch, Seed, Tail;
    var sp := Refine(salt);
    SaltSurvives(sp, Tail(Stretch(1000, Seed(pw, sp), pw, sp)));
  }

  // A stored result accepts exactly the passwords with the same stretched digest under its salt.
  lemma AcceptedExactly(pw: text, salt: text, guess: text)
    ensures var sp := Refine(salt);
            Crypt(guess, Crypt(pw, salt)) == Crypt(pw, salt)
            <==> Stretch(1000, Seed(guess, sp), guess, sp) == Stretch(1000, Seed(pw, sp), pw, sp)
  {
    hide Stretch, Seed, Tail;
    var sp := Refine(salt);
    var f, g := Stretch(1000, Seed(pw, sp), pw, sp), Stretch(1000, Seed(guess, sp), guess, sp);
    SaltSurvives(sp, Tail(f));
    if Crypt(guess, Crypt(pw, salt)) == Crypt(pw, salt) {
      assert Tail(g) == (MAGIC + sp + [DOLLAR] + Tail(g))[4 + |sp|..];
      assert Tail(f) == (MAGIC + sp + [DOLLAR] + Tail(f))[4 + |sp|..];
      TailDetermines(f, g);
    }
  }

  lemma NextDigit(w: nat, left: nat, s: text)
    requires left > 0
    ensures s + Printed64(w, left) == s + [Itoa64(w % 64)] + Printed64(w / 64, left - 1)
  {
    hide Itoa64;
  }

  // _crypt_to64: the array of characters and the shifts.
  method CryptTo64(v: nat, n: nat) returns (s: text)
    ensures s == Printed64(v, n)
  {
    hide Alphabet, Itoa64;
    s := [];
    var w: nat, left: nat := v, n;
    while left > 0
      invariant left <= n
      invariant s + Printed64(w, left) == Printed64(v, n)
    {
      NextDigit(w, left, s);
      AlphabetIs(w % 64);
      s := s + [Alphabet()[w % 64] as int];
      w := w / 64;
      left := left - 1;
    }
  }

  method RefineSalt(salt: text) returns (sp: text)
    ensures sp == Refine(salt)
  {
    var s := salt;
    if |salt| >= 3 && salt[..3] == MAGIC {
      s := salt[3..];
    }
    var ep: nat := 0;
    while ep < |s| && s[ep] != DOLLAR && ep < 8
      invariant ep <= |s| && ep <= 8
      invariant UpToDollar(s, 8) == ep + UpToDollar(s[ep..], 8 - ep)
    {
      assert s[ep..][1..] == s[ep + 1..];
      ep := ep + 1;
    }
    sp := s[..ep];
  }

  // The digest of password, salt and password again.
  method InnerDigest(pw: text, sp: text) returns (final: text)
    requires |pw| < 0x8000_0000 && |sp| <= 8
    ensures final == Digest(pw + sp + pw)
  {
    hide Digest, Counts, Holds, Fold;
    var ctx1 := new Md5Context();
    ctx1.Update(pw);
    ctx1.Update(sp);
    ctx1.Update(pw);
    assert ctx1.message == pw + sp + pw;
    final := ctx1.Final();
  }

  // As many characters of the inner digest as the password has, 16 at a time.
  method FeedCyclic(ctx: Md5Context, final: text, n: nat)
    requires ctx.Valid() && |final| == 16
    modifies ctx, ctx.buf, ctx.input
    ensures ctx.Valid() && ctx.message == old(ctx.message) + Cyclic(final, n)
  {
    hide Digest, Counts, Holds, Fold, Cyclic;
    var pl: int := n;
    assert Cyclic(final, n)[..0] == [];
    while pl > 0
      invariant ctx.Valid() && pl <= n && (pl > 0 ==> (n - pl) % 16 == 0)
      invariant ctx.message == old(ctx.message) + Cyclic(final, n)[..if pl > 0 then n - pl else n]
    {
      var piece := final[..if pl > 16 then 16 else pl];
      CyclicPiece(final, n, n - pl, |piece|);
      ctx.Update(piece);
      pl := pl - 16;
    }
  }

  lemma CyclicPiece(f: text, n: nat, done: nat, k: nat)
    requires |f| == 16 && done % 16 == 0 && k <= 16 && done + k <= n
    ensures Cyclic(f, n)[..done] + f[..k] == Cyclic(f, n)[..done + k]
  {}

  // One byte per binary digit of the length; the digest has been cleared by then.
  method FeedLength(ctx: Md5Context, final: text, pw: text)
    requires ctx.Valid() && final == Zeros(16)
    modifies ctx, ctx.buf, ctx.input
    ensures ctx.Valid() && ctx.message == old(ctx.message) + LengthMix(pw, |pw|)
  {
    hide Digest, Counts, Holds, Fold;
    var i := |pw|;
    while i > 0
      invariant ctx.Valid() && 0 <= i <= |pw|
      invariant ctx.message + LengthMix(pw, i) == old(ctx.message) + LengthMix(pw, |pw|)
    {
      ghost var fed, rest := ctx.message, LengthMix(pw, i / 2);
      if i % 2 == 1 {
        ctx.Update(final[..1]);
        assert LengthMix(pw, i) == [0] + rest;
        assert fed + final[..1] + rest == fed + ([0] + rest);
      } else {
        ctx.Update(pw[..1]);
        assert LengthMix(pw, i) == [pw[0]] + rest;
        assert fed + pw[..1] + rest == fed + ([pw[0]] + rest);
      }
      i := i / 2;
    }
  }

  method SeedDigest(pw: text, sp: text) returns (final: text)
    requires |pw| < 0x8000_0000 && |sp| <= 8
    ensures final == Seed(pw, sp)
  {
    hide Digest, Counts, Holds, Fold, Cyclic, LengthMix;
    var ctx := new Md5Context();
    ctx.Update(pw);
    ctx.Update(MAGIC);
    ctx.Update(sp);
    final := InnerDigest(pw, sp);
    FeedCyclic(ctx, final, |pw|);
    ghost var inner := final;
    final := Zeros(16);
    FeedLength(ctx, final, pw);
    assert ctx.message == pw + MAGIC + sp + Cyclic(inner, |pw|) + LengthMix(pw, |pw|);
    final := ctx.Final();
  }

  method OneRound(i: nat, f: text, pw: text, sp: text) returns (final: text)
    requires |f| == 16 && |pw| < 0x8000_0000 && |sp| <= 8
    ensures final == Round(i, f, pw, sp)
  {
    hide Digest, Counts, Holds, Fold;
    var ctx1 := new Md5Context();
    ghost var a, b := if i % 2 == 1 then pw else f, if i % 3 != 0 then sp else [];
    ghost var c, d := if i % 7 != 0 then pw else [], if i % 2 == 1 then f else pw;
    if i % 2 == 1 {
      ctx1.Update(pw);
    } else {
      ctx1.Update(f);
    }
    assert ctx1.message == a;
    if i % 3 != 0 {
      ctx1.Update(sp);
    }
    assert ctx1.message == a + b;
    if i % 7 != 0 {
      ctx1.Update(pw);
    }
    assert ctx1.message == a + b + c;
    if i % 2 == 1 {
      ctx1.Update(f);
    } else {
      ctx1.Update(pw);
    }
    assert ctx1.message == a + b + c + d;
    assert ctx1.message == Mixture(i, f, pw, sp);
    final := ctx1.Final();
  }

  method PrintGroup(x: byte, y: byte, z: byte) returns (s: text)
    ensures s == Printed64(Group(x, y, z), 4)
  {
    hide Printed64;
    var l := (x as int) * 65536 + (y as int) * 256 + z as int;
    s := CryptTo64(l, 4);
  }

  // The last lines: five groups of three bytes and the byte left over.
  method PrintTail(final: text) returns (p: text)
    requires |final| == 16
    ensures p == Tail(final)
  {
    hide Printed64, Group;
    p := PrintGroup(final[0], final[6], final[12]);
    var s := PrintGroup(final[1], final[7], final[13]);
    p := p + s;
    s := PrintGroup(final[2], final[8], final[14]);
    p := p + s;
    s := PrintGroup(final[3], final[9], final[15]);
    p := p + s;
    s := PrintGroup(final[4], final[10], final[5]);
    p := p + s;
    s := CryptTo64(final[11], 2);
    p := p + s;
  }

  // md5_crypt.
  method Md5CryptString(pw: text, salt: text) returns (passwd: text)
    requires |pw| < 0x8000_0000
    ensures passwd == Crypt(pw, salt)
  {
    hide Seed, Round, Tail, Refine;
    var sp := RefineSalt(salt);
    var final := SeedDigest(pw, sp);
    passwd := MAGIC + sp + [DOLLAR];
    for i := 0 to 1000
      invariant final == Stretch(i, Seed(pw, sp), pw, sp)
    {
      final := OneRound(i, final, pw, sp);
    }
    var s := PrintTail(final);
    passwd := passwd + s;
  }
}
