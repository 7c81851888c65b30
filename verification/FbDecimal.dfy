/** How fbsql_store_field prints scaled integers. */
module FbDecimal {
  // ---------- decimal digits ----------

  function DigitChar(n: nat): char
    requires n < 10
  {
    '0' + n as char
  }

  predicate IsDigit(c: char) { '0' <= c <= '9' }

  ghost predicate AllDigits(s: string) { forall i :: 0 <= i < |s| ==> IsDigit(s[i]) }

  function Dec(n: nat): (s: string)
    ensures |s| > 0 && AllDigits(s)
  {
    if n < 10 then [DigitChar(n)] else Dec(n / 10) + [DigitChar(n % 10)]
  }

  function Value(s: string): int {
    if s == [] then 0 else 10 * Value(s[..|s| - 1]) + (s[|s| - 1] as int - '0' as int)
  }

  function Pow10(k: nat): (p: nat)
    ensures p > 0
  {
    if k == 0 then 1 else 10 * Pow10(k - 1)
  }

  function Repeat(c: char, n: nat): (s: string)
    ensures |s| == n && forall i :: 0 <= i < n ==> s[i] == c
  {
    seq(n, _ => c)
  }

  lemma {:induction false} ValueOfDec(n: nat)
    ensures Value(Dec(n)) == n
  {
    if n < 10 {
      assert Value([]) == 0;
      assert [DigitChar(n)][..0] == [];
    } else {
      ValueOfDec(n / 10);
      var s := Dec(n / 10) + [DigitChar(n % 10)];
      assert s[..|s| - 1] == Dec(n / 10);
    }
  }

  lemma Tenfold(v: int, p: int)
    ensures v * (10 * p) == 10 * (v * p)
  {}

  lemma LastDigit(s: string, c: char)
    ensures Value(s + [c]) == 10 * Value(s) + (c as int - '0' as int)
  {
    assert (s + [c])[..|s|] == s;
  }

  lemma NextPower(k: nat)
    ensures Pow10(k + 1) == 10 * Pow10(k)
  {}

  lemma AppendDigit(a: string, b: string, c: char)
    requires Value(a + b) == Value(a) * Pow10(|b|) + Value(b)
    ensures Value(a + (b + [c])) == Value(a) * Pow10(|b| + 1) + Value(b + [c])
  {
    hide Value, Pow10;
    assert a + (b + [c]) == (a + b) + [c];
    LastDigit(a + b, c);
    LastDigit(b, c);
    NextPower(|b|);
    Tenfold(Value(a), Pow10(|b|));
  }

  lemma {:induction false} ValueAppend(a: string, b: string)
    ensures Value(a + b) == Value(a) * Pow10(|b|) + Value(b)
  {
    if b == [] {
      assert a + b == a;
    } else {
      var init, c := b[..|b| - 1], b[|b| - 1];
      assert b == init + [c];
      ValueAppend(a, init);
      AppendDigit(a, init, c);
    }
  }

  lemma {:induction false} ValueOfZeros(n: nat)
    ensures Value(Repeat('0', n)) == 0
  {
    if n > 0 {
      assert Repeat('0', n)[..n - 1] == Repeat('0', n - 1);
      ValueOfZeros(n - 1);
    }
  }

  lemma {:induction false} DecIsShort(n: nat, k: nat)
    requires 0 < k && n < Pow10(k)
    ensures |Dec(n)| <= k
  {
    assert Pow10(1) == 10;
    if n >= 10 {
      DecIsShort(n / 10, k - 1);
    }
  }

  // ---------- printf ----------

  // %*s and %*d: a negative width pads on the right.
  function Padded(width: int, t: string): string {
    if width >= 0 then Repeat(' ', if width > |t| then width - |t| else 0) + t
    else t + Repeat(' ', if -width > |t| then -width - |t| else 0)
  }

  // %0*d of a number that is not negative.
  function ZeroPadded(width: nat, n: nat): string {
    var t := Dec(n);
    Repeat('0', if width > |t| then width - |t| else 0) + t
  }

  lemma ZeroPaddedIs(k: nat, n: nat)
    requires 0 < k && n < Pow10(k)
    ensures |ZeroPadded(k, n)| == k && AllDigits(ZeroPadded(k, n)) && Value(ZeroPadded(k, n)) == n
  {
    hide Dec, Value;
    DecIsShort(n, k);
    var z := k - |Dec(n)|;
    ValueAppend(Repeat('0', z), Dec(n));
    ValueOfZeros(z);
    ValueOfDec(n);
  }

  function IntText(v: int): (s: string)
    ensures |s| > 0
  {
    if v < 0 then "-" + Dec(-v) else Dec(v)
  }

  // C division truncates toward zero.
  function Quotient(a: int, b: nat): int
    requires b > 0
  {
    if a >= 0 then a / b else -(-a / b)
  }

  function Rest(a: int, b: nat): int
    requires b > 0
  {
    a - b * Quotient(a, b)
  }

  // ---------- what a text denotes ----------

  // mantissa / 10^places
  datatype Numeral = Numeral(mantissa: int, places: nat) | NotNumeral

  function DigitsLength(s: string): (k: nat)
    ensures k <= |s| && AllDigits(s[..k]) && (k < |s| ==> !IsDigit(s[k]))
  {
    if s == [] || !IsDigit(s[0]) then 0
    else
      assert forall i :: 0 < i <= DigitsLength(s[1..]) ==> s[i] == s[1..][i - 1];
      1 + DigitsLength(s[1..])
  }

  function Unsigned(s: string): Numeral {
    var k := DigitsLength(s);
    if k == 0 then NotNumeral
    else if k == |s| then Numeral(Value(s), 0)
    else if s[k] == '.' && k + 1 < |s| && DigitsLength(s[k + 1..]) == |s| - k - 1 then
      Numeral(Value(s[..k] + s[k + 1..]), |s| - k - 1)
    else NotNumeral
  }

  function Signed(s: string): Numeral {
    if s != [] && s[0] == '-' then
      match Unsigned(s[1..])
      case Numeral(m, k) => Numeral(-m, k)
      case NotNumeral => NotNumeral
    else Unsigned(s)
  }

  // Blanks before the number do not matter.
  function Denoted(s: string): Numeral {
    if s != [] && s[0] == ' ' then Denoted(s[1..]) else Signed(s)
  }

  lemma {:induction false} BlanksBefore(n: nat, s: string)
    ensures Denoted(Repeat(' ', n) + s) == Denoted(s)
  {
    if n == 0 {
      assert Repeat(' ', 0) + s == s;
    } else {
      assert (Repeat(' ', n) + s)[1..] == Repeat(' ', n - 1) + s;
      BlanksBefore(n - 1, s);
    }
  }

  lemma {:induction false} DigitsThen(a: string, rest: string)
    requires AllDigits(a) && (rest == [] || !IsDigit(rest[0]))
    ensures DigitsLength(a + rest) == |a|
  {
    if a == [] {
      assert a + rest == rest;
    } else {
      assert (a + rest)[1..] == a[1..] + rest;
      DigitsThen(a[1..], rest);
    }
  }

  lemma PointReads(a: string, b: string)
    requires AllDigits(a) && AllDigits(b) && a != [] && b != []
    ensures Unsigned(a + "." + b) == Numeral(Value(a + b), |b|)
  {
    hide Value, DigitsLength;
    var s := a + "." + b;
    assert s == a + ("." + b);
    DigitsThen(a, "." + b);
    assert s[..|a|] == a && s[|a| + 1..] == b;
    DigitsThen(b, []);
    assert b + [] == b;
  }

  lemma WholeReads(a: string)
    requires AllDigits(a) && a != []
    ensures Unsigned(a) == Numeral(Value(a), 0)
  {}

  // ---------- fbsql_store_field ----------

  function Magnitude(v: int): nat { if v >= 0 then v else -v }

  function Whole(value: int, tens: nat): nat
    requires tens > 0
  {
    Magnitude(value) / tens
  }

  function Part(value: int, tens: nat): (r: nat)
    requires tens > 0
    ensures r < tens
  {
    Magnitude(value) % tens
  }

  lemma WholeAndPart(value: int, tens: nat)
    requires tens > 0
    ensures Whole(value, tens) * tens + Part(value, tens) == Magnitude(value)
  {}

  // The digits before the point, as every branch prints them.
  function Front(value: int, tens: nat): (s: string)
    requires tens > 0
    ensures |s| > 0
  {
    if value >= 0 then Dec(Whole(value, tens)) else "-" + Dec(Whole(value, tens))
  }

  datatype IntType = Short | Long | Int64

  function Width(dtype: IntType): nat {
    match dtype case Short => 6 case Long => 11 case Int64 => 21
  }

  predicate IsValue(dtype: IntType, value: int) {
    match dtype
    case Short => -0x8000 <= value < 0x8000
    case Long => -0x8000_0000 <= value < 0x8000_0000
    case Int64 => -0x8000_0000_0000_0000 <= value < 0x8000_0000_0000_0000
  }

  const NUL: char := '\0'
  const BUF_SIZE: nat := 1024

  // The text for a value and a scale.
  function Printed(value: int, fieldWidth: int, dscale: int): string {
    if dscale < 0 then
      Padded(fieldWidth - 1 + dscale, Front(value, Pow10(-dscale))) + "."
      + ZeroPadded(-dscale, Part(value, Pow10(-dscale)))
    else if dscale > 0 then Padded(fieldWidth, IntText(value)) + ZeroPadded(dscale, 0)
    else IntText(value)
  }

  lemma DecOfZero()
    ensures Dec(0) == "0"
  {}

  lemma QuotientIs(value: int, tens: nat)
    requires tens > 0
    ensures Quotient(value, tens) == (if value >= 0 then 1 else -1) * Whole(value, tens)
  {}

  lemma Branches(value: int, tens: nat)
    requires tens > 0
    ensures value >= 0 || Quotient(value, tens) != 0 ==> IntText(Quotient(value, tens)) == Front(value, tens)
    ensures value < 0 && Quotient(value, tens) == 0 ==> "-0" == Front(value, tens)
    ensures Part(value, tens) == if value >= 0 then Rest(value, tens) else -Rest(value, tens)
  {
    hide Dec;
    DecOfZero();
    QuotientIs(value, tens);
    hide Quotient, Whole, Part;
    WholeAndPart(value, tens);
  }

  // The loop that multiplies tens.
  method Tens(dscale: int) returns (tens: nat)
    requires dscale <= 0
    ensures tens == Pow10(-dscale)
  {
    tens := 1;
    var i := 0;
    while i > dscale
      invariant dscale <= i <= 0 && tens == Pow10(-i)
    {
      tens := tens * 10;
      i := i - 1;
    }
  }

  // sprintf into a buffer whose size it is not told: false when the text and its NUL run past the end.
  method Sprintf(buf: array<char>, text: string) returns (inside: bool)
    modifies buf
    ensures inside <==> |text| < buf.Length
    ensures inside ==> buf[..|text|] == text && buf[|text|] == NUL
  {
    inside := |text| < buf.Length;
    if inside {
      for i := 0 to |text|
        invariant buf[..i] == text[..i]
      {
        buf[i] := text[i];
      }
      buf[|text|] := NUL;
    }
  }

  // 10^18 is the largest power of ten in an ISC_INT64.
  method StoreField(buf: array<char>, dtype: IntType, value: int, dscale: int) returns (inside: bool)
    requires buf.Length == BUF_SIZE && IsValue(dtype, value) && -18 <= dscale
    modifies buf
    ensures var text := Printed(value, Width(dtype), dscale);
      && (inside <==> |text| < BUF_SIZE)
      && (inside ==> buf[..|text|] == text && buf[|text|] == NUL)
  {
    hide Dec, Padded, ZeroPadded, Front, IntText, Rest, Quotient, Part;
    var fieldWidth := Width(dtype);
    if dscale < 0 {
      var tens := Tens(dscale);
      Branches(value, tens);
      var text;
      if value >= 0 {
        text := Padded(fieldWidth - 1 + dscale, IntText(Quotient(value, tens))) + "."
                + ZeroPadded(-dscale, Rest(value, tens));
      } else if Quotient(value, tens) != 0 {
        text := Padded(fieldWidth - 1 + dscale, IntText(Quotient(value, tens))) + "."
                + ZeroPadded(-dscale, -Rest(value, tens));
      } else {
        text := Padded(fieldWidth - 1 + dscale, "-0") + "." + ZeroPadded(-dscale, -Rest(value, tens));
      }
      inside := Sprintf(buf, text);
    } else if dscale > 0 {
      inside := Sprintf(buf, Padded(fieldWidth, IntText(value)) + ZeroPadded(dscale, 0));
    } else {
      inside := Sprintf(buf, IntText(value));
    }
  }

  // ---------- the printed text denotes value * 10^dscale ----------

  // A negative width pads behind the digits and not before them.
  predicate PadsInside(value: int, fieldWidth: int, dscale: int) {
    dscale < 0 && fieldWidth - 1 + dscale < 0 && -(fieldWidth - 1 + dscale) > |Front(value, Pow10(-dscale))|
  }

  lemma FractionReads(value: int, dscale: int)
    requires dscale < 0
    ensures var tens := Pow10(-dscale);
      Signed(Front(value, tens) + "." + ZeroPadded(-dscale, Part(value, tens))) == Numeral(value, -dscale)
  {
    hide Dec, ZeroPadded, Unsigned, Value, Pow10, Whole, Part;
    var tens, k := Pow10(-dscale), -dscale;
    var q, r := Whole(value, tens), Part(value, tens);
    WholeAndPart(value, tens);
    var a, b := Dec(q), ZeroPadded(k, r);
    ZeroPaddedIs(k, r);
    ValueOfDec(q);
    ValueAppend(a, b);
    PointReads(a, b);
    assert Value(a + b) == q * tens + r == Magnitude(value);
    if value < 0 {
      var s := "-" + a + "." + b;
      assert s[1..] == a + "." + b;
    } else {
      assert (a + "." + b)[0] == a[0];
      assert IsDigit(a[0]);
    }
  }

  lemma WholeTextReads(value: int, zeros: nat)
    ensures Signed(IntText(value) + Repeat('0', zeros)) == Numeral(value * Pow10(zeros), 0)
  {
    hide Dec, Unsigned, Value, Pow10;
    var a, b := Dec(Magnitude(value)), Repeat('0', zeros);
    ValueOfDec(Magnitude(value));
    ValueOfZeros(zeros);
    ValueAppend(a, b);
    WholeReads(a + b);
    if value < 0 {
      assert (IntText(value) + b)[1..] == a + b;
      assert -(Magnitude(value) * Pow10(zeros)) == value * Pow10(zeros);
    } else {
      assert (a + b)[0] == a[0] && IsDigit(a[0]);
    }
  }

  lemma NoBlankFirst(s: string)
    requires s != [] && s[0] != ' '
    ensures Denoted(s) == Signed(s)
  {}

  lemma FrontStarts(value: int, tens: nat)
    requires tens > 0
    ensures Front(value, tens)[0] != ' ' && IntText(value)[0] != ' '
  {}

  lemma ZerosAre(dscale: nat)
    requires dscale > 0
    ensures ZeroPadded(dscale, 0) == Repeat('0', dscale)
  {}

  lemma FractionDenotes(value: int, fieldWidth: int, dscale: int)
    requires fieldWidth >= 0 && dscale < 0 && !PadsInside(value, fieldWidth, dscale)
    ensures Denoted(Printed(value, fieldWidth, dscale)) == Numeral(value, -dscale)
  {
    hide Denoted, Signed, ZeroPadded, Front, Part, Pow10;
    var front, back := Front(value, Pow10(-dscale)), ZeroPadded(-dscale, Part(value, Pow10(-dscale)));
    var w := fieldWidth - 1 + dscale;
    var n := if w > |front| then w - |front| else 0;
    assert Printed(value, fieldWidth, dscale) == Repeat(' ', n) + (front + "." + back);
    BlanksBefore(n, front + "." + back);
    FrontStarts(value, Pow10(-dscale));
    NoBlankFirst(front + "." + back);
    FractionReads(value, dscale);
  }

  lemma WholeDenotes(value: int, fieldWidth: int, dscale: nat)
    requires fieldWidth >= 0
    ensures Denoted(Printed(value, fieldWidth, dscale)) == Numeral(value * Pow10(dscale), 0)
  {
    hide Denoted, Signed, ZeroPadded, IntText, Pow10;
    var text := IntText(value) + Repeat('0', dscale);
    var n := if dscale > 0 && fieldWidth > |IntText(value)| then fieldWidth - |IntText(value)| else 0;
    if dscale > 0 {
      ZerosAre(dscale);
    }
    assert Printed(value, fieldWidth, dscale) == Repeat(' ', n) + text;
    BlanksBefore(n, text);
    FrontStarts(value, 1);
    NoBlankFirst(text);
    WholeTextReads(value, dscale);
  }

  // Without padding inside, the text denotes value * 10^dscale with exactly -dscale fractional digits.
  lemma DenotesExactly(value: int, fieldWidth: int, dscale: int)
    requires fieldWidth >= 0 && !PadsInside(value, fieldWidth, dscale)
    ensures Denoted(Printed(value, fieldWidth, dscale))
         == if dscale < 0 then Numeral(value, -dscale) else Numeral(value * Pow10(dscale), 0)
  {
    hide Denoted, Printed, PadsInside;
    if dscale < 0 {
      FractionDenotes(value, fieldWidth, dscale);
    } else {
      WholeDenotes(value, fieldWidth, dscale);
    }
  }

  lemma BlankAfterDigits(a: string, rest: string)
    requires AllDigits(a) && rest != [] && rest[0] == ' '
    ensures Unsigned(a + rest) == NotNumeral
  {
    DigitsThen(a, rest);
  }

  lemma InsideText(value: int, fieldWidth: int, dscale: int) returns (rest: string)
    requires PadsInside(value, fieldWidth, dscale)
    ensures Printed(value, fieldWidth, dscale) == Front(value, Pow10(-dscale)) + rest
    ensures rest != [] && rest[0] == ' '
  {
    hide ZeroPadded, Front, Pow10, Part;
    var front, back := Front(value, Pow10(-dscale)), ZeroPadded(-dscale, Part(value, Pow10(-dscale)));
    var n := -(fieldWidth - 1 + dscale) - |front|;
    rest := Repeat(' ', n) + "." + back;
    assert front + rest == front + Repeat(' ', n) + "." + back;
  }

  lemma SignedBlank(value: int, tens: nat, rest: string)
    requires tens > 0 && rest != [] && rest[0] == ' '
    ensures Denoted(Front(value, tens) + rest) == NotNumeral
  {
    hide Denoted, Unsigned, Dec, Whole, Value;
    var front, a := Front(value, tens), Dec(Whole(value, tens));
    FrontStarts(value, tens);
    NoBlankFirst(front + rest);
    BlankAfterDigits(a, rest);
    assert IsDigit(a[0]);
    assert front == (if value < 0 then "-" else "") + a;
    assert value < 0 ==> (front + rest)[1..] == a + rest;
  }

  // With padding inside, a blank stands before the point and the text is no numeral at all.
  lemma PaddedInsideIsNone(value: int, fieldWidth: int, dscale: int)
    requires PadsInside(value, fieldWidth, dscale)
    ensures Denoted(Printed(value, fieldWidth, dscale)) == NotNumeral
  {
    var rest := InsideText(value, fieldWidth, dscale);
    SignedBlank(value, Pow10(-dscale), rest);
  }

  // ---------- the buffer ----------

  lemma PowersOfTen()
    ensures Pow10(5) == 100000 && Pow10(10) == 10000000000 && Pow10(19) == 10000000000000000000
  {
    assert Pow10(3) == 1000;
    assert Pow10(6) == 1000000;
    assert Pow10(9) == 1000000000;
    assert Pow10(12) == 1000000000000;
    assert Pow10(15) == 1000000000000000;
    assert Pow10(18) == 1000000000000000000;
  }

  // No value is wider than its field.
  lemma ValueIsNarrow(dtype: IntType, value: int)
    requires IsValue(dtype, value)
    ensures |IntText(value)| <= Width(dtype)
  {
    hide Dec, Pow10;
    PowersOfTen();
    DecIsShort(Magnitude(value), match dtype case Short => 5 case Long => 10 case Int64 => 19);
  }

  lemma WholeIsLess(value: int, tens: nat)
    requires tens > 0
    ensures Whole(value, tens) <= Magnitude(value)
  {
    hide Whole, Part, Magnitude;
    WholeAndPart(value, tens);
    ProductIsMore(Whole(value, tens), tens);
  }

  lemma ProductIsMore(a: nat, b: nat)
    requires b > 0
    ensures a * b >= a
  {}

  lemma FrontIsShort(dtype: IntType, value: int, tens: nat)
    requires IsValue(dtype, value) && tens > 0
    ensures |Front(value, tens)| <= 20
  {
    hide Dec, Pow10, Whole;
    PowersOfTen();
    WholeIsLess(value, tens);
    DecIsShort(Whole(value, tens), 19);
  }

  lemma PaddedIsShort(width: int, t: string)
    requires |t| <= 20 && -20 <= width <= 20
    ensures |Padded(width, t)| <= 20
  {}

  // With a fraction the text is short.
  lemma FractionIsShort(dtype: IntType, value: int, dscale: int)
    requires IsValue(dtype, value) && -18 <= dscale < 0
    ensures |Printed(value, Width(dtype), dscale)| <= 60
  {
    hide Dec, Pow10, Padded, ZeroPadded, Front, Part;
    var tens := Pow10(-dscale);
    FrontIsShort(dtype, value, tens);
    PaddedIsShort(Width(dtype) - 1 + dscale, Front(value, tens));
    ZeroPaddedIs(-dscale, Part(value, tens));
  }

  // With zeros behind it the text is as wide as the field and the zeros.
  lemma ZerosAreLong(dtype: IntType, value: int, dscale: int)
    requires IsValue(dtype, value) && dscale > 0
    ensures |Printed(value, Width(dtype), dscale)| == Width(dtype) + dscale
  {
    hide Dec, ZeroPadded, IntText;
    ValueIsNarrow(dtype, value);
    ZerosAre(dscale);
  }

  // The text stays inside the buffer exactly when the zeros that a positive scale adds do.
  lemma StaysInside(dtype: IntType, value: int, dscale: int)
    requires IsValue(dtype, value) && -18 <= dscale
    ensures |Printed(value, Width(dtype), dscale)| < BUF_SIZE <==> dscale <= 0 || Width(dtype) + dscale < BUF_SIZE
  {
    hide Printed;
    if dscale < 0 {
      FractionIsShort(dtype, value, dscale);
    } else if dscale > 0 {
      ZerosAreLong(dtype, value, dscale);
    } else {
      ValueIsNarrow(dtype, value);
      assert Printed(value, Width(dtype), 0) == IntText(value) by { PrintedPlain(value, Width(dtype)); }
    }
  }

  // The largest scales that fit, in numbers.
  lemma LargestScale(dtype: IntType, value: int, dscale: int)
    requires IsValue(dtype, value) && -18 <= dscale
    ensures |Printed(value, Width(dtype), dscale)| <= 1023 <==>
      dscale <= match dtype case Short => 1017 case Long => 1012 case Int64 => 1002
  {
    hide Printed;
    StaysInside(dtype, value, dscale);
  }

  lemma PrintedPlain(value: int, fieldWidth: int)
    ensures Printed(value, fieldWidth, 0) == IntText(value)
  {}

  // The text is right and inside the buffer exactly when nothing is padded inside and the zeros fit.
  lemma RightExactlyWhen(dtype: IntType, value: int, dscale: int)
    requires IsValue(dtype, value) && -18 <= dscale
    ensures var text := Printed(value, Width(dtype), dscale);
      (|text| < BUF_SIZE
       && Denoted(text) == if dscale < 0 then Numeral(value, -dscale) else Numeral(value * Pow10(dscale), 0))
      <==> !PadsInside(value, Width(dtype), dscale) && (dscale <= 0 || Width(dtype) + dscale < BUF_SIZE)
  {
    hide Printed, Denoted, PadsInside;
    StaysInside(dtype, value, dscale);
    if PadsInside(value, Width(dtype), dscale) {
      PaddedInsideIsNone(value, Width(dtype), dscale);
    } else {
      DenotesExactly(value, Width(dtype), dscale);
    }
  }

  lemma Hundredths(fieldWidth: nat)
    requires fieldWidth >= 5
    ensures Printed(-5, fieldWidth, -2) == Repeat(' ', fieldWidth - 5) + "-0" + "." + "05"
  {
    assert Pow10(2) == 100;
    assert Whole(-5, 100) == 0 && Part(-5, 100) == 5;
    assert Dec(0) == "0" && Dec(5) == "5";
    hide Dec, Pow10, Whole, Part;
    assert Front(-5, 100) == "-0";
    assert ZeroPadded(2, 5) == "05" by { assert Repeat('0', 1) == "0"; }
  }

  lemma TwoZeros(fieldWidth: nat)
    requires fieldWidth >= 1
    ensures Printed(7, fieldWidth, 2) == Repeat(' ', fieldWidth - 1) + "7" + "00"
  {
    assert Dec(0) == "0" && Dec(7) == "7";
    hide Dec;
    assert ZeroPadded(2, 0) == "00" by { assert Repeat('0', 1) == "0"; }
  }

  // What is printed for -5 hundredths, and for 7 with two zeros, in fields of 6, 11 and 21 characters.
  lemma PrintedExamples()
    ensures Printed(-5, Width(Short), -2) == Repeat(' ', 1) + "-0" + "." + "05"
    ensures Printed(-5, Width(Long), -2) == Repeat(' ', 6) + "-0" + "." + "05"
    ensures Printed(-5, Width(Int64), -2) == Repeat(' ', 16) + "-0" + "." + "05"
    ensures Printed(7, Width(Short), 2) == Repeat(' ', 5) + "7" + "00"
    ensures Printed(7, Width(Long), 2) == Repeat(' ', 10) + "7" + "00"
    ensures Printed(7, Width(Int64), 2) == Repeat(' ', 20) + "7" + "00"
  {
    hide Printed, Repeat;
    Hundredths(6);
    Hundredths(11);
    Hundredths(21);
    TwoZeros(6);
    TwoZeros(11);
    TwoZeros(21);
  }

  // Nothing is padded inside from a scale of minus the width on, so never in an SQL_INT64.
  lemma WideEnough(value: int, fieldWidth: int, dscale: int)
    requires -fieldWidth <= dscale
    ensures !PadsInside(value, fieldWidth, dscale)
  {}

  // A short of 5 with scale -8 is printed as "0  .00000005".
  lemma ShortPadsInside()
    ensures PadsInside(5, Width(Short), -8) && Denoted(Printed(5, Width(Short), -8)) == NotNumeral
  {
    assert Pow10(4) == 10000;
    assert Pow10(8) == 100000000;
    assert Whole(5, Pow10(8)) == 0;
    assert Dec(0) == "0";
    PaddedInsideIsNone(5, 6, -8);
  }

  // An SQL_INT64 of 1 with scale 1100 is written far past the end of the buffer.
  lemma LongScaleOverruns()
    ensures |Printed(1, Width(Int64), 1100)| == 1121 > BUF_SIZE
  {
    ZerosAreLong(Int64, 1, 1100);
  }
}
