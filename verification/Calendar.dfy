/** SQL timestamps and Unix time: time_sql2unix and time_unix2sql. */
module Calendar {
  // ---------- the Gregorian calendar, by its successor rule ----------

  datatype Date = Date(y: nat, m: nat, d: nat)

  predicate Leap(y: nat) {
    y % 4 == 0 && (y % 100 != 0 || y % 400 == 0)
  }

  // Thirty days hath September, April, June and November.
  function DaysIn(y: nat, m: nat): (n: nat)
    requires 1 <= m <= 12
    ensures 28 <= n <= 31
  {
    if m == 4 || m == 6 || m == 9 || m == 11 then 30
    else if m == 2 then (if Leap(y) then 29 else 28)
    else 31
  }

  predicate IsDate(x: Date) {
    1 <= x.m <= 12 && 1 <= x.d <= DaysIn(x.y, x.m)
  }

  function Tomorrow(x: Date): (r: Date)
    requires IsDate(x)
    ensures IsDate(r)
  {
    if x.d < DaysIn(x.y, x.m) then Date(x.y, x.m, x.d + 1)
    else if x.m < 12 then Date(x.y, x.m + 1, 1)
    else Date(x.y + 1, 1, 1)
  }

  // The date n days after 1 January 1970.
  function DateOf(n: nat): (r: Date)
    ensures IsDate(r)
  {
    if n == 0 then Date(1970, 1, 1) else Tomorrow(DateOf(n - 1))
  }

  // ---------- the count that the loops make ----------

  // Days from 1 January 1970 to 1 January of a year, negative for earlier years.
  function YearDays(y: nat): int
    decreases if y < 1970 then 1970 - y else y - 1970
  {
    if y == 1970 then 0
    else if y > 1970 then YearDays(y - 1) + 365 + (if Leap(y - 1) then 1 else 0)
    else YearDays(y + 1) - 365 - (if Leap(y) then 1 else 0)
  }

  function MonthDays(y: nat, k: nat): nat
    requires k <= 12
  {
    if k == 0 then 0 else MonthDays(y, k - 1) + DaysIn(y, k)
  }

  function DayCount(x: Date): int
    requires IsDate(x)
  {
    YearDays(x.y) + MonthDays(x.y, x.m - 1) + (x.d - 1)
  }

  lemma YearIsMonths(y: nat)
    ensures MonthDays(y, 12) == 365 + (if Leap(y) then 1 else 0)
  {
    assert MonthDays(y, 1) == 31;
    assert MonthDays(y, 2) == 59 + (if Leap(y) then 1 else 0);
    assert MonthDays(y, 4) == MonthDays(y, 2) + 61;
    assert MonthDays(y, 6) == MonthDays(y, 4) + 61;
    assert MonthDays(y, 8) == MonthDays(y, 6) + 62;
    assert MonthDays(y, 10) == MonthDays(y, 8) + 61;
  }

  lemma NextYear(y: nat)
    ensures YearDays(y + 1) == YearDays(y) + 365 + (if Leap(y) then 1 else 0)
  {
    hide Leap;
  }

  // The count grows by one a day, on every date of every year.
  lemma CountTomorrow(x: Date)
    requires IsDate(x)
    ensures DayCount(Tomorrow(x)) == DayCount(x) + 1
  {
    hide Leap, YearDays;
    NextYear(x.y);
    YearIsMonths(x.y);
  }

  // The loops invert the calendar.
  lemma {:induction false} CountOfDate(n: nat)
    ensures DayCount(DateOf(n)) == n
  {
    EpochCount();
    hide DayCount, Tomorrow;
    if n > 0 {
      CountOfDate(n - 1);
      CountTomorrow(DateOf(n - 1));
      assert DateOf(n) == Tomorrow(DateOf(n - 1));
    }
  }

  lemma EpochCount()
    ensures DayCount(Date(1970, 1, 1)) == 0
  {}

  lemma {:induction false} FromEpochOn(n: nat)
    ensures DateOf(n).y >= 1970
  {
    if n > 0 {
      FromEpochOn(n - 1);
    }
  }

  lemma {:induction false} YearsAreLong(y: nat)
    requires y >= 1970
    ensures YearDays(y) >= 365 * (y - 1970)
  {
    hide YearDays, Leap;
    if y > 1970 {
      YearsAreLong(y - 1);
      NextYear(y - 1);
    } else {
      EpochIsZero();
    }
  }

  lemma EpochIsZero()
    ensures YearDays(1970) == 0
  {}

  // ---------- order ----------

  predicate DateBefore(a: Date, b: Date) {
    a.y < b.y || (a.y == b.y && (a.m < b.m || (a.m == b.m && a.d < b.d)))
  }

  lemma {:induction false} YearsGrow(a: nat, b: nat)
    requires a < b
    ensures YearDays(a) + MonthDays(a, 12) <= YearDays(b)
  {
    hide YearDays, MonthDays, Leap;
    YearIsMonths(a);
    NextYear(b - 1);
    if a + 1 < b {
      YearsGrow(a, b - 1);
    }
  }

  lemma {:induction false} MonthsGrow(y: nat, j: nat, k: nat)
    requires j < k <= 12
    ensures MonthDays(y, j) + DaysIn(y, j + 1) <= MonthDays(y, k)
  {
    if j + 1 < k {
      MonthsGrow(y, j, k - 1);
    }
  }

  lemma CountGrows(a: Date, b: Date)
    requires IsDate(a) && IsDate(b) && DateBefore(a, b)
    ensures DayCount(a) < DayCount(b)
  {
    hide YearDays, MonthDays, DaysIn;
    MonthsGrow(a.y, a.m - 1, 12);
    if a.y < b.y {
      YearsGrow(a.y, b.y);
    } else if a.m < b.m {
      MonthsGrow(a.y, a.m - 1, b.m - 1);
    }
  }

  // ---------- time stamps as text ----------

  datatype Fields = Fields(y: nat, m: nat, d: nat, h: nat, mi: nat, s: nat)

  predicate IsStamp(f: Fields) {
    && f.y <= 9999 && 1 <= f.m <= 12 && 1 <= f.d <= DaysIn(f.y, f.m)
    && f.h < 24 && f.mi < 60 && f.s < 60
  }

  function Digit(n: nat): char
    requires n < 10
  {
    '0' + n as char
  }

  // "%Y-%m-%d %H:%M:%S"
  function Stamp(f: Fields): (s: string)
    requires IsStamp(f)
    ensures |s| == 19
  {
    [Digit(f.y / 1000), Digit(f.y / 100 % 10), Digit(f.y / 10 % 10), Digit(f.y % 10), '-',
     Digit(f.m / 10), Digit(f.m % 10), '-', Digit(f.d / 10), Digit(f.d % 10), ' ',
     Digit(f.h / 10), Digit(f.h % 10), ':', Digit(f.mi / 10), Digit(f.mi % 10), ':',
     Digit(f.s / 10), Digit(f.s % 10)]
  }

  // The signed number of seconds from 1 January 1970 to the stamp.
  function Seconds(f: Fields): int
    requires IsStamp(f)
  {
    DayCount(Date(f.y, f.m, f.d)) * 86400 + f.h * 3600 + f.mi * 60 + f.s
  }

  // gmtime.
  function FieldsOf(t: nat): Fields {
    var x := DateOf(t / 86400);
    var r := t % 86400;
    Fields(x.y, x.m, x.d, r / 3600, r / 60 % 60, r % 60)
  }

  lemma TimeOfDay(r: nat)
    requires r < 86400
    ensures r / 3600 < 24 && r == r / 3600 * 3600 + r / 60 % 60 * 60 + r % 60
  {
    assert r / 3600 == r / 60 / 60;
  }

  lemma FieldsAreStamp(t: nat)
    requires t < 0x8000_0000
    ensures IsStamp(FieldsOf(t)) && FieldsOf(t).y >= 1970 && Seconds(FieldsOf(t)) == t
  {
    hide DayCount, DateOf;
    var n := t / 86400;
    CountOfDate(n);
    YearFits(DateOf(n), n);
    FromEpochOn(n);
    TimeOfDay(t % 86400);
  }

  lemma YearFits(x: Date, n: nat)
    requires IsDate(x) && DayCount(x) == n < 24856
    ensures x.y <= 9999
  {
    hide YearDays, MonthDays;
    assert x.y >= 1970 ==> YearDays(x.y) >= 365 * (x.y - 1970) by {
      if x.y >= 1970 {
        YearsAreLong(x.y);
      }
    }
  }

  lemma SecondsOrder(f: Fields, g: Fields)
    requires IsStamp(f) && IsStamp(g)
    requires DateBefore(Date(f.y, f.m, f.d), Date(g.y, g.m, g.d))
    ensures Seconds(f) < Seconds(g)
  {
    CountGrows(Date(f.y, f.m, f.d), Date(g.y, g.m, g.d));
  }

  // ---------- time_sql2unix ----------

  predicate IsDigit(c: char) { '0' <= c <= '9' }

  function FromDigits(s: string, p: nat, acc: int): int
    decreases |s| - p
  {
    if p < |s| && IsDigit(s[p]) then FromDigits(s, p + 1, 10 * acc + (s[p] as int - '0' as int)) else acc
  }

  function Atoi(s: string, p: nat): int
    decreases |s| - p
  {
    if p >= |s| then 0
    else if s[p] == ' ' || '\t' <= s[p] <= '\r' then Atoi(s, p + 1)
    else if s[p] == '-' then -FromDigits(s, p + 1, 0)
    else if s[p] == '+' then FromDigits(s, p + 1, 0)
    else FromDigits(s, p, 0)
  }

  // atoi: white space and a sign before the digits, which end at the first other character.
  lemma AtoiExamples()
    ensures Atoi("12x", 0) == 12 && Atoi("-7", 0) == -7 && Atoi("+7", 0) == 7 && Atoi("", 0) == 0 && Atoi("x", 0) == 0
    ensures Atoi(" 5", 0) == 5 && Atoi("\t5", 0) == 5 && Atoi("\n5", 0) == 5 && Atoi("\r5", 0) == 5
  {
    assert FromDigits("12x", 2, 12) == 12 && FromDigits("12x", 1, 1) == 12;
    assert FromDigits("-7", 2, 7) == 7 && FromDigits("+7", 2, 7) == 7;
    assert FromDigits(" 5", 2, 5) == 5 && FromDigits("\t5", 2, 5) == 5;
    assert FromDigits("\n5", 2, 5) == 5 && FromDigits("\r5", 2, 5) == 5;
  }

  method SkipTo(s: string, p: nat, c: char) returns (q: nat)
    requires p <= |s|
    ensures p <= q <= |s| && (q < |s| ==> s[q] == c) && forall k :: p <= k < q ==> s[k] != c
  {
    q := p;
    while q < |s| && s[q] != c
      invariant p <= q <= |s| && forall k :: p <= k < q ==> s[k] != c
    {
      q := q + 1;
    }
  }

  method SkipToDigit(s: string, p: nat) returns (q: nat)
    requires p <= |s|
    ensures p <= q <= |s| && (q < |s| ==> IsDigit(s[q])) && forall k :: p <= k < q ==> !IsDigit(s[k])
  {
    q := p;
    while q < |s| && !IsDigit(s[q])
      invariant p <= q <= |s| && forall k :: p <= k < q ==> !IsDigit(s[k])
    {
      q := q + 1;
    }
  }

  // r is the quotient q in single precision: within half a unit of a 24-bit significand, and q itself where q is whole.
  ghost predicate Rounds(q: real, r: real) {
    -q <= (r - q) * 16777216.0 <= q && (q == q.Floor as real ==> r == q)
  }

  // i / k.0f. Callers know no more of it than the rounding.
  method FloatQuotient(i: nat, k: nat) returns (r: real)
    requires k > 0
    ensures Rounds(i as real / k as real, r)
  {
    r := i as real / k as real;
  }

  lemma Scaled(i: nat, k: nat)
    requires k > 0
    ensures var q := i as real / k as real;
      && i as real == k as real * q && q >= 0.0
      && (i % k == 0 <==> q == (i / k) as real)
  {
    assert i == k * (i / k) + i % k;
    assert i as real == k as real * (i / k) as real + (i % k) as real;
  }

  // A quotient that is not whole is at least 1 / k away from every whole number, further than rounding reaches.
  lemma TooFar(i: real, k: real, q: real, r: real, n: real)
    requires k > 0.0 && i == k * q && 0.0 <= i < 16777216.0 && Rounds(q, r) && i - k * n >= 1.0
    ensures r > n
  {
    assert (q - r) * 16777216.0 <= q;
    Grouped(k, q - r, 16777216.0);
    assert k * (q - r) < 1.0;
    assert k * (q - n) == i - k * n;
  }

  lemma Grouped(a: real, b: real, c: real)
    ensures a * (b * c) == a * b * c
  {}

  // The comparison of the rounded quotient with the whole one is a divisibility test, below 2^24.
  lemma FloatTest(i: nat, k: nat, r: real)
    requires k > 0 && i < 0x100_0000 && Rounds(i as real / k as real, r)
    ensures r == (i / k) as real <==> i % k == 0
  {
    hide Rounds;
    Scaled(i, k);
    var q := i as real / k as real;
    if i % k == 0 {
      WholeStays(q, i / k, r);
    } else {
      assert i == k * (i / k) + i % k;
      TooFar(i as real, k as real, q, r, (i / k) as real);
    }
  }

  lemma WholeStays(q: real, n: nat, r: real)
    requires q == n as real && Rounds(q, r)
    ensures r == q
  {
    assert q.Floor == n;
  }

  // The nested tests of both loops.
  method LeapDay(y: nat) returns (n: nat)
    requires y < 0x100_0000
    ensures n == if Leap(y) then 1 else 0
  {
    hide Rounds;
    n := 0;
    var r := FloatQuotient(y, 4);
    FloatTest(y, 4, r);
    if r == (y / 4) as real {
      r := FloatQuotient(y, 400);
      FloatTest(y, 400, r);
      if r == (y / 400) as real {
        n := 1;
      } else {
        r := FloatQuotient(y, 100);
        FloatTest(y, 100, r);
        if r != (y / 100) as real {
          n := 1;
        }
      }
    }
  }

  // int arithmetic: 32 bits, two's complement.
  const INT_LIMIT: int := 0x8000_0000

  function Wrapped(x: int): (r: int)
    ensures -INT_LIMIT <= r < INT_LIMIT && (-INT_LIMIT <= x < INT_LIMIT ==> r == x)
  {
    (x + INT_LIMIT) % 0x1_0000_0000 - INT_LIMIT
  }

  lemma WrapShift(x: int, k: int)
    ensures Wrapped(x + 0x1_0000_0000 * k) == Wrapped(x)
  {
    var q, r := (x + INT_LIMIT) / 0x1_0000_0000, (x + INT_LIMIT) % 0x1_0000_0000;
    assert x + 0x1_0000_0000 * k + INT_LIMIT == 0x1_0000_0000 * (q + k) + r;
  }

  lemma Turns(x: int) returns (k: int)
    ensures Wrapped(x) == x + 0x1_0000_0000 * k
  {
    k := -((x + INT_LIMIT) / 0x1_0000_0000);
  }

  // Wrapping early and wrapping late is the same.
  lemma WrapAdd(a: int, b: int)
    ensures Wrapped(Wrapped(a) + b) == Wrapped(a + b)
  {
    hide Wrapped;
    var k := Turns(a);
    WrapShift(a + b, k);
  }

  lemma WrapTimes(a: int, c: int)
    ensures Wrapped(Wrapped(a) * c) == Wrapped(a * c)
  {
    hide Wrapped;
    var k := Turns(a);
    Spread(a, k, c);
    WrapShift(a * c, k * c);
  }

  lemma Spread(a: int, k: int, c: int)
    ensures (a + 0x1_0000_0000 * k) * c == a * c + 0x1_0000_0000 * (k * c)
  {}

  method CountDays(year: nat, month: nat, day: int) returns (days: int)
    requires 1970 <= year < 0x100_0000 && month <= 12
    ensures days == Wrapped(YearDays(year) + MonthDays(year, month) + day)
  {
    EpochIsZero();
    hide YearDays, Leap, Wrapped;
    var dim: seq<nat> := [31, 28, 31, 30, 31, 30, 31, 31, 30, 31, 30, 31];
    days := 0;
    var i := 1970;
    while i < year
      invariant 1970 <= i <= year && days == Wrapped(YearDays(i))
    {
      WrapAdd(YearDays(i), 365);
      days := Wrapped(days + 365);
      var n := LeapDay(i);
      WrapAdd(YearDays(i) + 365, n);
      days := Wrapped(days + n);
      NextYear(i);
      i := i + 1;
    }
    for k := 0 to month
      invariant days == Wrapped(YearDays(year) + MonthDays(year, k))
    {
      ghost var sum := YearDays(year) + MonthDays(year, k);
      WrapAdd(sum, dim[k]);
      days := Wrapped(days + dim[k]);
      if k == 1 {
        var n := LeapDay(year);
        WrapAdd(sum + dim[k], n);
        days := Wrapped(days + n);
      }
    }
    WrapAdd(YearDays(year) + MonthDays(year, month), day);
    days := Wrapped(days + day);
  }

  lemma DigitReads(n: nat)
    requires n < 10
    ensures IsDigit(Digit(n)) && Digit(n) as int - '0' as int == n
  {}

  // Two digits and then something else, or the end.
  lemma ReadTwo(s: string, p: nat, n: nat)
    requires n < 100 && p + 2 <= |s| && s[p] == Digit(n / 10) && s[p + 1] == Digit(n % 10)
    requires p + 2 == |s| || !IsDigit(s[p + 2])
    ensures Atoi(s, p) == n
    ensures n < 10 ==> s[p] == '0' && Atoi(s, p + 1) == n
    ensures n >= 10 ==> s[p] != '0'
  {
    DigitReads(n / 10);
    DigitReads(n % 10);
    assert FromDigits(s, p + 2, n) == n;
    assert FromDigits(s, p + 1, n / 10) == n;
    assert n < 10 ==> FromDigits(s, p + 1, 0) == n;
  }

  lemma Places(n: nat)
    ensures n / 100 == 10 * (n / 1000) + n / 100 % 10
    ensures n / 10 == 10 * (n / 100) + n / 10 % 10 && n == 10 * (n / 10) + n % 10
  {}

  lemma ReadFour(s: string, n: nat)
    requires n < 10000 && 5 <= |s| && !IsDigit(s[4])
    requires s[0] == Digit(n / 1000) && s[1] == Digit(n / 100 % 10)
    requires s[2] == Digit(n / 10 % 10) && s[3] == Digit(n % 10)
    ensures Atoi(s, 0) == n
    ensures n < 1000 ==> s[0] == '0' && Atoi(s, 1) == n
    ensures n >= 1000 ==> s[0] != '0'
  {
    DigitReads(n / 1000);
    DigitReads(n / 100 % 10);
    DigitReads(n / 10 % 10);
    DigitReads(n % 10);
    hide Digit;
    var a, b, c := n / 1000, n / 100, n / 10;
    Places(n);
    assert FromDigits(s, 4, n) == n;
    assert FromDigits(s, 3, c) == n;
    assert FromDigits(s, 2, b) == n;
    assert FromDigits(s, 1, a) == n;
  }

  // The seconds of the days, as int holds them, and not below 0.
  function DayPart(f: Fields): (n: int)
    requires IsStamp(f)
    ensures 0 <= n < INT_LIMIT
  {
    if f.y < 1970 then 0
    else
      var n := Wrapped(DayCount(Date(f.y, f.m, f.d)) * 86400);
      if n < 0 then 0 else n
  }

  // The value read from a stamp: before 1970 the year digits count as hours.
  function ValueRead(f: Fields): (n: int)
    requires IsStamp(f)
    ensures -INT_LIMIT <= n < INT_LIMIT
  {
    Wrapped(DayPart(f) + (if f.y < 1970 then f.y else f.h) * 3600 + f.mi * 60 + f.s)
  }

  method TimeSql2Unix(s: string, ghost f: Fields) returns (u: int)
    requires IsStamp(f) && s == Stamp(f)
    ensures u == ValueRead(f)
  {
    hide YearDays, MonthDays, Atoi, Digit, IsDigit, Wrapped;
    StampReads(f);
    var p: nat := 0;
    u := 0;
    if Atoi(s, p) >= 1970 {
      var year := Atoi(s, p);
      p := SkipTo(s, p, '-');
      assert p == 4 by { assert s[4] == '-' && forall i :: 0 <= i < 4 ==> IsDigit(s[i]); }
      p := SkipToDigit(s, p);
      assert p == 5 by { assert IsDigit(s[5]); }
      var month := Atoi(s, p) - 1;
      p := SkipTo(s, p, '-');
      assert p == 7 by { assert s[7] == '-' && IsDigit(s[5]) && IsDigit(s[6]); }
      p := SkipToDigit(s, p);
      assert p == 8 by { assert IsDigit(s[8]); }
      var day := Atoi(s, p) - 1;
      u := CountDays(year, month, day);
      WrapTimes(DayCount(Date(f.y, f.m, f.d)), 86400);
      u := Wrapped(u * 86400);
      p := SkipTo(s, p, ' ');
      assert p == 10 by { assert s[10] == ' ' && IsDigit(s[8]) && IsDigit(s[9]); }
    }
    if u < 0 {
      u := 0;
    }
    p := SkipToDigit(s, p);
    assert p == if f.y >= 1970 then 11 else 0 by { assert IsDigit(s[11]) && IsDigit(s[0]); }
    if p < |s| && s[p] == '0' {
      p := p + 1;
    }
    assert u == DayPart(f);
    ghost var sum := u + (if f.y < 1970 then f.y else f.h) * 3600;
    u := Wrapped(u + Atoi(s, p) * 3600);
    p := SkipTo(s, p, ':');
    assert p == 13 by {
      assert s[13] == ':' && forall i :: 0 <= i < 13 ==> IsDigit(s[i]) || s[i] == '-' || s[i] == ' ';
    }
    p := SkipToDigit(s, p);
    assert p == 14 by { assert IsDigit(s[14]); }
    WrapAdd(sum, f.mi * 60);
    u := Wrapped(u + Atoi(s, p) * 60);
    p := SkipTo(s, p, ':');
    assert p == 16 by { assert s[16] == ':' && IsDigit(s[14]) && IsDigit(s[15]); }
    p := SkipToDigit(s, p);
    assert p == 17 by { assert IsDigit(s[17]); }
    WrapAdd(sum + f.mi * 60, f.s);
    u := Wrapped(u + Atoi(s, p));
  }

  lemma StampReads(f: Fields)
    requires IsStamp(f)
    ensures var s := Stamp(f);
      && (forall i :: 0 <= i < 19 && i != 4 && i != 7 && i != 10 && i != 13 && i != 16 ==> IsDigit(s[i]))
      && s[4] == s[7] == '-' && s[10] == ' ' && s[13] == s[16] == ':'
      && !IsDigit('-') && !IsDigit(' ') && !IsDigit(':')
      && Atoi(s, 0) == f.y && (f.y < 1970 ==> Atoi(s, if s[0] == '0' then 1 else 0) == f.y)
      && Atoi(s, 5) == f.m && Atoi(s, 8) == f.d && Atoi(s, if s[11] == '0' then 12 else 11) == f.h
      && Atoi(s, 14) == f.mi && Atoi(s, 17) == f.s
  {
    var s := Stamp(f);
    DigitsRead(f);
    hide Digit, Atoi;
    ReadFour(s, f.y);
    ReadTwo(s, 5, f.m);
    ReadTwo(s, 8, f.d);
    ReadTwo(s, 11, f.h);
    ReadTwo(s, 14, f.mi);
    ReadTwo(s, 17, f.s);
  }

  lemma DigitsRead(f: Fields)
    requires IsStamp(f)
    ensures var s := Stamp(f);
      forall i :: 0 <= i < 19 && i != 4 && i != 7 && i != 10 && i != 13 && i != 16 ==> IsDigit(s[i])
  {}

  // Writing a time and reading it back gives the time.
  method RoundTrip(t: nat) returns (u: int)
    requires t < 0x8000_0000
    ensures u == t
  {
    FieldsAreStamp(t);
    ReadExactly(FieldsOf(t));
    u := TimeSql2Unix(Stamp(FieldsOf(t)), FieldsOf(t));
  }

  // ---------- stamps sort like the times they denote ----------

  ghost predicate DiffersAt(a: string, b: string, i: nat) {
    i < |a| && i < |b| && a[..i] == b[..i] && a[i] < b[i]
  }

  // Text order, on texts of the same length.
  ghost predicate TextBefore(a: string, b: string) {
    exists i: nat :: DiffersAt(a, b, i)
  }

  lemma TextBeforeOneWay(a: string, b: string)
    ensures TextBefore(a, b) ==> !TextBefore(b, a)
  {}

  predicate TimeBefore(f: Fields, g: Fields) {
    f.h < g.h || (f.h == g.h && (f.mi < g.mi || (f.mi == g.mi && f.s < g.s)))
  }

  predicate FieldsBefore(f: Fields, g: Fields) {
    var a, b := Date(f.y, f.m, f.d), Date(g.y, g.m, g.d);
    DateBefore(a, b) || (a == b && TimeBefore(f, g))
  }

  lemma FieldsOrderSeconds(f: Fields, g: Fields)
    requires IsStamp(f) && IsStamp(g) && FieldsBefore(f, g)
    ensures Seconds(f) < Seconds(g)
  {
    if DateBefore(Date(f.y, f.m, f.d), Date(g.y, g.m, g.d)) {
      SecondsOrder(f, g);
    }
  }

  // Two digits at p decide for two numbers that differ there first.
  lemma PairDecides(a: string, b: string, p: nat, x: nat, y: nat)
    requires x < y < 100 && p + 2 <= |a| && p + 2 <= |b| && a[..p] == b[..p]
    requires a[p] == Digit(x / 10) && a[p + 1] == Digit(x % 10) && b[p] == Digit(y / 10) && b[p + 1] == Digit(y % 10)
    ensures TextBefore(a, b)
  {
    if x / 10 < y / 10 {
      assert DiffersAt(a, b, p);
    } else {
      assert a[..p + 1] == a[..p] + [a[p]] && b[..p + 1] == b[..p] + [b[p]];
      assert DiffersAt(a, b, p + 1);
    }
  }

  lemma Hundreds(n: nat)
    requires n < 10000
    ensures n / 100 < 100 && n / 1000 == n / 100 / 10 && n == 100 * (n / 100) + n % 100
    ensures n % 100 / 10 == n / 10 % 10 && n % 100 % 10 == n % 10
  {
    var q, r := n / 100, n % 100;
    assert n / 10 == 10 * q + r / 10;
  }

  lemma YearDecides(a: string, b: string, x: nat, y: nat)
    requires x < y < 10000 && 4 <= |a| && 4 <= |b|
    requires a[0] == Digit(x / 1000) && a[1] == Digit(x / 100 % 10)
    requires a[2] == Digit(x / 10 % 10) && a[3] == Digit(x % 10)
    requires b[0] == Digit(y / 1000) && b[1] == Digit(y / 100 % 10)
    requires b[2] == Digit(y / 10 % 10) && b[3] == Digit(y % 10)
    ensures TextBefore(a, b)
  {
    hide Digit, TextBefore;
    Hundreds(x);
    Hundreds(y);
    var u, v := x / 100, y / 100;
    if u < v {
      PairDecides(a, b, 0, u, v);
    } else {
      assert a[..2] == [a[0], a[1]] && b[..2] == [b[0], b[1]];
      PairDecides(a, b, 2, x % 100, y % 100);
    }
  }

  lemma FieldsOrderText(f: Fields, g: Fields)
    requires IsStamp(f) && IsStamp(g) && FieldsBefore(f, g)
    ensures TextBefore(Stamp(f), Stamp(g))
  {
    hide Digit, TextBefore;
    var a, b := Stamp(f), Stamp(g);
    if f.y != g.y {
      YearDecides(a, b, f.y, g.y);
    } else if f.m != g.m {
      PairDecides(a, b, 5, f.m, g.m);
    } else if f.d != g.d {
      PairDecides(a, b, 8, f.d, g.d);
    } else if f.h != g.h {
      PairDecides(a, b, 11, f.h, g.h);
    } else if f.mi != g.mi {
      PairDecides(a, b, 14, f.mi, g.mi);
    } else {
      PairDecides(a, b, 17, f.s, g.s);
    }
  }

  // Comparing stamps as text is comparing the times.
  lemma StampsSort(f: Fields, g: Fields)
    requires IsStamp(f) && IsStamp(g)
    ensures TextBefore(Stamp(f), Stamp(g)) <==> Seconds(f) < Seconds(g)
  {
    hide Seconds, Stamp, TextBefore;
    TextBeforeOneWay(Stamp(f), Stamp(g));
    TextBeforeOneWay(Stamp(f), Stamp(f));
    if FieldsBefore(f, g) {
      FieldsOrderSeconds(f, g);
      FieldsOrderText(f, g);
    } else if FieldsBefore(g, f) {
      FieldsOrderSeconds(g, f);
      FieldsOrderText(g, f);
    } else {
      assert f == g;
    }
  }

  // ---------- exactly when the value read is the time ----------

  const EPOCH: Fields := Fields(1970, 1, 1, 0, 0, 0)

  lemma EpochSeconds()
    ensures IsStamp(EPOCH) && Seconds(EPOCH) == 0
  {
    EpochCount();
  }

  lemma BeforeEpoch(f: Fields)
    requires IsStamp(f) && f.y < 1970
    ensures Seconds(f) < 0 <= ValueRead(f)
  {
    hide Seconds, Wrapped;
    EpochSeconds();
    FieldsOrderSeconds(f, EPOCH);
  }

  lemma FromEpoch(f: Fields)
    requires IsStamp(f) && f.y >= 1970
    ensures DayCount(Date(f.y, f.m, f.d)) >= 0
    ensures Seconds(f) < INT_LIMIT ==> ValueRead(f) == Seconds(f)
  {
    hide YearDays, MonthDays, Wrapped;
    YearsAreLong(f.y);
  }

  // The second is one that int holds.
  predicate InInt(f: Fields)
    requires IsStamp(f)
  {
    0 <= Seconds(f) < INT_LIMIT
  }

  // The value read is the time exactly when the time is neither before 1970 nor past the range of int.
  lemma ReadExactly(f: Fields)
    requires IsStamp(f)
    ensures ValueRead(f) == Seconds(f) <==> InInt(f)
  {
    hide Seconds, ValueRead;
    if f.y < 1970 {
      BeforeEpoch(f);
    } else {
      FromEpoch(f);
      EpochOrLater(f);
    }
  }

  lemma EpochOrLater(f: Fields)
    requires IsStamp(f) && f.y >= 1970
    ensures Seconds(f) >= 0
  {
    hide YearDays, MonthDays, ValueRead;
    FromEpoch(f);
  }

  ghost predicate OrderKept(f: Fields, g: Fields)
    requires IsStamp(f) && IsStamp(g)
  {
    && (TextBefore(Stamp(f), Stamp(g)) <==> ValueRead(f) < ValueRead(g))
    && (TextBefore(Stamp(g), Stamp(f)) <==> ValueRead(g) < ValueRead(f))
  }

  // Reading keeps a stamp in order with the stamps that int holds exactly when it is one of them.
  lemma ReadKeepsOrderExactly(f: Fields)
    requires IsStamp(f)
    ensures (forall g: Fields :: IsStamp(g) && InInt(g) ==> OrderKept(f, g)) <==> InInt(f)
  {
    hide Seconds, Stamp, TextBefore, IsStamp, ValueRead;
    ReadExactly(f);
    if InInt(f) {
      forall g: Fields | IsStamp(g) && InInt(g)
        ensures OrderKept(f, g)
      {
        ReadExactly(g);
        StampsSort(f, g);
        StampsSort(g, f);
      }
    } else {
      OutOfOrder(f);
    }
  }

  // A stamp before 1970 is out of order with the epoch, a later one with the last second of int.
  lemma OutOfOrder(f: Fields)
    requires IsStamp(f) && !InInt(f)
    ensures var g := if Seconds(f) < 0 then EPOCH else FieldsOf(INT_LIMIT - 1);
      IsStamp(g) && InInt(g) && !OrderKept(f, g)
  {
    hide Seconds, Stamp, TextBefore, IsStamp, ValueRead, FieldsOf;
    EpochSeconds();
    FieldsAreStamp(INT_LIMIT - 1);
    var g := if Seconds(f) < 0 then EPOCH else FieldsOf(INT_LIMIT - 1);
    StampsSort(f, g);
    StampsSort(g, f);
    ReadExactly(g);
    if Seconds(f) < 0 {
      NegativeRead(f);
    }
  }

  lemma NegativeRead(f: Fields)
    requires IsStamp(f) && Seconds(f) < 0
    ensures ValueRead(f) >= 0
  {
    hide Seconds, ValueRead;
    if f.y < 1970 {
      BeforeEpoch(f);
    } else {
      EpochOrLater(f);
    }
  }

  const EVE: Fields := Fields(1969, 12, 31, 23, 59, 59)

  lemma EveSeconds()
    ensures IsStamp(EVE) && Seconds(EVE) == -1
  {
    hide DayCount, YearDays, MonthDays;
    EpochCount();
    CountTomorrow(Date(1969, 12, 31));
    assert Tomorrow(Date(1969, 12, 31)) == Date(1970, 1, 1);
  }

  lemma EveText()
    ensures IsStamp(EVE) && Stamp(EVE) == "1969-12-31 23:59:59"
  {}

  lemma EpochText()
    ensures IsStamp(EPOCH) && Stamp(EPOCH) == "1970-01-01 00:00:00"
  {}

  // The last second of 1969 reads as 7091999, and the second after it as 0.
  lemma EveOfEpoch()
    ensures IsStamp(EVE) && Stamp(EVE) == "1969-12-31 23:59:59" && Seconds(EVE) == -1 && ValueRead(EVE) == 7091999
    ensures IsStamp(EPOCH) && Stamp(EPOCH) == "1970-01-01 00:00:00" && Seconds(EPOCH) == 0 && ValueRead(EPOCH) == 0
  {
    EveText();
    EpochText();
    hide Seconds, Stamp, Wrapped;
    EveSeconds();
    EpochSeconds();
    ReadExactly(EPOCH);
  }

  // From 1970 to 2100 every fourth year is a leap year.
  lemma {:induction false} YearsTo2100(y: nat)
    requires 1970 <= y <= 2100
    ensures YearDays(y) == 365 * (y - 1970) + (y - 1969) / 4
  {
    hide YearDays;
    EpochIsZero();
    if y > 1970 {
      YearsTo2100(y - 1);
      NextYear(y - 1);
      assert Leap(y - 1) <==> (y - 1) % 4 == 0;
    }
  }

  const FIRST_LATE: Fields := Fields(2038, 1, 19, 3, 14, 8)
  const CENTURY: Fields := Fields(2100, 1, 1, 0, 0, 0)

  lemma LateCounts()
    ensures DayCount(Date(2038, 1, 19)) == 24855 && DayCount(Date(2100, 1, 1)) == 47482
  {
    hide YearDays;
    YearsTo2100(2038);
    YearsTo2100(2100);
  }

  // The first second past int reads as the least int, and the first second of 2100 as 0, like the epoch.
  lemma LateStamps()
    ensures IsStamp(FIRST_LATE) && Stamp(FIRST_LATE) == "2038-01-19 03:14:08"
    ensures Seconds(FIRST_LATE) == INT_LIMIT && ValueRead(FIRST_LATE) == -INT_LIMIT
    ensures IsStamp(CENTURY) && Stamp(CENTURY) == "2100-01-01 00:00:00"
    ensures Seconds(CENTURY) == 4102444800 && ValueRead(CENTURY) == 0
  {
    LateCounts();
    hide DayCount;
    assert Wrapped(24855 * 86400) == 24855 * 86400;
    assert Wrapped(4102444800) == -192522496;
  }

  // ---------- known stamps ----------

  const BILLION: Fields := Fields(2001, 9, 9, 1, 46, 40)
  const DIGITS: Fields := Fields(2009, 2, 13, 23, 31, 30)

  lemma KnownCounts()
    ensures DayCount(Date(2001, 9, 9)) == 11574 && DayCount(Date(2009, 2, 13)) == 14288
  {
    hide YearDays;
    YearsTo2100(2001);
    YearsTo2100(2009);
    assert MonthDays(2001, 2) == 59;
    assert MonthDays(2001, 4) == 120;
    assert MonthDays(2001, 6) == 181;
    assert MonthDays(2001, 8) == 243;
    assert MonthDays(2009, 1) == 31;
  }

  lemma BillionText()
    ensures IsStamp(BILLION) && Stamp(BILLION) == "2001-09-09 01:46:40"
  {}

  lemma DigitsText()
    ensures IsStamp(DIGITS) && Stamp(DIGITS) == "2009-02-13 23:31:30"
  {}

  // Two stamps whose times are well known.
  lemma KnownStamps()
    ensures IsStamp(BILLION) && Stamp(BILLION) == "2001-09-09 01:46:40" && ValueRead(BILLION) == 1000000000
    ensures IsStamp(DIGITS) && Stamp(DIGITS) == "2009-02-13 23:31:30" && ValueRead(DIGITS) == 1234567890
  {
    BillionText();
    DigitsText();
    KnownCounts();
    hide DayCount, Stamp, Wrapped;
  }
}
