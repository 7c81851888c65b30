/** Quote escaping, with its two implementations, and the layout of the Firebird row buffer. */
module SqlText {
  import opened Basics

  const QUOTE: char := '\''
  const BACKSLASH: char := '\\'
  const NUL: char := '\0'

  // Every character of the set is doubled.
  function Doubled(s: string, special: set<char>): string {
    if s == [] then [] else Doubled(s[..|s| - 1], special) + Image(s[|s| - 1], special)
  }

  function Image(c: char, special: set<char>): string {
    if c in special then [c, c] else [c]
  }

  // One of each pair is dropped again; None when a special character stands alone.
  function Undoubled(s: string, special: set<char>): Option<string> {
    if s == [] then Some([])
    else if s[0] in special then
      if |s| >= 2 && s[1] == s[0] then
        match Undoubled(s[2..], special)
        case Some(t) => Some([s[0]] + t)
        case None => None
      else None
    else
      match Undoubled(s[1..], special)
      case Some(t) => Some([s[0]] + t)
      case None => None
  }

  lemma {:induction false} DoubledAppend(a: string, b: string, special: set<char>)
    ensures Doubled(a + b, special) == Doubled(a, special) + Doubled(b, special)
  {
    if b == [] {
      assert a + b == a;
    } else {
      assert (a + b)[..|a + b| - 1] == a + b[..|b| - 1];
      DoubledAppend(a, b[..|b| - 1], special);
    }
  }

  lemma DoubledOne(c: char, special: set<char>)
    ensures Doubled([c], special) == Image(c, special)
  {}

  lemma {:induction false} DoubledPlain(s: string, special: set<char>)
    requires forall i :: 0 <= i < |s| ==> s[i] !in special
    ensures Doubled(s, special) == s
  {
    if s != [] {
      DoubledPlain(s[..|s| - 1], special);
      assert s == s[..|s| - 1] + [s[|s| - 1]];
    }
  }

  // Escaping loses nothing.
  lemma {:induction false} UndoubleInverts(s: string, special: set<char>)
    ensures Undoubled(Doubled(s, special), special) == Some(s)
    decreases |s|
  {
    if s != [] {
      var rest := Doubled(s[1..], special);
      assert s == [s[0]] + s[1..];
      DoubledAppend([s[0]], s[1..], special);
      DoubledOne(s[0], special);
      UndoubleInverts(s[1..], special);
      var t := Doubled(s, special);
      if s[0] in special {
        assert t[2..] == rest;
      } else {
        assert t[1..] == rest;
      }
    }
  }

  // And only escaped texts can be un-doubled.
  lemma {:induction false} DoubleInverts(s: string, special: set<char>)
    ensures Undoubled(s, special).Some? ==> Doubled(Undoubled(s, special).value, special) == s
    decreases |s|
  {
    if s != [] {
      var n := if s[0] in special then 2 else 1;
      if n <= |s| && (n == 2 ==> s[1] == s[0]) && Undoubled(s[n..], special).Some? {
        var t := Undoubled(s[n..], special).value;
        DoubleInverts(s[n..], special);
        DoubledAppend([s[0]], t, special);
        DoubledOne(s[0], special);
        assert s == Image(s[0], special) + s[n..];
      }
    }
  }

  // Without a backslash in the text, the two escapes agree.
  lemma {:induction false} QuotesOnly(s: string)
    requires BACKSLASH !in s
    ensures Doubled(s, {QUOTE, BACKSLASH}) == Doubled(s, {QUOTE})
  {
    if s != [] {
      QuotesOnly(s[..|s| - 1]);
      assert s[|s| - 1] in s;
    }
  }

  // What is doubled, in characters.
  lemma EscapedText(a: string, b: string)
    requires '\'' !in a && '\'' !in b && '\\' !in a && '\\' !in b
    ensures Doubled(a + "'" + b, {QUOTE}) == a + "''" + b
    ensures Doubled(a + "'" + b, {QUOTE, BACKSLASH}) == a + "''" + b
    ensures Doubled(a + "\\" + b, {QUOTE, BACKSLASH}) == a + "\\\\" + b
  {
    var q, both := {QUOTE}, {QUOTE, BACKSLASH};
    hide Doubled;
    Escape(a, '\'', b, q);
    Escape(a, '\'', b, both);
    Escape(a, '\\', b, both);
  }

  lemma Escape(a: string, c: char, b: string, special: set<char>)
    requires c in special
    requires (forall i :: 0 <= i < |a| ==> a[i] !in special) && (forall i :: 0 <= i < |b| ==> b[i] !in special)
    ensures Doubled(a + [c] + b, special) == a + [c, c] + b
  {
    hide Doubled;
    DoubledAppend(a + [c], b, special);
    DoubledAppend(a, [c], special);
    DoubledOne(c, special);
    DoubledPlain(a, special);
    DoubledPlain(b, special);
  }

  // str2sql, with room for the escaped text and its NUL.
  method Str2Sql(outstring: array<char>, outlen: int, instring: string)
    requires NUL !in instring && outlen <= outstring.Length
    requires |Doubled(instring, {QUOTE, BACKSLASH})| < outlen
    modifies outstring
    ensures var text := Doubled(instring, {QUOTE, BACKSLASH});
      outstring[..|text|] == text && outstring[|text|] == NUL
  {
    hide Doubled;
    var src, dst := 0, 0;
    ghost var special := {QUOTE, BACKSLASH};
    DoubledNothing(special);
    while dst < outlen && src < |instring|
      invariant 0 <= src <= |instring| && 0 <= dst < outlen
      invariant outstring[..dst] == Doubled(instring[..src], special)
    {
      var ch := instring[src];
      Step(instring, src, special);
      DoubledPrefix(instring, src + 1, special);
      ghost var before := outstring[..dst];
      if ch == QUOTE {
        outstring[dst] := QUOTE;
        outstring[dst + 1] := ch;
        dst := dst + 2;
      } else if ch == BACKSLASH {
        outstring[dst] := BACKSLASH;
        outstring[dst + 1] := ch;
        dst := dst + 2;
      } else {
        outstring[dst] := ch;
        dst := dst + 1;
      }
      src := src + 1;
      assert outstring[..dst] == before + Image(ch, special);
    }
    assert instring[..|instring|] == instring;
    if dst < outlen {
      outstring[dst] := NUL;
    }
    outstring[outlen - 1] := NUL;
  }

  lemma DoubledNothing(special: set<char>)
    ensures Doubled([], special) == []
  {}

  lemma DoubledPrefix(s: string, k: nat, special: set<char>)
    requires k <= |s|
    ensures |Doubled(s[..k], special)| <= |Doubled(s, special)|
  {
    assert s == s[..k] + s[k..];
    DoubledAppend(s[..k], s[k..], special);
  }

  lemma Step(s: string, k: nat, special: set<char>)
    requires k < |s|
    ensures Doubled(s[..k + 1], special) == Doubled(s[..k], special) + Image(s[k], special)
    ensures Doubled(s[k..], special) == Image(s[k], special) + Doubled(s[k + 1..], special)
  {
    assert s[..k + 1][..k] == s[..k];
    assert s[k..] == [s[k]] + s[k + 1..];
    DoubledAppend([s[k]], s[k + 1..], special);
    DoubledOne(s[k], special);
  }

  // nsp_sql_escape: whole segments are copied, and a doubled quote after each.
  method NspSqlEscape(str: string) returns (r: string)
    requires NUL !in str
    ensures r == Doubled(str, {QUOTE})
  {
    r := "";
    var ss, se := 0, 0;
    var done := false;
    while !done && se < |str|
      invariant 0 <= ss <= se <= |str|
      invariant forall i :: ss <= i < se ==> str[i] != QUOTE
      invariant r == Doubled(str[..ss], {QUOTE})
      invariant done ==> ss == se == |str|
      decreases !done, |str| - se
    {
      if str[se] != QUOTE {
        se := se + 1;
        continue;
      }
      Segment(str, ss, se);
      Step(str, se, {QUOTE});
      r := r + str[ss..se];
      r := r + "''";
      se := se + 1;
      ss := se;
      if se >= |str| {
        done := true;
      }
    }
    Segment(str, ss, se);
    if se > ss {
      r := r + str[ss..se];
    }
    assert str[..|str|] == str;
  }

  lemma Segment(s: string, a: nat, b: nat)
    requires a <= b <= |s| && forall i :: a <= i < b ==> s[i] != QUOTE
    ensures Doubled(s[..b], {QUOTE}) == Doubled(s[..a], {QUOTE}) + s[a..b]
  {
    assert s[..b] == s[..a] + s[a..b];
    DoubledAppend(s[..a], s[a..b], {QUOTE});
    DoubledPlain(s[a..b], {QUOTE});
  }

  // ---------- the row buffer ----------

  const SQL_VARYING := 448

  datatype Var = Var(sqltype: nat, sqllen: nat)

  // A field's place: its data, the length of the data, and its indicator.
  datatype Place = Place(data: nat, length: nat, indicator: nat)

  // The default FB_ALIGN, which takes no notice of the alignment asked for.
  function Align(n: nat): (r: nat)
    ensures r % 2 == 0 && n <= r <= n + 1
  {
    n + n % 2
  }

  function Length(v: Var): nat {
    if v.sqltype / 2 * 2 == SQL_VARYING then v.sqllen + 2 + 1 else v.sqllen
  }

  // A VARYING field (448, or 449 where it may be null) has room for its length word, its text and a terminator;
  // any other field has its declared length.
  lemma LengthOf(n: nat, sqltype: nat)
    ensures Length(Var(448, n)) == n + 3 && Length(Var(449, n)) == n + 3
    ensures sqltype != 448 && sqltype != 449 ==> Length(Var(sqltype, n)) == n
  {}

  // The extent of the fields: each is its data and an indicator, both aligned.
  function Extent(vars: seq<Var>): (n: nat)
    ensures n % 2 == 0
  {
    if vars == [] then 0 else Extent(vars[..|vars| - 1]) + Align(Length(vars[|vars| - 1])) + 2
  }

  lemma {:induction false} ExtentGrows(vars: seq<Var>, k: nat)
    requires k <= |vars|
    ensures Extent(vars[..k]) <= Extent(vars)
  {
    if k < |vars| {
      assert vars[..|vars| - 1][..k] == vars[..k];
      ExtentGrows(vars[..|vars| - 1], k);
    } else {
      assert vars[..k] == vars;
    }
  }

  lemma AlignEven(o: nat, n: nat)
    requires o % 2 == 0
    ensures Align(o) == o && Align(o + n) == o + Align(n)
  {}

  // A field's data and then its indicator, at even offsets, before the end.
  ghost predicate Fits(p: Place, v: Var, end: nat) {
    && p.length == Length(v)
    && p.data % 2 == 0 && p.indicator % 2 == 0
    && p.data + p.length <= p.indicator
    && p.indicator + 2 <= end
  }

  // Data and indicators lie in field order without overlap, at even offsets, inside a buffer of 32768 bytes or more.
  method Layout(vars: seq<Var>) returns (places: seq<Place>)
    requires Extent(vars) < 32768
    ensures |places| == |vars|
    ensures forall i :: 0 <= i < |places| ==> Fits(places[i], vars[i], Extent(vars))
    ensures forall i, j :: 0 <= i < j < |places| ==> places[i].indicator + 2 <= places[j].data
  {
    hide Align, Extent;
    places := [];
    var offset: nat := 0;  // a short
    NoExtent();
    for i := 0 to |vars|
      invariant |places| == i && offset == Extent(vars[..i])
      invariant forall k :: 0 <= k < i ==> Fits(places[k], vars[k], offset)
      invariant forall k, l :: 0 <= k < l < i ==> places[k].indicator + 2 <= places[l].data
    {
      var v := vars[i];
      var length := v.sqllen;
      if v.sqltype / 2 * 2 == SQL_VARYING {
        length := length + 2 + 1;
      }
      OneMore(vars, i);
      ExtentGrows(vars, i + 1);
      AlignEven(offset, length);
      offset := Align(offset);
      var data := offset;
      offset := offset + length;
      offset := Align(offset);
      places := places + [Place(data, length, offset)];
      offset := offset + 2;
      assert offset < 32768;
    }
    assert vars[..|vars|] == vars;
  }

  lemma NoExtent()
    ensures Extent([]) == 0
  {}

  lemma OneMore(vars: seq<Var>, i: nat)
    requires i < |vars|
    ensures Extent(vars[..i + 1]) == Extent(vars[..i]) + Align(Length(vars[i])) + 2
  {
    assert vars[..i + 1][..i] == vars[..i];
  }
}
