/** The comparator that multisort compiles, and the order it stands for. */
module SortOrder {
  // A JavaScript string is a sequence of UTF-16 code units.
  type Unit = x: int | 0 <= x < 0x1_0000

  // A formatted cell: null, a string, or a finite number.
  datatype Key = Null | Text(s: seq<Unit>) | Num(x: real)

  datatype Kind = Textual | Numeric

  datatype SortSpec = SortSpec(column: nat, order: nat)

  // One row of the cache: the keys, then the position in cache.row.
  datatype Entry = Entry(keys: seq<Key>, pos: nat)

  ghost predicate KeyFits(k: Key, kind: Kind) {
    k == Null || (kind == Textual && k.Text?) || (kind == Numeric && k.Num?)
  }

  ghost predicate Fits(e: Entry, kinds: seq<Kind>) {
    |e.keys| == |kinds| && forall c :: 0 <= c < |kinds| ==> KeyFits(e.keys[c], kinds[c])
  }

  ghost predicate InRange(sortList: seq<SortSpec>, kinds: seq<Kind>) {
    forall i :: 0 <= i < |sortList| ==> sortList[i].column < |kinds|
  }

  // ---------- the compiled program ----------

  datatype Number = Fin(x: real) | PosInf | NegInf | NaN

  datatype Side = A | B

  datatype Test =
    | LooseEq(c: nat)          // a[c] == b[c]
    | IsNull(side: Side, c: nat)
    | Both(t: Test, u: Test)
    | Less(first: Side, c: nat)  // first[c] < other[c]

  datatype Expr =
    | Const(n: Number)
    | Cond(t: Test, yes: Expr, no: Expr)
    | Minus(first: Side, c: nat)  // first[c] - other[c]

  // var e = ...; if (e) { return e; } else { ... }
  datatype Program = Try(e: Expr, rest: Program) | ReturnOrder

  function Pick(side: Side, c: nat, a: Entry, b: Entry): Key {
    var e := if side == A then a else b;
    if c < |e.keys| then e.keys[c] else Null
  }

  function Other(side: Side): Side { if side == A then B else A }

  // Strings compare by code units.
  predicate LexLess(s: seq<Unit>, t: seq<Unit>) {
    t != [] && (s == [] || s[0] < t[0] || (s[0] == t[0] && LexLess(s[1..], t[1..])))
  }

  predicate KeyLess(x: Key, y: Key) {
    match (x, y)
    case (Text(s), Text(t)) => LexLess(s, t)
    case (Num(m), Num(n)) => m < n
    case _ => false
  }

  predicate Holds(t: Test, a: Entry, b: Entry) {
    match t
    case LooseEq(c) => Pick(A, c, a, b) == Pick(B, c, a, b)
    case IsNull(side, c) => Pick(side, c, a, b) == Null
    case Both(u, v) => Holds(u, a, b) && Holds(v, a, b)
    case Less(first, c) => KeyLess(Pick(first, c, a, b), Pick(Other(first), c, a, b))
  }

  function Eval(e: Expr, a: Entry, b: Entry): Number {
    match e
    case Const(n) => n
    case Cond(t, yes, no) => if Holds(t, a, b) then Eval(yes, a, b) else Eval(no, a, b)
    case Minus(first, c) =>
      match (Pick(first, c, a, b), Pick(Other(first), c, a, b))
      case (Num(m), Num(n)) => Fin(m - n)
      case _ => NaN
  }

  predicate Truthy(n: Number) {
    n != Fin(0.0) && n != NaN
  }

  function Run(p: Program, a: Entry, b: Entry): Number {
    match p
    case Try(e, rest) => if Truthy(Eval(e, a, b)) then Eval(e, a, b) else Run(rest, a, b)
    case ReturnOrder => Fin(a.pos as real - b.pos as real)
  }

  // makeSortFunction.
  function MakeSortFunction(kind: Kind, ascending: bool, c: nat): Expr {
    var first := if ascending then A else B;
    if kind == Textual then
      Cond(LooseEq(c), Const(Fin(0.0)),
           Cond(IsNull(A, c), Const(PosInf),
                Cond(IsNull(B, c), Const(NegInf),
                     Cond(Less(first, c), Const(Fin(-1.0)), Const(Fin(1.0))))))
    else
      Cond(Both(IsNull(A, c), IsNull(B, c)), Const(Fin(0.0)),
           Cond(IsNull(A, c), Const(PosInf),
                Cond(IsNull(B, c), Const(NegInf), Minus(first, c))))
  }

  // The nest of conditionals that multisort writes out, one level for each entry of the sort list.
  function Compile(sortList: seq<SortSpec>, kinds: seq<Kind>): Program
    requires forall i :: 0 <= i < |sortList| ==> sortList[i].column < |kinds|
  {
    if sortList == [] then ReturnOrder
    else
      var s := sortList[0];
      Try(MakeSortFunction(kinds[s.column], s.order == 0, s.column), Compile(sortList[1..], kinds))
  }

  // ---------- the order ----------

  // Null keys come last in both directions.
  predicate KeyBefore(x: Key, y: Key, ascending: bool) {
    x != Null && (y == Null || (if ascending then KeyLess(x, y) else KeyLess(y, x)))
  }

  predicate SpecBefore(s: SortSpec, a: Entry, b: Entry) {
    s.column < |a.keys| && s.column < |b.keys| && KeyBefore(a.keys[s.column], b.keys[s.column], s.order == 0)
  }

  // Lexicographic by the sort list, then by original position.
  predicate Before(sortList: seq<SortSpec>, a: Entry, b: Entry) {
    if sortList == [] then a.pos < b.pos
    else SpecBefore(sortList[0], a, b)
         || (!SpecBefore(sortList[0], b, a) && Before(sortList[1..], a, b))
  }

  predicate Negative(n: Number) { n == NegInf || (n.Fin? && n.x < 0.0) }
  predicate Positive(n: Number) { n == PosInf || (n.Fin? && n.x > 0.0) }

  lemma {:induction false} LexTotal(s: seq<Unit>, t: seq<Unit>)
    ensures LexLess(s, t) || LexLess(t, s) || s == t
    ensures !(LexLess(s, t) && LexLess(t, s))
  {
    if s != [] && t != [] {
      LexTotal(s[1..], t[1..]);
      assert s == [s[0]] + s[1..] && t == [t[0]] + t[1..];
    }
  }

  lemma {:induction false} LexTransitive(s: seq<Unit>, t: seq<Unit>, u: seq<Unit>)
    requires LexLess(s, t) && LexLess(t, u)
    ensures LexLess(s, u)
  {
    if s != [] && s[0] == t[0] == u[0] {
      LexTransitive(s[1..], t[1..], u[1..]);
    }
  }

  lemma KeyTotal(x: Key, y: Key, kind: Kind, ascending: bool)
    requires KeyFits(x, kind) && KeyFits(y, kind)
    ensures KeyBefore(x, y, ascending) || KeyBefore(y, x, ascending) || x == y
    ensures !(KeyBefore(x, y, ascending) && KeyBefore(y, x, ascending))
  {
    if x.Text? && y.Text? {
      LexTotal(x.s, y.s);
    }
  }

  lemma KeyTransitive(x: Key, y: Key, z: Key, ascending: bool)
    requires KeyBefore(x, y, ascending) && KeyBefore(y, z, ascending)
    ensures KeyBefore(x, z, ascending)
  {
    if x.Text? && y.Text? && z.Text? {
      if ascending {
        LexTransitive(x.s, y.s, z.s);
      } else {
        LexTransitive(z.s, y.s, x.s);
      }
    }
  }

  // ---------- the order in plain terms ----------

  // The texts agree up to i, and there the first ends or has the smaller code unit.
  ghost predicate DiffersAt(s: seq<Unit>, t: seq<Unit>, i: nat) {
    i <= |s| && i < |t| && s[..i] == t[..i] && (i == |s| || s[i] < t[i])
  }

  ghost predicate TextBefore(s: seq<Unit>, t: seq<Unit>) {
    exists i: nat :: DiffersAt(s, t, i)
  }

  lemma {:induction false} LexLessIs(s: seq<Unit>, t: seq<Unit>)
    ensures LexLess(s, t) <==> TextBefore(s, t)
  {
    if s == [] || t == [] || s[0] != t[0] {
      assert t != [] && (s == [] || s[0] < t[0]) ==> DiffersAt(s, t, 0);
      assert forall i: nat :: i > 0 && i <= |s| && i < |t| && s[..i] == t[..i] ==> s[..i][0] == t[..i][0];
    } else {
      LexLessIs(s[1..], t[1..]);
      forall i: nat | i > 0
        ensures DiffersAt(s, t, i) <==> DiffersAt(s[1..], t[1..], i - 1)
      {
        DiffersTail(s, t, i);
      }
      assert !DiffersAt(s, t, 0);
      if i: nat :| DiffersAt(s[1..], t[1..], i) {
        assert DiffersAt(s, t, i + 1) <==> DiffersAt(s[1..], t[1..], i + 1 - 1);
      }
    }
  }

  lemma DiffersTail(s: seq<Unit>, t: seq<Unit>, i: nat)
    requires s != [] && t != [] && s[0] == t[0] && i > 0
    ensures DiffersAt(s, t, i) <==> DiffersAt(s[1..], t[1..], i - 1)
  {
    if i <= |s| && i < |t| {
      assert s[..i] == [s[0]] + s[1..][..i - 1] && t[..i] == [t[0]] + t[1..][..i - 1];
      assert s[..i][1..] == s[1..][..i - 1] && t[..i][1..] == t[1..][..i - 1];
    }
  }

  // Ascending is smaller first, descending is larger first, and null is last both ways.
  lemma KeysInOrder(x: Key, y: Key, ascending: bool)
    ensures x.Num? && y.Num? ==> (KeyBefore(x, y, ascending) <==> if ascending then x.x < y.x else x.x > y.x)
    ensures x.Text? && y.Text? ==>
      (KeyBefore(x, y, ascending) <==> if ascending then TextBefore(x.s, y.s) else TextBefore(y.s, x.s))
    ensures x != Null ==> KeyBefore(x, Null, ascending)
    ensures !KeyBefore(Null, y, ascending)
  {
    hide LexLess;
    if x.Text? && y.Text? {
      LexLessIs(x.s, y.s);
      LexLessIs(y.s, x.s);
    }
  }

  // Neither comes first by any entry before i.
  ghost predicate TiedUpTo(sortList: seq<SortSpec>, a: Entry, b: Entry, i: nat)
    requires i <= |sortList|
  {
    forall j :: 0 <= j < i ==> !SpecBefore(sortList[j], a, b) && !SpecBefore(sortList[j], b, a)
  }

  // The first entry that tells the rows apart decides, and without one the original position.
  ghost predicate DecidedAt(sortList: seq<SortSpec>, a: Entry, b: Entry, i: nat) {
    && i <= |sortList| && TiedUpTo(sortList, a, b, i)
    && if i == |sortList| then a.pos < b.pos else SpecBefore(sortList[i], a, b)
  }

  lemma {:induction false} BeforeIs(sortList: seq<SortSpec>, a: Entry, b: Entry)
    requires forall i :: 0 <= i < |sortList| ==> !(SpecBefore(sortList[i], a, b) && SpecBefore(sortList[i], b, a))
    ensures Before(sortList, a, b) <==> exists i: nat :: DecidedAt(sortList, a, b, i)
    decreases |sortList|
  {
    hide SpecBefore;
    if sortList == [] {
      assert DecidedAt(sortList, a, b, 0) <==> a.pos < b.pos;
    } else {
      var rest := sortList[1..];
      BeforeIs(rest, a, b);
      assert DecidedAt(sortList, a, b, 0) <==> SpecBefore(sortList[0], a, b);
      if Before(sortList, a, b) && !SpecBefore(sortList[0], a, b) {
        var i: nat :| DecidedAt(rest, a, b, i);
        DecidedTail(sortList, a, b, i);
      }
      if i: nat :| DecidedAt(sortList, a, b, i) {
        if i > 0 {
          DecidedTail(sortList, a, b, i - 1);
          assert DecidedAt(rest, a, b, i - 1);
        }
      }
    }
  }

  lemma DecidedTail(sortList: seq<SortSpec>, a: Entry, b: Entry, i: nat)
    requires sortList != []
    ensures DecidedAt(sortList, a, b, i + 1) <==>
      !SpecBefore(sortList[0], a, b) && !SpecBefore(sortList[0], b, a) && DecidedAt(sortList[1..], a, b, i)
  {
    hide SpecBefore;
    var rest := sortList[1..];
    assert forall j :: 0 <= j < |rest| ==> rest[j] == sortList[j + 1];
    assert i < |rest| ==> rest[i] == sortList[i + 1];
    if i <= |rest| {
      if TiedUpTo(sortList, a, b, i + 1) {
        assert TiedUpTo(rest, a, b, i);
      }
      if TiedUpTo(rest, a, b, i) && !SpecBefore(sortList[0], a, b) && !SpecBefore(sortList[0], b, a) {
        forall j | 0 <= j < i + 1
          ensures !SpecBefore(sortList[j], a, b) && !SpecBefore(sortList[j], b, a)
        {
          assert j > 0 ==> sortList[j] == rest[j - 1];
        }
      }
    }
  }

  // ---------- the compiled comparator ----------

  // One compiled comparison has the sign of the order on its column, and is never NaN.
  lemma SortFunctionSign(kind: Kind, ascending: bool, c: nat, a: Entry, b: Entry)
    requires c < |a.keys| && c < |b.keys| && KeyFits(a.keys[c], kind) && KeyFits(b.keys[c], kind)
    ensures var n := Eval(MakeSortFunction(kind, ascending, c), a, b);
      && (Negative(n) <==> KeyBefore(a.keys[c], b.keys[c], ascending))
      && (Positive(n) <==> KeyBefore(b.keys[c], a.keys[c], ascending))
      && (!Truthy(n) <==> a.keys[c] == b.keys[c])
      && n != NaN
  {
    var x, y := a.keys[c], b.keys[c];
    KeyTotal(x, y, kind, ascending);
    var first := if ascending then A else B;
    if kind == Textual {
      var last := Cond(Less(first, c), Const(Fin(-1.0)), Const(Fin(1.0)));
      var less := KeyLess(Pick(first, c, a, b), Pick(Other(first), c, a, b));
      assert Eval(last, a, b) == if less then Fin(-1.0) else Fin(1.0);
      var mid := Cond(IsNull(B, c), Const(NegInf), last);
      assert Eval(mid, a, b) == if y == Null then NegInf else Eval(last, a, b);
      var outer := Cond(IsNull(A, c), Const(PosInf), mid);
      assert Eval(outer, a, b) == if x == Null then PosInf else Eval(mid, a, b);
    } else {
      assert Holds(Both(IsNull(A, c), IsNull(B, c)), a, b) == (x == Null && y == Null);
      var last := Minus(first, c);
      var mid := Cond(IsNull(B, c), Const(NegInf), last);
      assert Eval(mid, a, b) == if y == Null then NegInf else Eval(last, a, b);
      var outer := Cond(IsNull(A, c), Const(PosInf), mid);
      assert Eval(outer, a, b) == if x == Null then PosInf else Eval(mid, a, b);
    }
  }

  // The compiled comparator decides the order.
  lemma {:induction false} CompiledDecides(sortList: seq<SortSpec>, kinds: seq<Kind>, a: Entry, b: Entry)
    requires InRange(sortList, kinds) && Fits(a, kinds) && Fits(b, kinds)
    ensures var n := Run(Compile(sortList, kinds), a, b);
      && (Negative(n) <==> Before(sortList, a, b))
      && (Positive(n) <==> Before(sortList, b, a))
      && (!Truthy(n) ==> a.pos == b.pos)
  {
    if sortList != [] {
      var s := sortList[0];
      SortFunctionSign(kinds[s.column], s.order == 0, s.column, a, b);
      CompiledDecides(sortList[1..], kinds, a, b);
    }
  }

  // It is a strict total order on entries with different positions.
  lemma {:induction false} BeforeTotal(sortList: seq<SortSpec>, kinds: seq<Kind>, a: Entry, b: Entry)
    requires InRange(sortList, kinds) && Fits(a, kinds) && Fits(b, kinds)
    ensures a.pos != b.pos ==> Before(sortList, a, b) || Before(sortList, b, a)
    ensures !(Before(sortList, a, b) && Before(sortList, b, a))
  {
    if sortList != [] {
      var s := sortList[0];
      KeyTotal(a.keys[s.column], b.keys[s.column], kinds[s.column], s.order == 0);
      BeforeTotal(sortList[1..], kinds, a, b);
    }
  }

  lemma {:induction false} BeforeTransitive(sortList: seq<SortSpec>, kinds: seq<Kind>, a: Entry, b: Entry, c: Entry)
    requires InRange(sortList, kinds) && Fits(a, kinds) && Fits(b, kinds) && Fits(c, kinds)
    requires Before(sortList, a, b) && Before(sortList, b, c)
    ensures Before(sortList, a, c)
  {
    if sortList != [] {
      var s := sortList[0];
      var x, y, z := a.keys[s.column], b.keys[s.column], c.keys[s.column];
      var kind, up := kinds[s.column], s.order == 0;
      KeyTotal(x, y, kind, up);
      KeyTotal(y, z, kind, up);
      KeyTotal(x, z, kind, up);
      if KeyBefore(x, y, up) && KeyBefore(y, z, up) {
        KeyTransitive(x, y, z, up);
      }
      if Before(sortList[1..], a, b) && Before(sortList[1..], b, c) {
        BeforeTransitive(sortList[1..], kinds, a, b, c);
      }
    }
  }
}
