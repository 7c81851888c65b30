/** Column indexes of header cells that may span rows and columns. */
module HeaderGrid {
  // The spans as the document gives them; 0 is a legal rowSpan.
  datatype Cell = Cell(rowSpan: nat, colSpan: nat)

  type Slot = (nat, nat)  // row, column

  function Rows(c: Cell): nat { if c.rowSpan != 0 then c.rowSpan else 1 }
  function Columns(c: Cell): nat { if c.colSpan != 0 then c.colSpan else 1 }

  // ---------- section 4.9.12.1 of the HTML Standard ----------

  // Occupied slots, the table width, and the columns of cells that grow downward.
  datatype Grid = Grid(slots: set<Slot>, width: nat, growing: set<nat>)

  function Block(y: nat, h: nat, x: nat, w: nat): set<Slot> {
    set r, c | y <= r < y + h && x <= c < x + w :: (r, c)
  }

  // While xcurrent is less than xwidth and its slot is taken, move on.
  function Skip(slots: set<Slot>, width: nat, y: nat, x: nat): (k: nat)
    ensures k >= x
    ensures forall c :: x <= c < k ==> (y, c) in slots
    ensures k >= width || (y, k) !in slots
    decreases width - x
  {
    if x < width && (y, x) in slots then Skip(slots, width, y, x + 1) else x
  }

  function Span(x: nat, w: nat): set<nat> {
    if w == 0 then {} else Span(x, w - 1) + {x + w - 1}
  }

  function Max(a: nat, b: nat): nat { if a < b then b else a }

  function Put(g: Grid, y: nat, x: nat, c: Cell): Grid {
    Grid(g.slots + Block(y, Rows(c), x, Columns(c)),
         Max(g.width, x + Columns(c)),
         if c.rowSpan == 0 then g.growing + Span(x, Columns(c)) else g.growing)
  }

  // The cells of one row from the cursor x on: their start columns, and the grid afterwards.
  function PlaceCells(g: Grid, y: nat, x: nat, cells: seq<Cell>): (seq<nat>, Grid)
    decreases |cells|
  {
    if cells == [] then ([], g)
    else
      var k := Skip(g.slots, g.width, y, x);
      var (starts, last) := PlaceCells(Put(g, y, k, cells[0]), y, k + Columns(cells[0]), cells[1..]);
      ([k] + starts, last)
  }

  function Grow(g: Grid, y: nat): Grid {
    g.(slots := g.slots + set c | c in g.growing :: (y, c))
  }

  function PlaceRows(g: Grid, y: nat, rows: seq<seq<Cell>>): seq<seq<nat>>
    decreases |rows|
  {
    if rows == [] then []
    else
      var (starts, next) := PlaceCells(Grow(g, y), y, 0, rows[0]);
      [starts] + PlaceRows(next, y + 1, rows[1..])
  }

  function HtmlStarts(rows: seq<seq<Cell>>): seq<seq<nat>> {
    PlaceRows(Grid({}, 0, {}), 0, rows)
  }

  // Start columns strictly increase within a row.
  lemma {:induction false} StartsIncrease(g: Grid, y: nat, x: nat, cells: seq<Cell>)
    ensures var starts := PlaceCells(g, y, x, cells).0;
      && |starts| == |cells|
      && (forall i :: 0 <= i < |starts| ==> x <= starts[i])
      && (forall i, j :: 0 <= i < j < |starts| ==> starts[i] < starts[j])
    decreases |cells|
  {
    if cells != [] {
      var k := Skip(g.slots, g.width, y, x);
      StartsIncrease(Put(g, y, k, cells[0]), y, k + Columns(cells[0]), cells[1..]);
    }
  }

  ghost predicate Increasing(s: seq<nat>) {
    forall i, j :: 0 <= i < j < |s| ==> s[i] < s[j]
  }

  lemma {:induction false} RowsIncrease(g: Grid, y: nat, rows: seq<seq<Cell>>)
    ensures var all := PlaceRows(g, y, rows);
      |all| == |rows| && forall i :: 0 <= i < |rows| ==> |all[i]| == |rows[i]| && Increasing(all[i])
    decreases |rows|
  {
    if rows != [] {
      StartsIncrease(Grow(g, y), y, 0, rows[0]);
      RowsIncrease(PlaceCells(Grow(g, y), y, 0, rows[0]).1, y + 1, rows[1..]);
    }
  }

  // ---------- computeTableHeaderCellIndexes ----------

  // A row of the matrix: false is an undefined element, and so is everything past the end.
  type MatrixRow = seq<bool>
  type Matrix = map<nat, MatrixRow>

  predicate Defined(row: MatrixRow, c: nat) {
    c < |row| && row[c]
  }

  predicate Marked(m: Matrix, r: nat, c: nat) {
    r in m && Defined(m[r], c)
  }

  ghost predicate Shows(m: Matrix, slots: set<Slot>) {
    forall r: nat, c: nat :: Marked(m, r, c) <==> (r, c) in slots
  }

  ghost predicate Within(g: Grid) {
    forall r, c :: (r, c) in g.slots ==> c < g.width
  }

  // The first undefined element, searched from column zero up to one past the end.
  method FirstAvailable(row: MatrixRow) returns (found: bool, col: nat)
    ensures found && col <= |row|
    ensures forall c :: 0 <= c < col ==> row[c]
    ensures col < |row| ==> !row[col]
  {
    found, col := false, 0;
    var k := 0;
    while k < |row| + 1
      invariant k <= |row| && !found
      invariant forall c :: 0 <= c < k ==> row[c]
    {
      if k == |row| || !row[k] {
        found, col := true, k;
        break;
      }
      k := k + 1;
    }
  }

  // Assigning past the end of an array leaves undefined elements between.
  function Assign(row: MatrixRow, c: nat): (out: MatrixRow)
    ensures forall k: nat :: Defined(out, k) <==> k == c || Defined(row, k)
  {
    if c < |row| then row[c := true] else row + seq(c - |row|, _ => false) + [true]
  }

  method Mark(m: Matrix, y: nat, h: nat, x: nat, w: nat) returns (out: Matrix)
    ensures forall r: nat, c: nat :: Marked(out, r, c) <==> Marked(m, r, c) || (y <= r < y + h && x <= c < x + w)
  {
    out := m;
    for k := y to y + h
      invariant forall r: nat, c: nat :: Marked(out, r, c) <==> Marked(m, r, c) || (y <= r < k && x <= c < x + w)
    {
      ghost var before := out;
      if k !in out {
        out := out[k := []];
      }
      var row := out[k];
      assert forall c: nat :: Defined(row, c) <==> Marked(before, k, c);
      for l := x to x + w
        invariant forall c: nat :: Defined(row, c) <==> Marked(m, k, c) || x <= c < l
      {
        row := Assign(row, l);
      }
      out := out[k := row];
      forall r: nat, c: nat
        ensures Marked(out, r, c) <==> Marked(m, r, c) || (y <= r < k + 1 && x <= c < x + w)
      {
        if r != k {
          assert Marked(out, r, c) <==> Marked(before, r, c);
        } else {
          assert Marked(out, k, c) <==> Defined(row, c);
        }
      }
    }
  }

  // The rescan from column zero meets the moving cursor, since every column to its left is taken.
  lemma RescanIsCursor(m: Matrix, g: Grid, y: nat, x: nat, col: nat, row: MatrixRow)
    requires Shows(m, g.slots) && Within(g) && x <= g.width
    requires row == (if y in m then m[y] else [])
    requires col <= |row| && (forall c :: 0 <= c < col ==> row[c]) && (col < |row| ==> !row[col])
    requires forall c: nat :: c < x ==> (y, c) in g.slots
    ensures Skip(g.slots, g.width, y, x) == col
  {
    var k := Skip(g.slots, g.width, y, x);
    assert Marked(m, y, col) <==> (y, col) in g.slots;
    assert Marked(m, y, k) <==> (y, k) in g.slots;
  }

  // The same spans as the code reads them: 0 counts as 1.
  function AsRead(c: Cell): Cell { Cell(Rows(c), Columns(c)) }

  function Read(cells: seq<Cell>): (out: seq<Cell>)
    ensures |out| == |cells|
    ensures forall j :: 0 <= j < |cells| ==> out[j] == AsRead(cells[j])
  {
    seq(|cells|, j requires 0 <= j < |cells| => AsRead(cells[j]))
  }

  function ReadAll(rows: seq<seq<Cell>>): (out: seq<seq<Cell>>)
    ensures |out| == |rows| && forall i :: 0 <= i < |rows| ==> out[i] == Read(rows[i])
  {
    seq(|rows|, i requires 0 <= i < |rows| => Read(rows[i]))
  }

  lemma NewRow(m: Matrix, y: nat, slots: set<Slot>)
    requires Shows(m, slots) && y !in m
    ensures Shows(m[y := []], slots)
  {}

  lemma NextCell(g: Grid, y: nat, x: nat, cells: seq<Cell>)
    requires cells != []
    ensures var k := Skip(g.slots, g.width, y, x);
      var (later, last) := PlaceCells(Put(g, y, k, cells[0]), y, k + Columns(cells[0]), cells[1..]);
      PlaceCells(g, y, x, cells) == ([k] + later, last)
  {}

  lemma NoCells(g: Grid, y: nat, x: nat)
    ensures PlaceCells(g, y, x, []) == ([], g)
  {}

  // Marking the matrix is placing the cell; the cursor is then right of everything in its row.
  lemma MarkIsPut(m: Matrix, out: Matrix, g: Grid, y: nat, x: nat, col: nat, cell: Cell)
    requires Shows(m, g.slots) && Within(g) && g.growing == {} && cell.rowSpan != 0 && cell.colSpan != 0
    requires forall r: nat, c: nat :: Marked(out, r, c) <==>
      Marked(m, r, c) || (y <= r < y + cell.rowSpan && col <= c < col + cell.colSpan)
    requires col == Skip(g.slots, g.width, y, x) && forall c: nat :: c < x ==> (y, c) in g.slots
    ensures var next := Put(g, y, col, cell);
      && Shows(out, next.slots) && Within(next) && next.growing == {}
      && col + cell.colSpan <= next.width
      && forall c: nat :: c < col + cell.colSpan ==> (y, c) in next.slots
  {}

  // One row of the header, starting from the matrix that the rows above left.
  method RowIndexes(m: Matrix, y: nat, cells: seq<Cell>, ghost g: Grid)
    returns (out: Matrix, starts: seq<nat>, ghost next: Grid)
    requires Shows(m, g.slots) && Within(g) && g.growing == {}
    ensures (starts, next) == PlaceCells(g, y, 0, Read(cells))
    ensures Shows(out, next.slots) && Within(next) && next.growing == {}
  {
    hide Shows, Within, Put, Skip, PlaceCells;
    out, starts, next := m, [], g;
    ghost var x: nat := 0;
    ghost var all, result := Read(cells), PlaceCells(g, y, 0, Read(cells));
    assert all[0..] == all;
    for j := 0 to |cells|
      invariant |starts| == j && Shows(out, next.slots) && Within(next) && next.growing == {}
      invariant x <= next.width && forall c: nat :: c < x ==> (y, c) in next.slots
      invariant result.0 == starts + PlaceCells(next, y, x, all[j..]).0
      invariant result.1 == PlaceCells(next, y, x, all[j..]).1
    {
      var cell := cells[j];
      var rowSpan := if cell.rowSpan != 0 then cell.rowSpan else 1;
      var colSpan := if cell.colSpan != 0 then cell.colSpan else 1;
      if y !in out {
        NewRow(out, y, next.slots);
        out := out[y := []];
      }
      var found, col := FirstAvailable(out[y]);
      RescanIsCursor(out, next, y, x, col, out[y]);
      starts := starts + [col];
      ghost var before := out;
      out := Mark(out, y, rowSpan, col, colSpan);
      assert all[j..][0] == Cell(rowSpan, colSpan) && all[j..][1..] == all[j + 1..];
      NextCell(next, y, x, all[j..]);
      assert starts + PlaceCells(Put(next, y, col, all[j]), y, col + colSpan, all[j + 1..]).0
          == starts[..j] + PlaceCells(next, y, x, all[j..]).0;
      MarkIsPut(before, out, next, y, x, col, Cell(rowSpan, colSpan));
      next := Put(next, y, col, Cell(rowSpan, colSpan));
      x := col + colSpan;
    }
    assert all[|cells|..] == [];
    NoCells(next, y, x);
    assert starts + [] == starts;
  }

  // The indexes are those of the moving cursor, for the spans as read.
  method ComputeIndexes(rows: seq<seq<Cell>>) returns (lookup: seq<seq<nat>>)
    ensures lookup == HtmlStarts(ReadAll(rows))
    ensures |lookup| == |rows| && forall i :: 0 <= i < |rows| ==> |lookup[i]| == |rows[i]| && Increasing(lookup[i])
  {
    hide Shows, Within, PlaceCells, PlaceRows, HtmlStarts, Increasing, Read, ReadAll;
    ghost var g, all := Grid({}, 0, {}), ReadAll(rows);
    StartOfRows(all);
    lookup := [];
    var matrix: Matrix := map[];
    assert all[0..] == all;
    for i := 0 to |rows|
      invariant Shows(matrix, g.slots) && Within(g) && g.growing == {}
      invariant HtmlStarts(all) == lookup + PlaceRows(g, i, all[i..])
    {
      NextRow(g, i, all[i..], rows[i], all[i + 1..]);
      var starts;
      ghost var next;
      matrix, starts, next := RowIndexes(matrix, i, rows[i], g);
      Append(lookup, starts, PlaceRows(next, i + 1, all[i + 1..]));
      lookup := lookup + [starts];
      g := next;
    }
    NoRows(g, |rows|, all[|rows|..]);
  }

  lemma StartOfRows(all: seq<seq<Cell>>)
    ensures Shows(map[], {}) && Within(Grid({}, 0, {}))
    ensures HtmlStarts(all) == [] + PlaceRows(Grid({}, 0, {}), 0, all)
    ensures |HtmlStarts(all)| == |all|
    ensures forall i :: 0 <= i < |all| ==> |HtmlStarts(all)[i]| == |all[i]| && Increasing(HtmlStarts(all)[i])
  {
    hide PlaceRows, Increasing;
    RowsIncrease(Grid({}, 0, {}), 0, all);
  }

  lemma Append<T>(a: seq<T>, x: T, b: seq<T>)
    ensures a + ([x] + b) == a + [x] + b
  {}

  // Without growing cells the next row starts from the grid as it is.
  lemma NextRow(g: Grid, y: nat, rows: seq<seq<Cell>>, cells: seq<Cell>, rest: seq<seq<Cell>>)
    requires rows != [] && rows[0] == Read(cells) && rows[1..] == rest && g.growing == {}
    ensures var (starts, next) := PlaceCells(g, y, 0, Read(cells));
      PlaceRows(g, y, rows) == [starts] + PlaceRows(next, y + 1, rest)
  {
    assert Grow(g, y) == g;
  }

  lemma NoRows(g: Grid, y: nat, rows: seq<seq<Cell>>)
    requires rows == []
    ensures PlaceRows(g, y, rows) == []
  {}

  // ---------- cells that grow downward ----------

  // No cell of the row starts in a column of the set.
  predicate RowClear(g: Grid, growing: set<nat>, y: nat, x: nat, cells: seq<Cell>)
    decreases |cells|
  {
    cells == [] ||
    var k := Skip(g.slots, g.width, y, x);
    k !in growing && RowClear(Put(g, y, k, AsRead(cells[0])), growing, y, k + Columns(cells[0]), cells[1..])
  }

  // The columns that the row's cells of rowSpan 0 add.
  function RowGrows(g: Grid, y: nat, x: nat, cells: seq<Cell>): set<nat>
    decreases |cells|
  {
    if cells == [] then {}
    else
      var k := Skip(g.slots, g.width, y, x);
      (if cells[0].rowSpan == 0 then Span(k, Columns(cells[0])) else {})
      + RowGrows(Put(g, y, k, AsRead(cells[0])), y, k + Columns(cells[0]), cells[1..])
  }

  // No header cell starts below a cell of rowSpan 0.
  predicate Clear(g: Grid, growing: set<nat>, y: nat, rows: seq<seq<Cell>>)
    decreases |rows|
  {
    rows == [] ||
    (RowClear(g, growing, y, 0, rows[0])
     && Clear(PlaceCells(g, y, 0, Read(rows[0])).1, growing + RowGrows(g, y, 0, rows[0]), y + 1, rows[1..]))
  }

  // The Standard's grid h and the code's grid g, inside row y: they differ in the grown columns of that row.
  ghost predicate Beside(h: Grid, g: Grid, growing: set<nat>, y: nat) {
    && Within(h) && Within(g) && g.growing == {}
    && (forall r: nat, c: nat :: r > y ==> ((r, c) in h.slots <==> (r, c) in g.slots))
    && (forall c: nat :: (y, c) in h.slots <==> (y, c) in g.slots || c in growing)
  }

  lemma SpanIs(x: nat, w: nat)
    ensures forall c :: c in Span(x, w) <==> x <= c < x + w
  {}

  lemma CellBeside(h: Grid, g: Grid, growing: set<nat>, y: nat, k: nat, cell: Cell)
    requires Beside(h, g, growing, y)
    ensures Beside(Put(h, y, k, cell), Put(g, y, k, AsRead(cell)), growing, y)
  {}

  // In a row the two agree just when no cell starts in a grown column.
  lemma {:induction false} RowAgrees(h: Grid, g: Grid, growing: set<nat>, y: nat, x: nat, cells: seq<Cell>)
    requires Beside(h, g, growing, y)
    ensures RowClear(g, growing, y, x, cells) <==> PlaceCells(h, y, x, cells).0 == PlaceCells(g, y, x, Read(cells)).0
    ensures RowClear(g, growing, y, x, cells) ==>
      && Beside(PlaceCells(h, y, x, cells).1, PlaceCells(g, y, x, Read(cells)).1, growing, y)
      && PlaceCells(h, y, x, cells).1.growing == h.growing + RowGrows(g, y, x, cells)
    decreases |cells|
  {
    hide PlaceCells, Put, Beside, Skip;
    if cells == [] {
      NoCells(h, y, x);
      NoCells(g, y, x);
      assert Read(cells) == [];
    } else {
      var k, k' := Skip(g.slots, g.width, y, x), Skip(h.slots, h.width, y, x);
      var all := Read(cells);
      assert all[1..] == Read(cells[1..]) && all[0] == AsRead(cells[0]);
      NextCell(h, y, x, cells);
      NextCell(g, y, x, all);
      FreeInBoth(h, g, growing, y, x);
      if k !in growing {
        CellBeside(h, g, growing, y, k, cells[0]);
        PutGrows(h, y, k, cells[0]);
        RowAgrees(Put(h, y, k, cells[0]), Put(g, y, k, all[0]), growing, y, k + Columns(cells[0]), cells[1..]);
        var s, t := PlaceCells(h, y, x, cells).0, PlaceCells(g, y, x, all).0;
        assert s[1..] == PlaceCells(Put(h, y, k, cells[0]), y, k + Columns(cells[0]), cells[1..]).0;
        assert t[1..] == PlaceCells(Put(g, y, k, all[0]), y, k + Columns(cells[0]), all[1..]).0;
      } else {
        assert PlaceCells(h, y, x, cells).0[0] == k' && PlaceCells(g, y, x, all).0[0] == k;
      }
    }
  }

  lemma PutGrows(g: Grid, y: nat, k: nat, cell: Cell)
    ensures Put(g, y, k, cell).growing == g.growing + (if cell.rowSpan == 0 then Span(k, Columns(cell)) else {})
  {}

  lemma FreeInBoth(h: Grid, g: Grid, growing: set<nat>, y: nat, x: nat)
    requires Beside(h, g, growing, y)
    ensures var k := Skip(g.slots, g.width, y, x); k !in growing <==> Skip(h.slots, h.width, y, x) == k
  {}

  // Before a row: the grids hold the same slots from that row on.
  ghost predicate Together(h: Grid, g: Grid, y: nat) {
    && Within(h) && Within(g) && g.growing == {} && (forall c :: c in h.growing ==> c < h.width)
    && (forall r: nat, c: nat :: r >= y ==> ((r, c) in h.slots <==> (r, c) in g.slots))
  }

  lemma GrowBeside(h: Grid, g: Grid, y: nat)
    requires Together(h, g, y)
    ensures Beside(Grow(h, y), g, h.growing, y)
  {}

  lemma BesideTogether(h: Grid, g: Grid, growing: set<nat>, y: nat)
    requires Beside(h, g, growing, y) && forall c :: c in h.growing ==> c < h.width
    ensures Together(h, g, y + 1)
  {}

  // The row step: where the row agrees, the grids are together again before the next one.
  lemma RowStep(h: Grid, g: Grid, y: nat, cells: seq<Cell>)
    requires Together(h, g, y)
    ensures var (starts, next) := PlaceCells(Grow(h, y), y, 0, cells);
      var (starts', next') := PlaceCells(g, y, 0, Read(cells));
      && (RowClear(g, h.growing, y, 0, cells) <==> starts == starts')
      && (RowClear(g, h.growing, y, 0, cells) ==>
            Together(next, next', y + 1) && next.growing == h.growing + RowGrows(g, y, 0, cells))
  {
    hide PlaceCells, RowClear, RowGrows, Beside, Within;
    GrowBeside(h, g, y);
    RowAgrees(Grow(h, y), g, h.growing, y, 0, cells);
    if RowClear(g, h.growing, y, 0, cells) {
      GrowingWithin(Grow(h, y), y, 0, cells);
      BesideTogether(PlaceCells(Grow(h, y), y, 0, cells).1, PlaceCells(g, y, 0, Read(cells)).1, h.growing, y);
    }
  }

  lemma NextRows(g: Grid, y: nat, rows: seq<seq<Cell>>)
    requires rows != []
    ensures var (starts, next) := PlaceCells(Grow(g, y), y, 0, rows[0]);
      PlaceRows(g, y, rows) == [starts] + PlaceRows(next, y + 1, rows[1..])
  {}

  lemma ReadTail(rows: seq<seq<Cell>>)
    requires rows != []
    ensures ReadAll(rows)[0] == Read(rows[0]) && ReadAll(rows)[1..] == ReadAll(rows[1..])
  {}

  lemma ClearStep(g: Grid, growing: set<nat>, y: nat, rows: seq<seq<Cell>>)
    requires rows != []
    ensures Clear(g, growing, y, rows) <==>
      RowClear(g, growing, y, 0, rows[0])
      && Clear(PlaceCells(g, y, 0, Read(rows[0])).1, growing + RowGrows(g, y, 0, rows[0]), y + 1, rows[1..])
  {}

  lemma ConsEqual<T>(a: T, s: seq<T>, b: T, t: seq<T>)
    ensures [a] + s == [b] + t <==> a == b && s == t
  {
    assert ([a] + s)[0] == a && ([b] + t)[0] == b && ([a] + s)[1..] == s && ([b] + t)[1..] == t;
  }

  lemma {:induction false} RowsAgree(h: Grid, g: Grid, y: nat, rows: seq<seq<Cell>>)
    requires Together(h, g, y)
    ensures Clear(g, h.growing, y, rows) <==> PlaceRows(h, y, rows) == PlaceRows(g, y, ReadAll(rows))
    decreases |rows|
  {
    if rows != [] {
      hide Together, Clear, RowClear, RowGrows, PlaceCells, PlaceRows, Read, ReadAll, Grow;
      NotGrowing(h, g, y);
      var (starts, next) := PlaceCells(Grow(h, y), y, 0, rows[0]);
      var (starts', next') := PlaceCells(g, y, 0, Read(rows[0]));
      ReadTail(rows);
      NextRows(h, y, rows);
      NextRows(g, y, ReadAll(rows));
      ClearStep(g, h.growing, y, rows);
      RowStep(h, g, y, rows[0]);
      ConsEqual(starts, PlaceRows(next, y + 1, rows[1..]), starts', PlaceRows(next', y + 1, ReadAll(rows[1..])));
      if starts == starts' {
        RowsAgree(next, next', y + 1, rows[1..]);
      }
    }
  }

  lemma NotGrowing(h: Grid, g: Grid, y: nat)
    requires Together(h, g, y)
    ensures Grow(g, y) == g
  {}

  lemma {:induction false} GrowingWithin(g: Grid, y: nat, x: nat, cells: seq<Cell>)
    requires forall c :: c in g.growing ==> c < g.width
    ensures var last := PlaceCells(g, y, x, cells).1; forall c :: c in last.growing ==> c < last.width
    decreases |cells|
  {
    if cells == [] {
      NoCells(g, y, x);
    } else {
      var k := Skip(g.slots, g.width, y, x);
      NextCell(g, y, x, cells);
      SpanIs(k, Columns(cells[0]));
      GrowingWithin(Put(g, y, k, cells[0]), y, k + Columns(cells[0]), cells[1..]);
    }
  }

  // The code agrees with the Standard exactly when no header cell starts below a cell of rowSpan 0.
  lemma AgreesExactly(rows: seq<seq<Cell>>)
    ensures HtmlStarts(ReadAll(rows)) == HtmlStarts(rows) <==> Clear(Grid({}, 0, {}), {}, 0, rows)
  {
    RowsAgree(Grid({}, 0, {}), Grid({}, 0, {}), 0, rows);
  }

  // No cell of the row has rowSpan 0.
  predicate Bounded(cells: seq<Cell>) {
    forall j :: 0 <= j < |cells| ==> cells[j].rowSpan != 0
  }

  lemma {:induction false} BoundedRow(g: Grid, y: nat, x: nat, cells: seq<Cell>)
    ensures RowClear(g, {}, y, x, cells)
    ensures Bounded(cells) ==> RowGrows(g, y, x, cells) == {}
    decreases |cells|
  {
    if cells != [] {
      var k := Skip(g.slots, g.width, y, x);
      BoundedRow(Put(g, y, k, AsRead(cells[0])), y, k + Columns(cells[0]), cells[1..]);
    }
  }

  lemma {:induction false} BoundedRows(g: Grid, y: nat, rows: seq<seq<Cell>>)
    requires forall i :: 0 <= i < |rows| - 1 ==> Bounded(rows[i])
    ensures Clear(g, {}, y, rows)
    decreases |rows|
  {
    if rows != [] {
      hide PlaceCells, RowClear, RowGrows, Clear;
      ClearStep(g, {}, y, rows);
      BoundedRow(g, y, 0, rows[0]);
      assert {} + RowGrows(g, y, 0, rows[0]) == RowGrows(g, y, 0, rows[0]);
      if |rows| == 1 {
        ClearNone(PlaceCells(g, y, 0, Read(rows[0])).1, {} + RowGrows(g, y, 0, rows[0]), y + 1, rows[1..]);
      } else {
        BoundedRows(PlaceCells(g, y, 0, Read(rows[0])).1, y + 1, rows[1..]);
      }
    }
  }

  lemma ClearNone(g: Grid, growing: set<nat>, y: nat, rows: seq<seq<Cell>>)
    requires rows == []
    ensures Clear(g, growing, y, rows)
  {}

  // So it does whenever rowSpan 0 stands in the last header row only, or nowhere.
  lemma AgreesOnBounded(rows: seq<seq<Cell>>)
    requires forall i :: 0 <= i < |rows| - 1 ==> Bounded(rows[i])
    ensures HtmlStarts(ReadAll(rows)) == HtmlStarts(rows)
  {
    hide Clear, HtmlStarts, ReadAll;
    BoundedRows(Grid({}, 0, {}), 0, rows);
    AgreesExactly(rows);
  }

  // A header where it does not: the Standard moves the lower cell to column 1, the code leaves it in column 0.
  lemma RowSpanZeroDiffers()
    ensures var rows := [[Cell(0, 1)], [Cell(1, 1)]];
      HtmlStarts(rows) != HtmlStarts(ReadAll(rows))
  {
    hide PlaceCells;
    var a, b := Cell(0, 1), Cell(1, 1);
    var rows := [[a], [b]];
    var empty := Grid({}, 0, {});
    var g := Put(empty, 0, 0, b);
    assert AsRead(a) == b && Read([a]) == [b];
    NextCell(empty, 0, 0, [b]);
    assert [b][1..] == [];
    NoCells(g, 0, 1);
    assert PlaceCells(empty, 0, 0, [b]).1 == g;
    assert Span(0, 1) == {0};
    assert RowGrows(Put(empty, 0, 0, b), 0, 1, []) == {};
    assert [a][1..] == [];
    assert RowGrows(empty, 0, 0, [a]) == {0};
    assert g.slots == {(0, 0)};
    assert !RowClear(g, {0}, 1, 0, [b]);
    assert rows[1..] == [[b]];
    assert {} + {0} == {0};
    assert !Clear(g, {0}, 1, [[b]]);
    AgreesExactly(rows);
  }
}
