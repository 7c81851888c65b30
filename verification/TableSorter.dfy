/** The row cache of the table sorter, sorted in place over any number of clicks. */
module TableSorter {
  import opened SortOrder

  // A body row: whether it is a child row, and its formatted cells. Rows are known by their index.
  datatype Row = Row(child: bool, keys: seq<Key>)

  // ---------- buildCache ----------

  // cache.row: each row that is not a child, with the children that follow it.
  function Groups(rows: seq<Row>): (g: seq<seq<nat>>)
    requires rows == [] || !rows[0].child
    ensures rows != [] ==> |g| > 0
    ensures forall i :: 0 <= i < |g| ==> |g[i]| > 0
    ensures rows != [] ==> var last := g[|g| - 1]; last[|last| - 1] == |rows| - 1
  {
    if rows == [] then []
    else
      var n := |rows| - 1;
      var g := Groups(rows[..n]);
      if rows[n].child then WithChild(g, n) else g + [[n]]
  }

  // The row joins the last group.
  function WithChild(g: seq<seq<nat>>, n: nat): (h: seq<seq<nat>>)
    requires g != []
    ensures |h| == |g| && h[|g| - 1] == g[|g| - 1] + [n] && forall i :: 0 <= i < |g| - 1 ==> h[i] == g[i]
  {
    g[..|g| - 1] + [g[|g| - 1] + [n]]
  }

  // cache.normalized as it is first built.
  function Entries(rows: seq<Row>): (e: seq<Entry>)
  {
    if rows == [] then []
    else
      var n := |rows| - 1;
      var e := Entries(rows[..n]);
      if rows[n].child then e else e + [Entry(rows[n].keys, |e|)]
  }

  lemma {:induction false} CacheShape(rows: seq<Row>)
    requires rows == [] || !rows[0].child
    ensures |Groups(rows)| == |Entries(rows)|
    ensures forall i :: 0 <= i < |Entries(rows)| ==> Entries(rows)[i].pos == i
  {
    if rows != [] {
      CacheShape(rows[..|rows| - 1]);
    }
  }

  lemma CacheStep(rows: seq<Row>, i: nat)
    requires i < |rows| && !rows[0].child
    ensures var g, e := Groups(rows[..i]), Entries(rows[..i]);
      if rows[i].child then
        g != [] && Groups(rows[..i + 1]) == WithChild(g, i) && Entries(rows[..i + 1]) == e
      else
        Groups(rows[..i + 1]) == g + [[i]] && Entries(rows[..i + 1]) == e + [Entry(rows[i].keys, |e|)]
  {
    hide WithChild;
    assert rows[..i + 1][..i] == rows[..i];
  }

  // The keys of an entry are those of its group's parent row.
  lemma {:induction false} EntryKeys(rows: seq<Row>, i: nat)
    requires (rows == [] || !rows[0].child) && i < |Entries(rows)|
    ensures |Groups(rows)| == |Entries(rows)| && Groups(rows)[i][0] < |rows|
    ensures Entries(rows)[i].keys == rows[Groups(rows)[i][0]].keys
  {
    CacheShape(rows);
    if rows != [] {
      var n := |rows| - 1;
      CacheShape(rows[..n]);
      if i < |Entries(rows[..n])| {
        EntryKeys(rows[..n], i);
      }
    }
  }

  method BuildCache(rows: seq<Row>) returns (row: seq<seq<nat>>, normalized: seq<Entry>)
    requires rows == [] || !rows[0].child
    ensures row == Groups(rows) && normalized == Entries(rows)
  {
    row, normalized := [], [];
    assert Groups([]) == [] && Entries([]) == [];
    hide Groups, Entries, WithChild;
    assert rows[..0] == [];
    for i := 0 to |rows|
      invariant row == Groups(rows[..i]) && normalized == Entries(rows[..i])
    {
      CacheStep(rows, i);
      if rows[i].child {
        row := WithChild(row, i);
      } else {
        row := row + [[i]];
        normalized := normalized + [Entry(rows[i].keys, |normalized|)];
      }
    }
    assert rows[..|rows|] == rows;
  }

  // ---------- the sort ----------

  ghost predicate Sorted(sortList: seq<SortSpec>, es: seq<Entry>) {
    forall i, j :: 0 <= i < j < |es| ==> Before(sortList, es[i], es[j])
  }

  ghost predicate AllFit(es: seq<Entry>, kinds: seq<Kind>) {
    forall i :: 0 <= i < |es| ==> Fits(es[i], kinds)
  }

  ghost predicate Distinct(es: seq<Entry>) {
    forall i, j :: 0 <= i < j < |es| ==> es[i].pos != es[j].pos
  }

  lemma SameMembers<T>(s: seq<T>, t: seq<T>)
    requires multiset(s) == multiset(t)
    ensures |s| == |t| && forall x :: x in s <==> x in t
  {
    assert |multiset(s)| == |s| && |multiset(t)| == |t|;
    forall x
      ensures x in s <==> x in t
    {
      assert x in s <==> x in multiset(s);
      assert x in t <==> x in multiset(t);
    }
  }

  lemma TailMembers<T>(s: seq<T>, t: seq<T>)
    requires s != [] && t != [] && s[0] == t[0] && multiset(s) == multiset(t)
    ensures multiset(s[1..]) == multiset(t[1..])
  {
    assert s == [s[0]] + s[1..] && t == [t[0]] + t[1..];
    assert multiset(s[1..]) == multiset(s) - multiset{s[0]};
    assert multiset(t[1..]) == multiset(t) - multiset{t[0]};
  }

  lemma HeadsEqual(sortList: seq<SortSpec>, kinds: seq<Kind>, s: seq<Entry>, t: seq<Entry>)
    requires InRange(sortList, kinds) && AllFit(s, kinds) && s != [] && t != []
    requires multiset(s) == multiset(t) && Sorted(sortList, s) && Sorted(sortList, t)
    ensures s[0] == t[0]
  {
    hide Before;
    SameMembers(s, t);
    assert s[0] in t && t[0] in s;
    var i :| 0 <= i < |t| && t[i] == s[0];
    var j :| 0 <= j < |s| && s[j] == t[0];
    assert i > 0 ==> Before(sortList, t[0], t[i]);
    assert j > 0 ==> Before(sortList, s[0], s[j]);
    BeforeTotal(sortList, kinds, s[0], s[j]);
  }

  // Two sorted arrangements of the same rows are equal, whatever algorithm made them.
  lemma {:induction false} SortedUnique(sortList: seq<SortSpec>, kinds: seq<Kind>, s: seq<Entry>, t: seq<Entry>)
    requires InRange(sortList, kinds) && AllFit(s, kinds)
    requires multiset(s) == multiset(t) && Sorted(sortList, s) && Sorted(sortList, t)
    ensures s == t
  {
    hide Before, Fits;
    SameMembers(s, t);
    if s != [] {
      HeadsEqual(sortList, kinds, s, t);
      TailMembers(s, t);
      SortedUnique(sortList, kinds, s[1..], t[1..]);
      assert s == [s[0]] + s[1..] && t == [t[0]] + t[1..];
    }
  }

  // Where an entry belongs in a sorted arrangement.
  function Place(sortList: seq<SortSpec>, es: seq<Entry>, e: Entry): (k: nat)
    ensures k <= |es|
    ensures forall i :: 0 <= i < k ==> Before(sortList, es[i], e)
    ensures k < |es| ==> !Before(sortList, es[k], e)
  {
    if es == [] || !Before(sortList, es[0], e) then 0 else 1 + Place(sortList, es[1..], e)
  }

  lemma InsertKeepsSorted(sortList: seq<SortSpec>, kinds: seq<Kind>, es: seq<Entry>, e: Entry)
    requires InRange(sortList, kinds) && AllFit(es, kinds) && Fits(e, kinds)
    requires Sorted(sortList, es) && forall i :: 0 <= i < |es| ==> es[i].pos != e.pos
    ensures var k := Place(sortList, es, e); Sorted(sortList, es[..k] + [e] + es[k..])
  {
    hide Before, Fits;
    var k := Place(sortList, es, e);
    forall i | k <= i < |es|
      ensures Before(sortList, e, es[i])
    {
      BeforeTotal(sortList, kinds, e, es[k]);
      if i > k {
        BeforeTransitive(sortList, kinds, e, es[k], es[i]);
      }
    }
  }

  // The first place where the compiled comparator no longer says "before".
  method FindPlace(sortList: seq<SortSpec>, kinds: seq<Kind>, es: seq<Entry>, e: Entry) returns (k: nat)
    requires InRange(sortList, kinds) && AllFit(es, kinds) && Fits(e, kinds)
    ensures k == Place(sortList, es, e)
  {
    hide Before, Fits, Run, Negative, Compile;
    k := 0;
    while k < |es| && Negative(Run(Compile(sortList, kinds), es[k], e))
      invariant k <= |es| && Place(sortList, es, e) == k + Place(sortList, es[k..], e)
    {
      CompiledDecides(sortList, kinds, es[k], e);
      assert es[k..][1..] == es[k + 1..];
      k := k + 1;
    }
    if k < |es| {
      CompiledDecides(sortList, kinds, es[k], e);
    }
  }

  lemma NewPosition(kinds: seq<Kind>, es: seq<Entry>, n: nat, out: seq<Entry>)
    requires n < |es| && Distinct(es) && AllFit(es, kinds) && multiset(out) == multiset(es[..n])
    ensures AllFit(out, kinds) && forall i :: 0 <= i < |out| ==> out[i].pos != es[n].pos
  {
    hide Fits;
    SameMembers(out, es[..n]);
    forall i | 0 <= i < |out|
      ensures out[i].pos != es[n].pos && Fits(out[i], kinds)
    {
      assert out[i] in es[..n];
    }
  }

  // Any comparison sort driven by the compiled comparator; SortedUnique says which one is immaterial.
  method SortEntries(sortList: seq<SortSpec>, kinds: seq<Kind>, es: seq<Entry>) returns (out: seq<Entry>)
    requires InRange(sortList, kinds) && AllFit(es, kinds) && Distinct(es)
    ensures multiset(out) == multiset(es) && Sorted(sortList, out)
  {
    hide Sorted, Fits, Place;
    out := [];
    SortedEmpty(sortList);
    for n := 0 to |es|
      invariant multiset(out) == multiset(es[..n]) && Sorted(sortList, out)
    {
      NewPosition(kinds, es, n, out);
      var k := FindPlace(sortList, kinds, out, es[n]);
      InsertKeepsSorted(sortList, kinds, out, es[n]);
      InsertMembers(out, k, es[n]);
      assert es[..n + 1] == es[..n] + [es[n]];
      out := out[..k] + [es[n]] + out[k..];
    }
    assert es[..|es|] == es;
  }

  lemma SortedEmpty(sortList: seq<SortSpec>)
    ensures Sorted(sortList, [])
  {}

  lemma InsertMembers<T>(s: seq<T>, k: nat, x: T)
    requires k <= |s|
    ensures multiset(s[..k] + [x] + s[k..]) == multiset(s) + multiset{x}
  {
    assert s == s[..k] + s[k..];
  }

  // ---------- appendToTable ----------

  // The rows in the order in which appendToTable appends them.
  function Laid(groups: seq<seq<nat>>, es: seq<Entry>): seq<nat>
    requires forall i :: 0 <= i < |es| ==> es[i].pos < |groups|
  {
    if es == [] then [] else Laid(groups, es[..|es| - 1]) + groups[es[|es| - 1].pos]
  }

  function Without(list: seq<nat>, gone: seq<nat>): seq<nat> {
    if list == [] then []
    else if list[0] in gone then Without(list[1..], gone)
    else [list[0]] + Without(list[1..], gone)
  }

  // appendChild moves a node that is already in the body to its end.
  function AppendChild(body: seq<nat>, x: nat): seq<nat> {
    Without(body, [x]) + [x]
  }

  lemma {:induction false} WithoutAppend(a: seq<nat>, b: seq<nat>, gone: seq<nat>)
    ensures Without(a + b, gone) == Without(a, gone) + Without(b, gone)
  {
    if a == [] {
      assert a + b == b;
    } else {
      assert (a + b)[1..] == a[1..] + b;
      WithoutAppend(a[1..], b, gone);
    }
  }

  lemma {:induction false} WithoutTwice(a: seq<nat>, p: seq<nat>, x: nat)
    ensures Without(Without(a, p), [x]) == Without(a, p + [x])
  {
    if a != [] {
      WithoutTwice(a[1..], p, x);
      if a[0] !in p {
        assert ([a[0]] + Without(a[1..], p))[1..] == Without(a[1..], p);
      }
    }
  }

  lemma {:induction false} WithoutStranger(p: seq<nat>, x: nat)
    requires x !in p
    ensures Without(p, [x]) == p
  {
    if p != [] {
      assert p[0] in p;
      WithoutStranger(p[1..], x);
    }
  }

  lemma {:induction false} WithoutAll(a: seq<nat>, gone: seq<nat>)
    requires forall x :: x in a ==> x in gone
    ensures Without(a, gone) == []
  {
    if a != [] {
      assert a[0] in a;
      WithoutAll(a[1..], gone);
    }
  }

  lemma {:induction false} WithoutNone(a: seq<nat>)
    ensures Without(a, []) == a
  {
    if a != [] {
      WithoutNone(a[1..]);
    }
  }

  lemma AppendStep(start: seq<nat>, done: seq<nat>, x: nat)
    requires x !in done
    ensures AppendChild(Without(start, done) + done, x) == Without(start, done + [x]) + (done + [x])
  {
    WithoutAppend(Without(start, done), done, [x]);
    WithoutTwice(start, done, x);
    WithoutStranger(done, x);
  }

  ghost predicate NoDuplicates(s: seq<nat>) {
    forall i, j :: 0 <= i < j < |s| ==> s[i] != s[j]
  }

  lemma {:induction false} LaidPrefix(groups: seq<seq<nat>>, es: seq<Entry>, n: nat)
    requires n <= |es| && forall i :: 0 <= i < |es| ==> es[i].pos < |groups|
    ensures Laid(groups, es[..n]) <= Laid(groups, es)
  {
    if n < |es| {
      assert es[..|es| - 1][..n] == es[..n];
      LaidPrefix(groups, es[..|es| - 1], n);
    } else {
      assert es[..n] == es;
    }
  }

  // After appending every row once, the body is exactly the rows in that order.
  method AppendToTable(body: seq<nat>, groups: seq<seq<nat>>, es: seq<Entry>) returns (out: seq<nat>)
    requires forall i :: 0 <= i < |es| ==> es[i].pos < |groups|
    requires NoDuplicates(Laid(groups, es)) && forall x :: x in body ==> x in Laid(groups, es)
    ensures out == Laid(groups, es)
  {
    hide Without;
    out := body;
    ghost var all, done := Laid(groups, es), [];
    WithoutNone(body);
    for i := 0 to |es|
      invariant done == Laid(groups, es[..i]) && out == Without(body, done) + done
    {
      var group := groups[es[i].pos];
      ghost var before := done;
      assert es[..i + 1][..i] == es[..i];
      assert Laid(groups, es[..i + 1]) == before + group;
      LaidPrefix(groups, es, i + 1);
      for j := 0 to |group|
        invariant done == before + group[..j] && out == Without(body, done) + done
      {
        assert all[|done|] == (before + group)[|done|] == group[j];
        assert forall k :: 0 <= k < |done| ==> all[k] == done[k];
        AppendStep(body, done, group[j]);
        out := AppendChild(out, group[j]);
        done := done + [group[j]];
      }
      assert group[..|group|] == group;
    }
    assert es[..|es|] == es;
    WithoutAll(body, all);
  }

  // ---------- what a sort list displays ----------

  ghost predicate Placed(es: seq<Entry>, n: nat) {
    forall i :: 0 <= i < |es| ==> es[i].pos < n
  }

  lemma {:induction false} LaidSame(g: seq<seq<nat>>, h: seq<seq<nat>>, es: seq<Entry>)
    requires Placed(es, |g|) && Placed(es, |h|)
    requires forall i :: 0 <= i < |es| ==> g[es[i].pos] == h[es[i].pos]
    ensures Laid(g, es) == Laid(h, es)
  {
    if es != [] {
      LaidSame(g, h, es[..|es| - 1]);
    }
  }

  lemma LaidLast(g: seq<seq<nat>>, es: seq<Entry>, e: Entry)
    requires Placed(es, |g|) && e.pos < |g|
    ensures Placed(es + [e], |g|) && Laid(g, es + [e]) == Laid(g, es) + g[e.pos]
  {
    assert (es + [e])[..|es|] == es;
  }

  lemma Regroup<T>(a: seq<T>, b: seq<T>, x: T)
    ensures a + (b + [x]) == (a + b) + [x]
  {}

  lemma LaidStep(g: seq<seq<nat>>, a: seq<Entry>, b: seq<Entry>, e: Entry)
    requires Placed(a + b, |g|) && Placed(a, |g|) && Placed(b, |g|) && e.pos < |g|
    requires Laid(g, a + b) == Laid(g, a) + Laid(g, b)
    ensures Placed(a + (b + [e]), |g|) && Placed(b + [e], |g|)
    ensures Laid(g, a + (b + [e])) == Laid(g, a) + Laid(g, b + [e])
  {
    hide Laid;
    Regroup(a, b, e);
    LaidLast(g, a + b, e);
    LaidLast(g, b, e);
    assert Laid(g, a) + Laid(g, b) + g[e.pos] == Laid(g, a) + (Laid(g, b) + g[e.pos]);
  }

  lemma {:induction false} LaidAppend(g: seq<seq<nat>>, a: seq<Entry>, b: seq<Entry>)
    requires Placed(a, |g|) && Placed(b, |g|)
    ensures Placed(a + b, |g|) && Laid(g, a + b) == Laid(g, a) + Laid(g, b)
  {
    if b == [] {
      assert a + b == a;
    } else {
      var init, e := b[..|b| - 1], b[|b| - 1];
      assert b == init + [e];
      LaidAppend(g, a, init);
      LaidStep(g, a, init, e);
    }
  }

  // Taking one entry out takes its group out.
  lemma LaidBetween(g: seq<seq<nat>>, a: seq<Entry>, e: Entry, b: seq<Entry>)
    requires Placed(a, |g|) && Placed(b, |g|) && e.pos < |g|
    ensures Placed(a + b, |g|) && Placed(a + ([e] + b), |g|)
    ensures multiset(Laid(g, a + ([e] + b))) == multiset(Laid(g, a + b)) + multiset(g[e.pos])
  {
    hide Laid;
    LaidAppend(g, [e], b);
    LaidAppend(g, a, [e] + b);
    LaidAppend(g, a, b);
    LaidOne(g, e);
  }

  lemma LaidOne(g: seq<seq<nat>>, e: Entry)
    requires e.pos < |g|
    ensures Laid(g, [e]) == g[e.pos]
  {}

  lemma WithoutOne<T>(a: seq<T>, x: T, b: seq<T>)
    ensures multiset(a + b) == multiset(a + ([x] + b)) - multiset{x}
  {
    var m := multiset(a) + multiset(b);
    assert multiset(a + b) == m;
    assert multiset(a + ([x] + b)) == multiset(a) + multiset([x] + b);
    assert multiset([x] + b) == multiset{x} + multiset(b);
    assert multiset(a + ([x] + b)) == m + multiset{x};
  }

  lemma RemoveBoth<T>(s: seq<T>, t: seq<T>, i: nat)
    requires s != [] && i < |t| && t[i] == s[|s| - 1] && multiset(s) == multiset(t)
    ensures multiset(s[..|s| - 1]) == multiset(t[..i] + t[i + 1..])
  {
    var x, init := t[i], s[..|s| - 1];
    SplitAt(s, |s| - 1);
    SplitAt(t, i);
    WithoutOne(init, x, s[|s|..]);
    WithoutOne(t[..i], x, t[i + 1..]);
    assert init + s[|s|..] == init;
  }

  // Rearranging the entries rearranges the rows.
  lemma {:induction false} LaidPermutes(g: seq<seq<nat>>, s: seq<Entry>, t: seq<Entry>)
    requires multiset(s) == multiset(t) && Placed(s, |g|) && Placed(t, |g|)
    ensures multiset(Laid(g, s)) == multiset(Laid(g, t))
  {
    SameMembers(s, t);
    if s != [] {
      hide Laid;
      var init, e := s[..|s| - 1], s[|s| - 1];
      assert s == init + [e] && e in t;
      var i :| 0 <= i < |t| && t[i] == e;
      RemoveBoth(s, t, i);
      SplitAt(t, i);
      LaidLast(g, init, e);
      LaidBetween(g, t[..i], e, t[i + 1..]);
      LaidPermutes(g, init, t[..i] + t[i + 1..]);
    }
  }

  lemma SplitAt<T>(t: seq<T>, i: nat)
    requires i < |t|
    ensures t == t[..i] + ([t[i]] + t[i + 1..])
  {}

  function Upto(n: nat): (s: seq<nat>)
    ensures |s| == n && forall i :: 0 <= i < n ==> s[i] == i
  {
    seq(n, i => i)
  }

  // A new parent row: a new group and a new entry.
  lemma LaidParent(g: seq<seq<nat>>, e: seq<Entry>, n: nat, last: Entry)
    requires Placed(e, |g|) && last.pos == |g|
    ensures Laid(g + [[n]], e + [last]) == Laid(g, e) + [n]
  {
    var h := g + [[n]];
    hide Laid;
    LaidSame(g, h, e);
    LaidAppend(h, e, [last]);
    LaidOne(h, last);
  }

  // A new child row: the last group grows, and its entry is the last one.
  lemma LaidChild(g: seq<seq<nat>>, e: seq<Entry>, n: nat)
    requires g != [] && |e| == |g| && forall i :: 0 <= i < |e| ==> e[i].pos == i
    ensures Laid(WithChild(g, n), e) == Laid(g, e) + [n]
  {
    var k := |g| - 1;
    var h := WithChild(g, n);
    hide Laid;
    assert e == e[..k] + [e[k]];
    LaidSame(g, h, e[..k]);
    LaidAppend(g, e[..k], [e[k]]);
    LaidAppend(h, e[..k], [e[k]]);
    LaidOne(g, e[k]);
    LaidOne(h, e[k]);
  }

  lemma LaidNone()
    ensures Laid([], []) == []
  {}

  // Before any sort the cache lays the rows out as they were.
  lemma {:induction false} LaidAtFirst(rows: seq<Row>)
    requires rows == [] || !rows[0].child
    ensures Placed(Entries(rows), |Groups(rows)|) && Laid(Groups(rows), Entries(rows)) == Upto(|rows|)
  {
    hide Laid;
    CacheShape(rows);
    if rows == [] {
      LaidNone();
    } else {
      var n := |rows| - 1;
      var g, e := Groups(rows[..n]), Entries(rows[..n]);
      LaidAtFirst(rows[..n]);
      CacheShape(rows[..n]);
      assert Upto(n + 1) == Upto(n) + [n];
      if rows[n].child {
        LaidChild(g, e, n);
      } else {
        LaidParent(g, e, n, Entry(rows[n].keys, |e|));
      }
    }
  }

  // One more row makes the last group longer or starts a new one.
  lemma GroupGrows(rows: seq<Row>, i: nat)
    requires rows != [] && !rows[0].child && i < |Groups(rows)|
    ensures var n := |rows| - 1;
      var g, h := Groups(rows[..n]), Groups(rows);
      && (n == 0 ==> g == [])
      && if i == |g| then h[i] == [n] && !rows[n].child
         else if i == |g| - 1 && rows[n].child then h[i] == g[i] + [n]
         else i < |g| && h[i] == g[i]
  {}

  // A group is a row that is no child, and then the rows after it, which are children.
  lemma {:induction false} GroupIsRun(rows: seq<Row>, i: nat, j: nat)
    requires rows != [] && !rows[0].child
    requires i < |Groups(rows)| && j < |Groups(rows)[i]|
    ensures var g := Groups(rows)[i]; g[j] == g[0] + j < |rows| && (rows[g[j]].child <==> j > 0)
    decreases |rows|
  {
    hide Groups;
    GroupGrows(rows, i);
    var n := |rows| - 1;
    var g := Groups(rows[..n]);
    if i < |g| {
      GroupIsRun(rows[..n], i, 0);
      GroupIsRun(rows[..n], i, if j < |g[i]| then j else |g[i]| - 1);
    }
  }

  // The next group starts right behind the last row of a group.
  lemma {:induction false} GroupsAdjoin(rows: seq<Row>, i: nat)
    requires rows != [] && !rows[0].child
    requires i + 1 < |Groups(rows)|
    ensures var g := Groups(rows); g[i + 1][0] == g[i][|g[i]| - 1] + 1
    decreases |rows|
  {
    hide Groups;
    GroupGrows(rows, i);
    GroupGrows(rows, i + 1);
    var n := |rows| - 1;
    var g, h := Groups(rows[..n]), Groups(rows);
    if i + 1 < |g| {
      GroupsAdjoin(rows[..n], i);
      assert h[i] == g[i] && h[i + 1][0] == g[i + 1][0];
    }
  }

  // The run takes in every child row that follows: the row behind it, if any, is no child.
  lemma GroupIsMaximal(rows: seq<Row>, i: nat)
    requires rows != [] && !rows[0].child && i < |Groups(rows)|
    ensures var g := Groups(rows)[i];
      var next := g[|g| - 1] + 1;
      next == |rows| || (next < |rows| && !rows[next].child)
  {
    hide Groups;
    if i + 1 < |Groups(rows)| {
      GroupsAdjoin(rows, i);
      GroupIsRun(rows, i + 1, 0);
    }
  }

  // The row shown at k is a row of the table and, if it is a child, its predecessor is shown just before it.
  ghost predicate InPlace(rows: seq<Row>, body: seq<nat>, k: nat)
    requires k < |body|
  {
    body[k] < |rows| && (rows[body[k]].child ==> k > 0 && body[k - 1] + 1 == body[k])
  }

  // However the entries are arranged, a child row stands right behind the row before it.
  lemma {:induction false} ChildFollows(rows: seq<Row>, es: seq<Entry>, k: nat)
    requires rows == [] || !rows[0].child
    requires Placed(es, |Groups(rows)|) && k < |Laid(Groups(rows), es)|
    ensures InPlace(rows, Laid(Groups(rows), es), k)
  {
    var groups := Groups(rows);
    var m := |es| - 1;
    var front := Laid(groups, es[..m]);
    if k < |front| {
      ChildFollows(rows, es[..m], k);
    } else {
      GroupIsRun(rows, es[m].pos, k - |front|);
      if k > |front| {
        GroupIsRun(rows, es[m].pos, k - |front| - 1);
      }
    }
  }

  // The arrangement of the original entries by a sort list, by inserting them one by one.
  function Arranged(sortList: seq<SortSpec>, es: seq<Entry>): seq<Entry> {
    if es == [] then []
    else
      var t := Arranged(sortList, es[..|es| - 1]);
      var k := Place(sortList, t, es[|es| - 1]);
      t[..k] + [es[|es| - 1]] + t[k..]
  }

  lemma {:induction false} ArrangedSorts(sortList: seq<SortSpec>, kinds: seq<Kind>, es: seq<Entry>)
    requires InRange(sortList, kinds) && AllFit(es, kinds) && Distinct(es)
    ensures multiset(Arranged(sortList, es)) == multiset(es) && Sorted(sortList, Arranged(sortList, es))
  {
    hide Before, Fits;
    if es != [] {
      var n := |es| - 1;
      var t := Arranged(sortList, es[..n]);
      ArrangedSorts(sortList, kinds, es[..n]);
      SameMembers(t, es[..n]);
      assert es == es[..n] + [es[n]];
      InsertMembers(t, Place(sortList, t, es[n]), es[n]);
      forall i | 0 <= i < |t|
        ensures t[i].pos != es[n].pos && Fits(t[i], kinds)
      {
        assert t[i] in es[..n];
      }
      InsertKeepsSorted(sortList, kinds, t, es[n]);
    }
  }

  // What the table shows under a sort list: a function of the original rows and the list alone.
  ghost function Display(rows: seq<Row>, sortList: seq<SortSpec>): seq<nat>
    requires rows == [] || !rows[0].child
    requires Placed(Arranged(sortList, Entries(rows)), |Groups(rows)|)
  {
    Laid(Groups(rows), Arranged(sortList, Entries(rows)))
  }

  ghost predicate RowsFit(rows: seq<Row>, kinds: seq<Kind>) {
    && rows != [] && !rows[0].child
    && forall i :: 0 <= i < |rows| && !rows[i].child ==> Fits(Entry(rows[i].keys, 0), kinds)
  }

  lemma {:induction false} EntriesFit(rows: seq<Row>, kinds: seq<Kind>)
    requires forall i :: 0 <= i < |rows| && !rows[i].child ==> Fits(Entry(rows[i].keys, 0), kinds)
    ensures AllFit(Entries(rows), kinds)
  {
    if rows != [] {
      EntriesFit(rows[..|rows| - 1], kinds);
      assert !rows[|rows| - 1].child ==> Fits(Entry(rows[|rows| - 1].keys, 0), kinds);
    }
  }

  // Any permutation of the cache, sorted or not, still lays out every row exactly once.
  lemma CachePermuted(rows: seq<Row>, kinds: seq<Kind>, es: seq<Entry>)
    requires RowsFit(rows, kinds) && multiset(es) == multiset(Entries(rows))
    ensures AllFit(es, kinds) && Distinct(es) && Placed(es, |Groups(rows)|)
    ensures multiset(Laid(Groups(rows), es)) == multiset(Upto(|rows|))
    ensures NoDuplicates(Laid(Groups(rows), es))
  {
    hide Fits, Laid, Groups, Entries;
    EntriesFit(rows, kinds);
    CacheShape(rows);
    SameMembers(es, Entries(rows));
    forall i | 0 <= i < |es|
      ensures Fits(es[i], kinds) && es[i].pos < |Groups(rows)|
    {
      assert es[i] in Entries(rows);
    }
    LaidAtFirst(rows);
    LaidPermutes(Groups(rows), es, Entries(rows));
    PermutationDistinct(Upto(|rows|), Laid(Groups(rows), es));
    EntriesDistinct(es, Entries(rows));
  }

  lemma PermutationDistinct(s: seq<nat>, t: seq<nat>)
    requires multiset(s) == multiset(t) && NoDuplicates(s)
    ensures NoDuplicates(t)
  {
    forall i, j | 0 <= i < j < |t|
      ensures t[i] != t[j]
    {
      TwiceCounts(t, i, j);
      OnceCounts(s, t[i]);
    }
  }

  lemma EntriesDistinct(t: seq<Entry>, s: seq<Entry>)
    requires multiset(s) == multiset(t) && forall i :: 0 <= i < |s| ==> s[i].pos == i
    ensures Distinct(t)
  {
    forall i, j | 0 <= i < j < |t|
      ensures t[i].pos != t[j].pos
    {
      SameMembers(s, t);
      assert t[i] in s && t[j] in s;
      TwiceCounts(t, i, j);
      OnceCounts(s, t[i]);
    }
  }

  lemma TwiceCounts<T>(t: seq<T>, i: nat, j: nat)
    requires i < j < |t|
    ensures t[i] == t[j] ==> multiset(t)[t[i]] >= 2
  {
    assert t == t[..i] + [t[i]] + t[i + 1..j] + [t[j]] + t[j + 1..];
  }

  lemma {:induction false} OnceCounts<T>(s: seq<T>, x: T)
    requires forall i, j :: 0 <= i < j < |s| ==> s[i] != s[j]
    ensures multiset(s)[x] <= 1
  {
    if s != [] {
      var n := |s| - 1;
      assert s == s[..n] + [s[n]];
      OnceCounts(s[..n], x);
      assert s[n] == x ==> x !in s[..n];
    }
  }

  // Sorting any permutation of the cache gives the arrangement of the original cache.
  lemma SortedIsArranged(rows: seq<Row>, kinds: seq<Kind>, sortList: seq<SortSpec>, es: seq<Entry>)
    requires RowsFit(rows, kinds) && InRange(sortList, kinds)
    requires multiset(es) == multiset(Entries(rows)) && Sorted(sortList, es)
    ensures es == Arranged(sortList, Entries(rows))
  {
    CachePermuted(rows, kinds, Entries(rows));
    CachePermuted(rows, kinds, es);
    ArrangedSorts(sortList, kinds, Entries(rows));
    SortedUnique(sortList, kinds, es, Arranged(sortList, Entries(rows)));
  }

  // What is displayed is a permutation of the rows, with every child behind the row before it.
  lemma DisplayKeepsRows(rows: seq<Row>, kinds: seq<Kind>, sortList: seq<SortSpec>)
    requires RowsFit(rows, kinds) && InRange(sortList, kinds)
    ensures Placed(Arranged(sortList, Entries(rows)), |Groups(rows)|)
    ensures var body := Display(rows, sortList);
      multiset(body) == multiset(Upto(|rows|)) && forall k :: 0 <= k < |body| ==> InPlace(rows, body, k)
  {
    hide Laid, Groups, Entries, Arranged, Fits, InPlace, Upto;
    CachePermuted(rows, kinds, Entries(rows));
    ArrangedSorts(sortList, kinds, Entries(rows));
    var es := Arranged(sortList, Entries(rows));
    CachePermuted(rows, kinds, es);
    forall k | 0 <= k < |Laid(Groups(rows), es)|
      ensures InPlace(rows, Laid(Groups(rows), es), k)
    {
      ChildFollows(rows, es, k);
    }
  }

  // ---------- clicks ----------

  // An entry [column, order] of a sort list. The lists share these objects: sortForce hands its own to sortList.
  class SortKey {
    const column: nat
    var order: nat

    constructor (column: nat, order: nat)
      ensures this.column == column && this.order == order
    {
      this.column, this.order := column, order;
    }
  }

  ghost function SpecsOf(keys: seq<SortKey>): (s: seq<SortSpec>)
    reads keys
    ensures |s| == |keys|
    ensures forall i :: 0 <= i < |keys| ==> s[i] == SortSpec(keys[i].column, keys[i].order)
  {
    if keys == [] then [] else SpecsOf(keys[..|keys| - 1]) + [SortSpec(keys[|keys| - 1].column, keys[|keys| - 1].order)]
  }

  ghost function Except(specs: seq<SortSpec>, column: nat): seq<SortSpec> {
    if specs == [] then []
    else
      var n := |specs| - 1;
      Except(specs[..n], column) + (if specs[n].column != column then [specs[n]] else [])
  }

  ghost function Toggled(specs: seq<SortSpec>, column: nat): (t: seq<SortSpec>) {
    seq(|specs|, i requires 0 <= i < |specs| =>
      if specs[i].column == column then SortSpec(column, (specs[i].order + 1) % 2) else specs[i])
  }

  ghost predicate NoneTwice(keys: seq<SortKey>) {
    forall i, j :: 0 <= i < j < |keys| ==> keys[i] != keys[j]
  }

  ghost predicate Mentions(specs: seq<SortSpec>, column: nat) {
    exists i :: 0 <= i < |specs| && specs[i].column == column
  }

  // The order of the last entry for the column.
  ghost function LastOrder(specs: seq<SortSpec>, column: nat): nat {
    if specs == [] then 0
    else if specs[|specs| - 1].column == column then specs[|specs| - 1].order
    else LastOrder(specs[..|specs| - 1], column)
  }

  // The counts of the headers after all entries for the column are reversed.
  ghost function Recounted(counts: seq<nat>, specs: seq<SortSpec>, column: nat): (c: seq<nat>)
    ensures |c| == |counts| && (!Mentions(specs, column) ==> c == counts)
  {
    if column < |counts| && Mentions(specs, column) then counts[column := LastOrder(specs, column) + 1] else counts
  }

  lemma RecountOne(counts: seq<nat>, specs: seq<SortSpec>, j: nat, column: nat)
    requires j < |specs|
    ensures Mentions(specs[..j + 1], column) <==> Mentions(specs[..j], column) || specs[j].column == column
    ensures column < |counts| ==>
      Recounted(counts, specs[..j + 1], column) ==
        if specs[j].column == column then Recounted(counts, specs[..j], column)[column := specs[j].order + 1]
        else Recounted(counts, specs[..j], column)
    ensures column >= |counts| ==> Recounted(counts, specs[..j + 1], column) == counts
  {
    hide Mentions, LastOrder;
    assert specs[..j + 1] == specs[..j] + [specs[j]];
    OneMoreOrder(specs[..j], specs[j], column);
  }

  lemma OneMoreOrder(specs: seq<SortSpec>, s: SortSpec, column: nat)
    ensures Mentions(specs + [s], column) <==> Mentions(specs, column) || s.column == column
    ensures LastOrder(specs + [s], column) == if s.column == column then s.order else LastOrder(specs, column)
  {
    var all := specs + [s];
    assert all[..|all| - 1] == specs && all[|specs|] == s;
    assert forall i :: 0 <= i < |specs| ==> all[i] == specs[i];
  }

  datatype Shown = AsBuilt | By(sortList: seq<SortSpec>)

  class Table {
    const rows: seq<Row>
    const kinds: seq<Kind>
    const columns: seq<nat>  // of each header cell
    const disabled: seq<bool>
    const locked: seq<nat>  // lockedOrder, 0 for none
    const sortForce: seq<SortKey>
    var counts: seq<nat>
    var sortList: seq<SortKey>
    var row: seq<seq<nat>>
    var normalized: seq<Entry>
    var displayed: seq<nat>
    ghost var shown: Shown  // by which list the body was last ordered

    ghost predicate Fixed() {
      RowsFit(rows, kinds) && |disabled| == |locked| == |columns| && NoneTwice(sortForce)
    }

    // Some enabled header stands over the column.
    predicate HasHeader(column: nat)
      requires |disabled| == |columns|
    {
      exists h :: 0 <= h < |columns| && columns[h] == column && !disabled[h]
    }

    // Every listed column has an enabled header and a parser.
    predicate Sortable(list: seq<SortSpec>)
      requires |disabled| == |columns|
    {
      forall i :: 0 <= i < |list| ==> HasHeader(list[i].column) && list[i].column < |kinds|
    }

    // The cache is a permutation of the original one, and the body is what the last list displays.
    ghost predicate Cached()
      reads `row, `normalized, `displayed, `shown
    {
      && Fixed()
      && row == Groups(rows)
      && multiset(normalized) == multiset(Entries(rows))
      && multiset(displayed) == multiset(Upto(|rows|))
      && match shown
         case AsBuilt => displayed == Upto(|rows|)
         case By(list) =>
           && Sortable(list)
           && Placed(Arranged(list, Entries(rows)), |Groups(rows)|)
           && displayed == Display(rows, list)
    }

    // Every entry of the list is a forced one or was made by a click.
    ghost predicate Listed()
      reads `counts, `sortList
    {
      && Fixed() && |counts| == |columns| && NoneTwice(sortList)
      && forall i :: 0 <= i < |sortList| ==> sortList[i] in sortForce || HasHeader(sortList[i].column)
    }

    ghost predicate Valid()
      reads `row, `normalized, `displayed, `shown, `counts, `sortList
    {
      Fixed() && Cached() && Listed()
    }

    ghost function Specs(): seq<SortSpec>
      reads this, sortList
    {
      SpecsOf(sortList)
    }

    // descending: whether sortInitialOrder is "desc", in any case.
    constructor (rows: seq<Row>, kinds: seq<Kind>, columns: seq<nat>, disabled: seq<bool>, locked: seq<nat>,
                 sortForce: seq<SortKey>, descending: bool)
      requires RowsFit(rows, kinds) && |disabled| == |locked| == |columns| && NoneTwice(sortForce)
      ensures Valid() && Specs() == [] && displayed == Upto(|rows|) && shown == AsBuilt
      ensures this.rows == rows && this.kinds == kinds && this.columns == columns && this.disabled == disabled
      ensures this.locked == locked && this.sortForce == sortForce && sortList == []
      ensures |counts| == |columns| && forall h :: 0 <= h < |counts| ==> counts[h] == if descending then 1 else 0
    {
      this.rows, this.kinds, this.columns, this.disabled := rows, kinds, columns, disabled;
      this.locked, this.sortForce := locked, sortForce;
      counts := seq(|columns|, _ => if descending then 1 else 0);
      sortList := [];
      var r, n := BuildCache(rows);
      row, normalized := r, n;
      displayed := Upto(|rows|);
      shown := AsBuilt;
    }

    // Every row is shown once, and every child right behind the row before it.
    lemma ShowsAll()
      requires Valid()
      ensures multiset(displayed) == multiset(Upto(|rows|))
      ensures forall k :: 0 <= k < |displayed| ==> InPlace(rows, displayed, k)
    {
      hide Laid, Groups, Entries, Arranged, Fits;
      if shown.By? {
        DisplayKeepsRows(rows, kinds, shown.sortList);
      }
    }

    // No list that throws was ever displayed.
    lemma ShownSortable()
      requires Valid()
      ensures shown.By? ==> Sortable(shown.sortList)
    {}

    method ReadList() returns (list: seq<SortSpec>)
      ensures list == Specs()
    {
      list := [];
      for i := 0 to |sortList|
        invariant list == SpecsOf(sortList[..i])
      {
        assert sortList[..i + 1][..i] == sortList[..i];
        list := list + [SortSpec(sortList[i].column, sortList[i].order)];
      }
      assert sortList[..|sortList|] == sortList;
    }

    // setHeadersCss: the classes are not modelled, but a column without an enabled header throws.
    method SetHeadersCss(list: seq<SortSpec>) returns (thrown: bool)
      requires |disabled| == |columns|
      ensures thrown <==> exists i :: 0 <= i < |list| && !HasHeader(list[i].column)
    {
      var h: set<nat> := {};
      for offset := 0 to |columns|
        invariant forall c: nat :: c in h <==> exists k :: 0 <= k < offset && columns[k] == c && !disabled[k]
      {
        if !disabled[offset] {
          h := h + {columns[offset]};
        }
      }
      for i := 0 to |list|
        invariant forall j :: 0 <= j < i ==> HasHeader(list[j].column)
      {
        if list[i].column !in h {
          return true;
        }
      }
      return false;
    }

    // multisort: a column without a parser throws while the comparator is written, before the sort.
    method Multisort(list: seq<SortSpec>) returns (thrown: bool)
      requires Fixed() && multiset(normalized) == multiset(Entries(rows))
      modifies this`normalized
      ensures thrown <==> !InRange(list, kinds)
      ensures thrown ==> normalized == old(normalized)
      ensures !thrown ==> normalized == Arranged(list, Entries(rows))
      ensures multiset(normalized) == multiset(Entries(rows))
    {
      hide Arranged, Laid, Groups, Entries, RowsFit, Sorted, Fits;
      for i := 0 to |list|
        invariant normalized == old(normalized)
        invariant forall j :: 0 <= j < i ==> list[j].column < |kinds|
      {
        if list[i].column >= |kinds| {
          return true;
        }
      }
      CachePermuted(rows, kinds, normalized);
      normalized := SortEntries(list, kinds, normalized);
      SortedIsArranged(rows, kinds, list, normalized);
      return false;
    }

    // The timer that a click leaves behind: setHeadersCss, multisort, appendToTable.
    method Resort() returns (thrown: bool)
      requires Valid()
      modifies this`normalized, this`displayed, this`shown
      ensures Valid()
      ensures thrown <==> !Sortable(Specs())
      ensures thrown ==> normalized == old(normalized) && displayed == old(displayed) && shown == old(shown)
      ensures !thrown ==> shown == By(Specs())
    {
      hide Arranged, Laid, Groups, Entries, Upto, RowsFit, Sorted, SpecsOf, Fits, HasHeader;
      var list := ReadList();
      thrown := SetHeadersCss(list);
      if thrown {
        return;
      }
      thrown := Multisort(list);
      if thrown {
        return;
      }
      CachePermuted(rows, kinds, normalized);
      SameMembers(displayed, Laid(row, normalized));
      displayed := AppendToTable(displayed, row, normalized);
      shown := By(list);
    }

    // The sort list starts again from the forced entries for other columns.
    method Flush(column: nat)
      requires NoneTwice(sortForce)
      modifies this`sortList
      ensures NoneTwice(sortList) && Specs() == Except(SpecsOf(sortForce), column)
      ensures forall k :: k in sortList ==> k in sortForce
    {
      hide Except, SpecsOf;
      sortList := [];
      NoneYet(column);
      assert sortForce[..0] == [];
      for j := 0 to |sortForce|
        invariant NoneTwice(sortList) && Specs() == Except(SpecsOf(sortForce[..j]), column)
        invariant forall k :: k in sortList ==> k in sortForce[..j]
      {
        assert sortForce[..j + 1] == sortForce[..j] + [sortForce[j]];
        Grow(sortForce[..j], sortForce[j]);
        ExceptGrow(SpecsOf(sortForce[..j]), SortSpec(sortForce[j].column, sortForce[j].order), column);
        if sortForce[j].column != column {
          Grow(sortList, sortForce[j]);
          NotYet(sortList, sortForce, j);
          sortList := sortList + [sortForce[j]];
        }
      }
      assert sortForce[..|sortForce|] == sortForce;
    }

    method Push(column: nat, order: nat)
      requires NoneTwice(sortList)
      modifies this`sortList
      ensures NoneTwice(sortList) && Specs() == old(Specs()) + [SortSpec(column, order)]
      ensures |sortList| == |old(sortList)| + 1 && sortList[..|old(sortList)|] == old(sortList)
      ensures fresh(sortList[|old(sortList)|]) && sortList[|old(sortList)|].column == column
    {
      var key := new SortKey(column, order);
      Grow(sortList, key);
      sortList := sortList + [key];
    }

    // Reverses every entry for the column; throws at the first one when there is no such entry of headerList.
    method Toggle(column: nat) returns (thrown: bool)
      requires NoneTwice(sortList) && |counts| == |columns|
      modifies this`counts, sortList
      ensures thrown <==> column >= |columns| && Mentions(old(Specs()), column)
      ensures Specs() == if thrown then old(Specs()) else Toggled(old(Specs()), column)
      ensures counts == if thrown then old(counts) else Recounted(old(counts), old(Specs()), column)
    {
      hide SpecsOf, LastOrder, Mentions, NoneTwice, Recounted, HalfToggled;
      ghost var specs := Specs();
      Untouched(column);
      for j := 0 to |sortList|
        invariant |counts| == |columns| && HalfToggled(specs, j, column)
        invariant Mentions(specs[..j], column) ==> column < |columns|
        invariant counts == Recounted(old(counts), specs[..j], column)
      {
        SameColumn(specs, j, column);
        RecountOne(old(counts), specs, j, column);
        if sortList[j].column == column {
          if column >= |columns| {
            NotToggled(specs, j, column);
            assert counts == old(counts);
            return true;
          }
          ToggleAt(j, column, specs);
        } else {
          StillHalf(specs, j, column);
        }
      }
      assert specs[..|sortList|] == specs;
      AllToggled(specs, column);
      return false;
    }

    // The count of the column's header is set from the entry, and the entry from the count.
    method ToggleAt(j: nat, column: nat, ghost specs: seq<SortSpec>)
      requires NoneTwice(sortList) && HalfToggled(specs, j, column) && j < |specs|
      requires specs[j].column == column < |counts|
      modifies this`counts, sortList
      ensures HalfToggled(specs, j + 1, column) && counts == old(counts)[column := specs[j].order + 1]
    {
      var s := sortList[j];
      counts := counts[column := s.order];
      counts := counts[column := counts[column] + 1];
      s.order := counts[column] % 2;
    }

    lemma Untouched(column: nat)
      ensures HalfToggled(Specs(), 0, column)
      ensures Specs()[..0] == [] && Recounted(counts, [], column) == counts && !Mentions([], column)
    {
      hide SpecsOf;
    }

    lemma SameColumn(specs: seq<SortSpec>, j: nat, column: nat)
      requires HalfToggled(specs, j, column) && j < |sortList|
      ensures |specs| == |sortList| && sortList[j].column == specs[j].column
    {}

    lemma StillHalf(specs: seq<SortSpec>, j: nat, column: nat)
      requires HalfToggled(specs, j, column) && j < |specs| && specs[j].column != column
      ensures HalfToggled(specs, j + 1, column)
    {}

    // The entries before j are reversed where they are for the column, and no others.
    ghost predicate HalfToggled(specs: seq<SortSpec>, j: nat, column: nat)
      reads this, sortList
    {
      && |specs| == |sortList|
      && (forall i :: 0 <= i < |sortList| ==> sortList[i].column == specs[i].column)
      && (forall i :: 0 <= i < |sortList| ==>
            sortList[i].order ==
              if i < j && specs[i].column == column then (specs[i].order + 1) % 2 else specs[i].order)
    }

    lemma AllToggled(specs: seq<SortSpec>, column: nat)
      requires HalfToggled(specs, |specs|, column)
      ensures Specs() == Toggled(specs, column)
    {
      hide SpecsOf;
    }

    lemma NotToggled(specs: seq<SortSpec>, j: nat, column: nat)
      requires HalfToggled(specs, j, column) && j < |specs| && specs[j].column == column
      requires !Mentions(specs[..j], column)
      ensures Specs() == specs && Mentions(specs, column)
    {
      hide SpecsOf;
      assert forall i :: 0 <= i < j ==> specs[..j][i].column != column;
    }

    // A click on header h, with or without the key for sorting by several columns.
    method Click(h: nat, multi: bool) returns (thrown: bool)
      requires Valid() && h < |columns|
      modifies this`counts, this`sortList, sortList
      ensures Valid()
      ensures forall k :: k in sortList ==> k in old(sortList) || k in sortForce || fresh(k)
      ensures var i := columns[h];
        var next := SortSpec(i, if locked[h] != 0 then locked[h] else old(counts)[h] % 2);
        var again := multi && Mentions(old(Specs()), i);
        && (thrown <==> !disabled[h] && again && i >= |columns|)
        && Specs() == (if disabled[h] || thrown then old(Specs())
                       else if !multi then Except(old(SpecsOf(sortForce)), i) + [next]
                       else if again then Toggled(old(Specs()), i)
                       else old(Specs()) + [next])
        && counts == (if disabled[h] then old(counts)
                      else var c := old(counts)[h := old(counts)[h] + 1];
                        if again && !thrown then Recounted(c, old(Specs()), i) else c)
    {
      hide Cached, RowsFit, SpecsOf, Recounted, Mentions, Except, Toggled;
      if disabled[h] {
        return false;
      }
      var i := columns[h];
      assert HasHeader(i);
      var order := counts[h] % 2;
      counts := counts[h := counts[h] + 1];
      if locked[h] != 0 {
        order := locked[h];
      }
      thrown := false;
      if !multi {
        Flush(i);
        Push(i, order);
      } else {
        var found := IsValueInArray(i);
        if found {
          thrown := Toggle(i);
        } else {
          Push(i, order);
        }
      }
    }

    method IsValueInArray(v: nat) returns (found: bool)
      ensures found == Mentions(Specs(), v)
    {
      hide SpecsOf;
      for i := 0 to |sortList|
        invariant forall j :: 0 <= j < i ==> sortList[j].column != v
      {
        if sortList[i].column == v {
          assert Specs()[i].column == v;
          return true;
        }
      }
      return false;
    }

    // Every forced column has an enabled header, and every enabled header a parser.
    predicate Covered()
      requires |disabled| == |columns|
    {
      && (forall k :: k in sortForce ==> HasHeader(k.column))
      && (forall h :: 0 <= h < |columns| && !disabled[h] ==> columns[h] < |kinds|)
    }

    // Then no list that clicks can make throws.
    lemma CoveredSorts()
      requires Valid() && Covered()
      ensures Sortable(Specs())
    {
      hide SpecsOf, Cached;
    }
  }

  datatype UserEvent = Press(h: nat, multi: bool) | Timer

  // After any clicks and timers, thrown or not, the body shows every row once, children behind their parents;
  // after a timer its order is the one the current list displays exactly when every listed column is sortable.
  method Session(table: Table, events: seq<UserEvent>)
    requires table.Valid()
    requires forall i :: 0 <= i < |events| && events[i].Press? ==> events[i].h < |table.columns|
    modifies table, table.sortList, table.sortForce
    ensures table.Valid()
    ensures multiset(table.displayed) == multiset(Upto(|table.rows|))
    ensures forall k :: 0 <= k < |table.displayed| ==> InPlace(table.rows, table.displayed, k)
    ensures events != [] && events[|events| - 1].Timer? ==>
      (table.shown == By(table.Specs()) <==> table.Sortable(table.Specs()))
    ensures events != [] && events[|events| - 1].Timer? && table.Covered() ==> table.shown == By(table.Specs())
  {
    hide Table.Cached, Table.Sortable, Table.Covered, InPlace, Upto;
    for i := 0 to |events|
      invariant table.Valid()
      invariant forall k :: k in table.sortList ==> k in old(table.sortList) || k in table.sortForce || fresh(k)
      invariant i > 0 && events[i - 1].Timer? ==>
        (table.shown == By(table.Specs()) <==> table.Sortable(table.Specs()))
    {
      match events[i]
      case Press(h, multi) =>
        assert forall j :: 0 <= j < |table.sortList| ==> table.sortList[j] in table.sortList;
        var thrown := table.Click(h, multi);
      case Timer =>
        table.ShownSortable();
        var thrown := table.Resort();
    }
    table.ShowsAll();
    if table.Covered() {
      table.CoveredSorts();
    }
  }

  // Where the promise fails: a forced column under a disabled header. The click is accepted, the timer throws,
  // and the body stays as built, whatever the rows.
  method ForcedColumnStops(rows: seq<Row>, kinds: seq<Kind>) returns (table: Table, clicked: bool, thrown: bool)
    requires RowsFit(rows, kinds) && |kinds| == 2
    ensures fresh(table) && table.Valid() && table.rows == rows
    ensures table.Specs() == [SortSpec(0, 0), SortSpec(1, 0)] && !clicked && thrown && table.displayed == Upto(|rows|)
  {
    hide SpecsOf, Except, Recounted, Toggled, RowsFit, Table.Valid, Mentions, Upto;
    var forced := new SortKey(0, 0);
    table := new Table(rows, kinds, [0, 1], [true, false], [0, 0], [forced], false);
    ForcedList(forced);
    clicked := table.Click(1, false);
    assert table.Specs() == [SortSpec(0, 0)] + [SortSpec(1, 0)];
    assert table.Specs()[0].column == 0 && !table.HasHeader(0);
    thrown := table.Resort();
  }

  // Two rows that stay where the list does not want them.
  method ForcedColumnMisplaces() returns (table: Table, clicked: bool, thrown: bool)
    ensures fresh(table) && table.Valid() && !clicked && thrown && table.displayed == [0, 1]
    ensures Placed(Arranged(table.Specs(), Entries(table.rows)), |Groups(table.rows)|)
    ensures Display(table.rows, table.Specs()) == [1, 0]
  {
    var rows := [Row(false, [Num(2.0), Null]), Row(false, [Num(1.0), Null])];
    assert RowsFit(rows, [Numeric, Numeric]);
    assert Upto(2) == [0, 1];
    hide *;
    table, clicked, thrown := ForcedColumnStops(rows, [Numeric, Numeric]);
    TwoArranged(rows);
  }

  // And a header cell over column 2 of two: the plain click is accepted, the extending click on it throws.
  method SpanningHeaderThrows(rows: seq<Row>, kinds: seq<Kind>) returns (table: Table, clicked: bool, thrown: bool)
    requires RowsFit(rows, kinds)
    ensures fresh(table) && table.Valid() && table.columns == [0, 2]
    ensures table.Specs() == [SortSpec(2, 0)] && !clicked && thrown && table.displayed == Upto(|rows|)
  {
    hide SpecsOf, Except, Recounted, Toggled, RowsFit, Table.Valid, Upto;
    table := new Table(rows, kinds, [0, 2], [false, false], [0, 0], [], false);
    NoneYet(2);
    clicked := table.Click(1, false);
    assert table.Specs() == [] + [SortSpec(2, 0)];
    assert table.Specs()[0].column == 2;
    assert forall j :: 0 <= j < |table.sortList| ==> table.sortList[j] in table.sortList;
    thrown := table.Click(1, true);
  }

  lemma ForcedList(forced: SortKey)
    requires forced.column == 0
    ensures Except(SpecsOf([forced]), 1) == [SortSpec(0, forced.order)]
  {
    var s := SpecsOf([forced]);
    assert s == [SortSpec(0, forced.order)] && s[..0] == [];
  }

  lemma {:induction false} TwoArranged(rows: seq<Row>)
    requires rows == [Row(false, [Num(2.0), Null]), Row(false, [Num(1.0), Null])]
    ensures var list := [SortSpec(0, 0), SortSpec(1, 0)];
      && Placed(Arranged(list, Entries(rows)), |Groups(rows)|)
      && Display(rows, list) == [1, 0] != Upto(2)
  {
    var list := [SortSpec(0, 0), SortSpec(1, 0)];
    var a, b := Entry([Num(2.0), Null], 0), Entry([Num(1.0), Null], 1);
    assert !SpecBefore(list[0], a, b) && SpecBefore(list[0], b, a);
    assert !Before(list, a, b);
    assert Upto(2)[0] == 0;
    TwoDisplayed(rows, list);
  }

  // Two rows change places exactly when the first does not come before the second.
  lemma {:induction false} TwoDisplayed(rows: seq<Row>, list: seq<SortSpec>)
    requires |rows| == 2 && !rows[0].child && !rows[1].child
    ensures Placed(Arranged(list, Entries(rows)), |Groups(rows)|)
    ensures Display(rows, list) ==
      if Before(list, Entry(rows[0].keys, 0), Entry(rows[1].keys, 1)) then [0, 1] else [1, 0]
  {
    hide Before, Arranged, Entries, Groups, Laid;
    var a, b := Entry(rows[0].keys, 0), Entry(rows[1].keys, 1);
    TwoEntries(rows);
    TwoGroups(rows);
    TwoOrdered(list, a, b);
    TwoLaid(a, b);
  }

  // Two rows of one text column: ascending shows the smaller text first, descending the larger, and equal texts
  // stay as they were.
  lemma {:induction false} TwoTexts(s: seq<Unit>, t: seq<Unit>, order: nat)
    ensures var rows := [Row(false, [Text(s)]), Row(false, [Text(t)])];
      && Placed(Arranged([SortSpec(0, order)], Entries(rows)), |Groups(rows)|)
      && Display(rows, [SortSpec(0, order)]) ==
           if (if order == 0 then TextBefore(t, s) else TextBefore(s, t)) then [1, 0] else [0, 1]
  {
    var rows, list := [Row(false, [Text(s)]), Row(false, [Text(t)])], [SortSpec(0, order)];
    var a, b := Entry(rows[0].keys, 0), Entry(rows[1].keys, 1);
    var up := order == 0;
    assert list[1..] == [];
    assert Before([], a, b);
    assert SpecBefore(list[0], a, b) <==> KeyBefore(Text(s), Text(t), up);
    assert SpecBefore(list[0], b, a) <==> KeyBefore(Text(t), Text(s), up);
    assert Before(list, a, b) <==> KeyBefore(Text(s), Text(t), up) || !KeyBefore(Text(t), Text(s), up);
    hide Before, SpecBefore, KeyBefore, TextBefore;
    KeyTotal(Text(s), Text(t), Textual, up);
    KeysInOrder(Text(s), Text(t), up);
    KeysInOrder(Text(t), Text(s), up);
    TwoDisplayed(rows, list);
  }

  lemma {:induction false} TwoGroups(rows: seq<Row>)
    requires |rows| == 2 && !rows[0].child && !rows[1].child
    ensures Groups(rows) == [[0], [1]]
  {
    assert rows[..1] == [rows[0]] && [rows[0]][..0] == [];
    assert Groups([rows[0]]) == [[0]];
  }

  lemma TwoLaid(a: Entry, b: Entry)
    requires a.pos == 0 && b.pos == 1
    ensures Laid([[0], [1]], [b, a]) == [1, 0] && Laid([[0], [1]], [a, b]) == [0, 1]
  {
    hide Laid;
    var g := [[0], [1]];
    LaidOne(g, b);
    LaidLast(g, [b], a);
    LaidOne(g, a);
    LaidLast(g, [a], b);
    assert [b] + [a] == [b, a] && [a] + [b] == [a, b];
  }

  lemma {:induction false} TwoEntries(rows: seq<Row>)
    requires |rows| == 2 && !rows[0].child && !rows[1].child
    ensures Entries(rows) == [Entry(rows[0].keys, 0), Entry(rows[1].keys, 1)]
  {
    assert rows[..1] == [rows[0]] && [rows[0]][..0] == [];
    assert Entries([rows[0]]) == [Entry(rows[0].keys, 0)];
  }

  lemma {:induction false} TwoOrdered(list: seq<SortSpec>, a: Entry, b: Entry)
    ensures Arranged(list, [a, b]) == if Before(list, a, b) then [a, b] else [b, a]
  {
    hide Before;
    assert [a, b][..1] == [a] && [a][..0] == [] && [a][1..] == [];
    assert Arranged(list, []) == [];
    assert Arranged(list, [a]) == [a];
    assert Place(list, [], b) == 0;
    assert Place(list, [a], b) == if Before(list, a, b) then 1 else 0;
  }

  // Reversing twice gives the list back, where every order is 0 or 1.
  lemma ToggledTwice(specs: seq<SortSpec>, column: nat)
    requires forall i :: 0 <= i < |specs| ==> specs[i].order <= 1
    ensures Toggled(Toggled(specs, column), column) == specs
    ensures forall i :: 0 <= i < |specs| && specs[i].column == column ==>
      Toggled(specs, column)[i].order == 1 - specs[i].order
  {}

  lemma NotYet(some: seq<SortKey>, all: seq<SortKey>, j: nat)
    requires j < |all| && forall k :: k in some ==> k in all[..j]
    requires forall i, j :: 0 <= i < j < |all| ==> all[i] != all[j]
    ensures all[j] !in some
  {}

  lemma NoneYet(column: nat)
    ensures SpecsOf([]) == [] && Except([], column) == []
  {}

  lemma ExceptGrow(specs: seq<SortSpec>, s: SortSpec, column: nat)
    ensures Except(specs + [s], column) == Except(specs, column) + (if s.column != column then [s] else [])
  {}

  lemma Grow(keys: seq<SortKey>, k: SortKey)
    ensures SpecsOf(keys + [k]) == SpecsOf(keys) + [SortSpec(k.column, k.order)]
  {}
}
