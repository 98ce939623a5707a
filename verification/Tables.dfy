/** A table as its statements see it: its slots and the contents of its indexes, and how the two agree. */
module Tables {
  import opened Storage
  import opened EntryList
  import opened HeapModel
  import opened HeapFiles
  import opened Records
  import opened Statements

  // ---------- Finding slots ----------

  lemma {:induction false} FindMarked(items: seq<Item>, p: RowPointer, live: bool, q: RowPointer)
    ensures FindItem(Marked(items, p, live), q) ==
      if q == p && FindItem(items, p).Some? then Some(FindItem(items, p).value.(live := live)) else FindItem(items, q)
  {
    if items != [] {
      assert Marked(items, p, live)[1..] == Marked(items[1..], p, live);
      FindMarked(items[1..], p, live, q);
    }
  }

  lemma MarkedSame(items: seq<Item>, p: RowPointer)
    requires DistinctPointers(items) && FindItem(items, p).Some?
    ensures Marked(items, p, FindItem(items, p).value.live) == items
  {
    forall i | 0 <= i < |items| && items[i].pointer == p ensures items[i].live == FindItem(items, p).value.live {
      FindItemIs(items, i);
    }
  }

  lemma MarkedTwice(items: seq<Item>, p: RowPointer, a: bool, b: bool)
    ensures Marked(Marked(items, p, a), p, b) == Marked(items, p, b)
  {
  }

  // ---------- Agreement of an index with its table ----------

  /** Pointer `p` names a live row with key `k` in column `c`. */
  predicate Carries(items: seq<Item>, c: nat, k: int, p: RowPointer) {
    match FindItem(items, p)
    case None => false
    case Some(item) => item.live && c < |item.row| && item.row[c] == IntValue(k)
  }

  /** The list of each key holds exactly the live pointers with that key, each once. */
  ghost predicate IndexAgrees(items: seq<Item>, c: nat, m: map<int, seq<RowPointer>>) {
    forall k, p :: multiset(Lookup(m, k))[p] == if Carries(items, c, k, p) then 1 else 0
  }

  lemma LookupAdded(m: map<int, seq<RowPointer>>, k: int, p: RowPointer, k': int)
    ensures multiset(Lookup(Added(m, k, p), k')) == multiset(Lookup(m, k')) + (if k' == k then multiset{p} else multiset{})
  {
  }

  lemma LookupRemovedIs(m: map<int, seq<RowPointer>>, k: int, p: RowPointer, k': int)
    ensures multiset(Lookup(Removed(m, k, p), k')) == multiset(Lookup(m, k')) - (if k' == k then multiset{p} else multiset{})
  {
    if k' == k {
      RemoveFirstOne(Lookup(m, k), p);
    }
  }

  /** From `a` to `b` the row under `p` became visible, and nothing else changed. */
  ghost predicate Gains(a: seq<Item>, b: seq<Item>, p: RowPointer, row: Row) {
    forall c: nat, k, q ::
      && (Carries(b, c, k, q) <==> if q == p then c < |row| && row[c] == IntValue(k) else Carries(a, c, k, q))
      && !Carries(a, c, k, p)
  }

  /** From `a` to `b` the row under `p` disappeared, if it was visible, and nothing else changed. */
  ghost predicate Loses(a: seq<Item>, b: seq<Item>, p: RowPointer, row: Row) {
    forall c: nat, k, q ::
      && (Carries(b, c, k, q) <==> q != p && Carries(a, c, k, q))
      && (Carries(a, c, k, p) ==> c < |row| && row[c] == IntValue(k))
  }

  lemma InsertGains(a: seq<Item>, b: seq<Item>, p: RowPointer, row: Row)
    requires ItemAdded(a, b, Item(p, row, true)) && DistinctPointers(b)
    ensures Gains(a, b, p, row)
  {
    AddedFinds(a, b, Item(p, row, true));
  }

  lemma RestoreGains(items: seq<Item>, p: RowPointer, row: Row)
    requires FindItem(items, p) == Some(Item(p, row, false))
    ensures Gains(items, Marked(items, p, true), p, row)
  {
    forall c: nat, k, q ensures Carries(Marked(items, p, true), c, k, q) <==>
      if q == p then c < |row| && row[c] == IntValue(k) else Carries(items, c, k, q)
    {
      FindMarked(items, p, true, q);
    }
  }

  lemma DeleteLoses(items: seq<Item>, p: RowPointer, row: Row)
    requires FindItem(items, p).Some? && FindItem(items, p).value.row == row
    ensures Loses(items, Marked(items, p, false), p, row)
  {
    forall c: nat, k, q ensures Carries(Marked(items, p, false), c, k, q) <==> q != p && Carries(items, c, k, q) {
      FindMarked(items, p, false, q);
    }
  }

  /** A row appears, and its pointer is added to the list of its key. */
  lemma GainAgrees(a: seq<Item>, b: seq<Item>, c: nat, m: map<int, seq<RowPointer>>, p: RowPointer, row: Row, k: int)
    requires IndexAgrees(a, c, m) && Gains(a, b, p, row) && c < |row| && row[c] == IntValue(k)
    ensures IndexAgrees(b, c, Added(m, k, p))
  {
    hide Carries, Added, Lookup;
    forall k', q ensures multiset(Lookup(Added(m, k, p), k'))[q] == if Carries(b, c, k', q) then 1 else 0 {
      LookupAdded(m, k, p, k');
      assert multiset(Lookup(m, k'))[q] == if Carries(a, c, k', q) then 1 else 0;
    }
  }

  /** Restoring a row and adding its pointer to an index is right exactly when the row was deleted: for a live row the
      pointer would be listed twice, so the index part of undo must not be repeated. */
  lemma RestoreAgreesIff(items: seq<Item>, c: nat, m: map<int, seq<RowPointer>>, item: Item, k: int)
    requires IndexAgrees(items, c, m) && FindItem(items, item.pointer) == Some(item) && c < |item.row| && item.row[c] == IntValue(k)
    ensures IndexAgrees(Marked(items, item.pointer, true), c, Added(m, k, item.pointer)) <==> !item.live
  {
    var p := item.pointer;
    if item.live {
      LookupAdded(m, k, p, k);
      assert Carries(items, c, k, p);
      assert multiset(Lookup(m, k))[p] == 1;
      assert multiset(Lookup(Added(m, k, p), k))[p] == 2;
    } else {
      RestoreGains(items, p, item.row);
      GainAgrees(items, Marked(items, p, true), c, m, p, item.row, k);
    }
  }

  /** A row disappears, if it was there, and its pointer is removed from the list of its key. */
  lemma LossAgrees(a: seq<Item>, b: seq<Item>, c: nat, m: map<int, seq<RowPointer>>, p: RowPointer, row: Row, k: int)
    requires IndexAgrees(a, c, m) && Loses(a, b, p, row) && c < |row| && row[c] == IntValue(k)
    ensures IndexAgrees(b, c, Removed(m, k, p))
  {
    hide Carries, Removed, Lookup;
    forall k', q ensures multiset(Lookup(Removed(m, k, p), k'))[q] == if Carries(b, c, k', q) then 1 else 0 {
      LookupRemovedIs(m, k, p, k');
      assert multiset(Lookup(m, k'))[q] == if Carries(a, c, k', q) then 1 else 0;
    }
  }

  /** Inserting a row that is dead from the start changes no index. */
  lemma DeadAgrees(items: seq<Item>, items': seq<Item>, c: nat, m: map<int, seq<RowPointer>>, item: Item)
    requires IndexAgrees(items, c, m) && ItemAdded(items, items', item) && DistinctPointers(items') && !item.live
    ensures IndexAgrees(items', c, m)
  {
    AddedFinds(items, items', item);
    forall k, q ensures Carries(items', c, k, q) == Carries(items, c, k, q) {
    }
  }

  // ---------- Building an index ----------

  /** Every row has an integer in column `c`. */
  ghost predicate Keyed(items: seq<Item>, c: nat) {
    forall i :: 0 <= i < |items| ==> c < |items[i].row| && items[i].row[c].IntValue?
  }

  ghost predicate KeyedRows(rows: seq<(RowPointer, Row)>, c: nat) {
    forall i :: 0 <= i < |rows| ==> c < |rows[i].1| && rows[i].1[c].IntValue?
  }

  /** The map that the rows give when their pointers are added one by one. */
  ghost function Built(rows: seq<(RowPointer, Row)>, c: nat): map<int, seq<RowPointer>>
    requires KeyedRows(rows, c)
  {
    if rows == [] then map[]
    else
      var n := |rows| - 1;
      Added(Built(rows[..n], c), rows[n].1[c].n, rows[n].0)
  }

  lemma {:induction false} LiveRowsKeyed(items: seq<Item>, c: nat)
    requires Keyed(items, c)
    ensures KeyedRows(LiveRows(items), c)
  {
    if items != [] {
      LiveRowsKeyed(items[..|items| - 1], c);
    }
  }

  /** An index built from a scan agrees with the table. */
  lemma {:induction false} BuiltAgrees(items: seq<Item>, c: nat)
    requires Keyed(items, c) && DistinctPointers(items)
    ensures KeyedRows(LiveRows(items), c) && IndexAgrees(items, c, Built(LiveRows(items), c))
    decreases |items|
  {
    LiveRowsKeyed(items, c);
    if items != [] {
      var n := |items| - 1;
      var a, x := items[..n], items[n];
      assert Keyed(a, c) && DistinctPointers(a) && c < |x.row| && x.row[c].IntValue?;
      BuiltAgrees(a, c);
      LastAdded(items);
      BuiltLast(items, c);
      hide *;
      if x.live {
        InsertGains(a, items, x.pointer, x.row);
        GainAgrees(a, items, c, Built(LiveRows(a), c), x.pointer, x.row, x.row[c].n);
      } else {
        DeadAgrees(a, items, c, Built(LiveRows(a), c), x);
      }
    }
  }

  lemma LastAdded(items: seq<Item>)
    requires items != []
    ensures ItemAdded(items[..|items| - 1], items, items[|items| - 1])
    ensures items[|items| - 1] == Item(items[|items| - 1].pointer, items[|items| - 1].row, items[|items| - 1].live)
  {
    var n := |items| - 1;
    assert items == InsertItem(items[..n], n, items[n]);
  }

  /** What the last slot contributes to an index. */
  lemma BuiltLast(items: seq<Item>, c: nat)
    requires items != [] && Keyed(items, c)
    ensures var n := |items| - 1; var x := items[n];
      && KeyedRows(LiveRows(items), c) && KeyedRows(LiveRows(items[..n]), c) && c < |x.row| && x.row[c].IntValue?
      && Built(LiveRows(items), c) ==
         if x.live then Added(Built(LiveRows(items[..n]), c), x.row[c].n, x.pointer) else Built(LiveRows(items[..n]), c)
  {
    var n := |items| - 1;
    LiveRowsKeyed(items, c);
    LiveRowsKeyed(items[..n], c);
    if items[n].live {
      assert LiveRows(items)[..|LiveRows(items)| - 1] == LiveRows(items[..n]);
    } else {
      assert LiveRows(items) == LiveRows(items[..n]);
    }
  }

  // ---------- Reading through an index ----------

  /** The row that a pointer names. */
  ghost function RowAt(items: seq<Item>, p: RowPointer): Row {
    match FindItem(items, p)
    case None => []
    case Some(item) => item.row
  }

  /** The rows that the pointers name. */
  ghost function RowsAt(items: seq<Item>, ps: seq<RowPointer>): (rows: seq<Row>)
    ensures |rows| == |ps| && forall i :: 0 <= i < |ps| ==> rows[i] == RowAt(items, ps[i])
  {
    seq(|ps|, i requires 0 <= i < |ps| => RowAt(items, ps[i]))
  }

  function PointersOf(rows: seq<(RowPointer, Row)>): (ps: seq<RowPointer>)
    ensures |ps| == |rows| && forall i :: 0 <= i < |rows| ==> ps[i] == rows[i].0
  {
    seq(|rows|, i requires 0 <= i < |rows| => rows[i].0)
  }

  lemma RowsAtAround(items: seq<Item>, x: seq<RowPointer>, p: RowPointer, y: seq<RowPointer>)
    ensures multiset(RowsAt(items, x + [p] + y)) == multiset(RowsAt(items, x + y)) + multiset{RowAt(items, p)}
  {
    hide RowAt;
    var rx, r, ry := RowsAt(items, x), RowAt(items, p), RowsAt(items, y);
    assert RowsAt(items, x + [p] + y) == rx + [r] + ry;
    assert RowsAt(items, x + y) == rx + ry;
  }

  /** Reordering a list of pointers reorders the rows. */
  lemma {:induction false} SamePointersSameRows(items: seq<Item>, ps: seq<RowPointer>, qs: seq<RowPointer>)
    requires multiset(ps) == multiset(qs)
    ensures multiset(RowsAt(items, ps)) == multiset(RowsAt(items, qs))
    decreases |ps|
  {
    hide RowAt, RowsAt;
    if ps == [] {
      assert |multiset(qs)| == 0;
      assert qs == [];
    } else {
      var n := |ps| - 1;
      var p := ps[n];
      var j := Occurrence(ps, qs, n);
      var x, y := qs[..j], qs[j + 1..];
      assert ps == ps[..n] + [p] + [] && qs == x + [p] + y;
      RowsAtAround(items, ps[..n], p, []);
      RowsAtAround(items, x, p, y);
      assert ps[..n] + [] == ps[..n];
      WithoutOne(ps[..n], x, p, y);
      SamePointersSameRows(items, ps[..n], x + y);
    }
  }

  lemma Occurrence(ps: seq<RowPointer>, qs: seq<RowPointer>, n: nat) returns (j: nat)
    requires n < |ps| && multiset(ps) == multiset(qs)
    ensures j < |qs| && qs[j] == ps[n]
  {
    assert ps[n] in multiset(ps);
    j :| 0 <= j < |qs| && qs[j] == ps[n];
  }

  lemma WithoutOne(a: seq<RowPointer>, x: seq<RowPointer>, p: RowPointer, y: seq<RowPointer>)
    requires multiset(a + [p] + []) == multiset(x + [p] + y)
    ensures multiset(a) == multiset(x + y)
  {
    assert multiset(a + [p] + []) == multiset(a) + multiset{p};
    assert multiset(x + [p] + y) == multiset(x + y) + multiset{p};
    assert multiset(a) == multiset(a) + multiset{p} - multiset{p};
    assert multiset(x + y) == multiset(x + y) + multiset{p} - multiset{p};
  }

  // ---------- Live rows and the slots they come from ----------

  lemma {:induction false} LiveRowFound(items: seq<Item>, i: nat)
    requires DistinctPointers(items) && i < |LiveRows(items)|
    ensures var (p, row) := LiveRows(items)[i]; FindItem(items, p) == Some(Item(p, row, true))
    decreases |items|
  {
    if items != [] {
      var n := |items| - 1;
      var a, x := items[..n], items[n];
      assert items == InsertItem(a, n, x) && ItemAdded(a, items, x);
      AddedFinds(a, items, x);
      if i < |LiveRows(a)| {
        LiveRowFound(a, i);
      }
    }
  }

  lemma {:induction false} LiveRowsDistinct(items: seq<Item>, i: nat, j: nat)
    requires DistinctPointers(items) && i < j < |LiveRows(items)|
    ensures LiveRows(items)[i].0 != LiveRows(items)[j].0
    decreases |items|
  {
    if items != [] {
      var n := |items| - 1;
      var a, x := items[..n], items[n];
      if j < |LiveRows(a)| {
        LiveRowsDistinct(a, i, j);
      } else {
        LiveRowFound(a, i);
        var k :| 0 <= k < n && a[k] == FindItem(a, LiveRows(a)[i].0).value;
        assert items[k].pointer != x.pointer;
      }
    }
  }

  // ---------- An indexed query ----------

  ghost predicate AllMatch(schema: Schema, items: seq<Item>) {
    forall i :: 0 <= i < |items| ==> RowMatches(schema, items[i].row)
  }

  lemma {:induction false} LiveRowsMatch(schema: Schema, items: seq<Item>)
    requires AllMatch(schema, items)
    ensures forall i :: 0 <= i < |LiveRows(items)| ==> RowMatches(schema, LiveRows(items)[i].1)
  {
    if items != [] {
      LiveRowsMatch(schema, items[..|items| - 1]);
    }
  }

  /** The answer of a full scan. */
  ghost function Answer(schema: Schema, items: seq<Item>, filter: Option<Where>): seq<(RowPointer, Row)>
    requires AllMatch(schema, items)
  {
    LiveRowsMatch(schema, items);
    Filtered(schema, LiveRows(items), filter)
  }

  /** `p` names a live row that satisfies the condition. */
  ghost predicate Selected(schema: Schema, items: seq<Item>, filter: Option<Where>, p: RowPointer)
    requires AllMatch(schema, items)
  {
    match FindItem(items, p)
    case None => false
    case Some(item) => item.live && MatchesWhere(schema, item.row, filter) == Holds(true)
  }

  ghost predicate Qualifies(schema: Schema, item: Item, filter: Option<Where>)
    requires RowMatches(schema, item.row)
  {
    item.live && MatchesWhere(schema, item.row, filter) == Holds(true)
  }

  lemma AnswerStep(schema: Schema, a: seq<Item>, x: Item, filter: Option<Where>)
    requires AllMatch(schema, a + [x]) && AllMatch(schema, a) && RowMatches(schema, x.row)
    ensures Answer(schema, a + [x], filter) == Answer(schema, a, filter) + if Qualifies(schema, x, filter) then [(x.pointer, x.row)] else []
  {
    hide RowMatches, MatchesWhere;
    var items := a + [x];
    assert items[..|a|] == a;
    LiveRowsMatch(schema, items);
    LiveRowsMatch(schema, a);
    var rows, rows' := LiveRows(a), LiveRows(items);
    if x.live {
      assert rows'[..|rows'| - 1] == rows && rows'[|rows'| - 1] == (x.pointer, x.row);
    } else {
      assert rows' == rows;
    }
  }

  lemma SelectedStep(schema: Schema, a: seq<Item>, x: Item, filter: Option<Where>, p: RowPointer)
    requires AllMatch(schema, a + [x]) && AllMatch(schema, a) && RowMatches(schema, x.row) && DistinctPointers(a + [x])
    ensures Selected(schema, a + [x], filter, p) <==>
      if p == x.pointer then Qualifies(schema, x, filter) else Selected(schema, a, filter, p)
    ensures !Selected(schema, a, filter, x.pointer)
  {
    hide RowMatches, MatchesWhere;
    assert a + [x] == InsertItem(a, |a|, x);
    assert ItemAdded(a, a + [x], x);
    AddedFinds(a, a + [x], x);
  }

  /** A scan answers with every selected row exactly once. */
  lemma {:induction false} AnswerOnce(schema: Schema, items: seq<Item>, filter: Option<Where>, p: RowPointer)
    requires AllMatch(schema, items) && DistinctPointers(items)
    ensures multiset(PointersOf(Answer(schema, items, filter)))[p] == if Selected(schema, items, filter, p) then 1 else 0
    decreases |items|
  {
    if items == [] {
      AnswerEmpty(schema, filter);
    } else {
      var n := |items| - 1;
      var a, x := items[..n], items[n];
      assert items == a + [x];
      assert AllMatch(schema, a) && DistinctPointers(a) && RowMatches(schema, x.row);
      AnswerOnce(schema, a, filter, p);
      hide *;
      AnswerStep(schema, a, x, filter);
      SelectedStep(schema, a, x, filter, p);
      var r, more := Answer(schema, a, filter), if Qualifies(schema, x, filter) then [(x.pointer, x.row)] else [];
      PointersOfConcat(r, more);
    }
  }

  lemma AnswerEmpty(schema: Schema, filter: Option<Where>)
    ensures Answer(schema, [], filter) == []
  {
  }

  lemma PointersOfConcat(a: seq<(RowPointer, Row)>, b: seq<(RowPointer, Row)>)
    ensures PointersOf(a + b) == PointersOf(a) + PointersOf(b)
  {
  }

  /** The rows of the answer are those its pointers name. */
  lemma {:induction false} AnswerRows(schema: Schema, items: seq<Item>, filter: Option<Where>)
    requires AllMatch(schema, items) && DistinctPointers(items)
    ensures RowsOf(Answer(schema, items, filter)) == RowsAt(items, PointersOf(Answer(schema, items, filter)))
  {
    var r := Answer(schema, items, filter);
    forall i | 0 <= i < |r| ensures r[i].1 == RowAt(items, r[i].0) {
      AnswerFrom(schema, items, filter, i);
    }
  }

  lemma {:induction false} AnswerFrom(schema: Schema, items: seq<Item>, filter: Option<Where>, i: nat)
    requires AllMatch(schema, items) && i < |Answer(schema, items, filter)| && DistinctPointers(items)
    ensures var (p, row) := Answer(schema, items, filter)[i]; FindItem(items, p) == Some(Item(p, row, true))
    decreases |items|
  {
    if items == [] {
      AnswerEmpty(schema, filter);
    } else {
      var n := |items| - 1;
      var a, x := items[..n], items[n];
      assert items == a + [x];
      assert AllMatch(schema, a) && DistinctPointers(a) && RowMatches(schema, x.row);
      AnswerStep(schema, a, x, filter);
      assert a + [x] == InsertItem(a, |a|, x);
      assert ItemAdded(a, a + [x], x);
      AddedFinds(a, a + [x], x);
      if i < |Answer(schema, a, filter)| {
        AnswerFrom(schema, a, filter, i);
      }
    }
  }

  /** Reading the pointers of one key through an index gives the rows that the scan selects, in some order. */
  lemma IndexedAnswer(schema: Schema, items: seq<Item>, c: nat, m: map<int, seq<RowPointer>>, w: Where)
    requires AllMatch(schema, items) && DistinctPointers(items) && IndexAgrees(items, c, m)
    requires ColumnIndex(schema, w.column) == Some(c) && w.op == EQ && w.value.IntValue?
    ensures multiset(RowsAt(items, Lookup(m, w.value.n))) == multiset(RowsOf(Answer(schema, items, Some(w))))
  {
    var ps, qs := Lookup(m, w.value.n), PointersOf(Answer(schema, items, Some(w)));
    forall p ensures multiset(ps)[p] == multiset(qs)[p] {
      AnswerOnce(schema, items, Some(w), p);
      CarriesSelected(schema, items, c, w, p);
    }
    assert multiset(ps) == multiset(qs);
    SamePointersSameRows(items, ps, qs);
    AnswerRows(schema, items, Some(w));
  }

  lemma CarriesSelected(schema: Schema, items: seq<Item>, c: nat, w: Where, p: RowPointer)
    requires AllMatch(schema, items)
    requires ColumnIndex(schema, w.column) == Some(c) && w.op == EQ && w.value.IntValue?
    ensures Carries(items, c, w.value.n, p) <==> Selected(schema, items, Some(w), p)
  {
    if FindItem(items, p).Some? {
      var i :| 0 <= i < |items| && items[i] == FindItem(items, p).value;
      assert RowMatches(schema, items[i].row);
    }
  }
}
