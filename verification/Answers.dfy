/** What queries and deletions do to the rows of a table, said of the values in the column that the condition names. */
module Answers {
  import opened Storage
  import opened HeapModel
  import opened HeapFiles
  import opened Records
  import opened Statements
  import opened Tables
  import opened Parts
  import opened Agreement

  /** Column `c` is the first of the name. */
  predicate Names(schema: Schema, c: nat, column: string) {
    c < |schema| && schema[c].name == column && forall i :: 0 <= i < c ==> schema[i].name != column
  }

  predicate Rising(at: seq<nat>) {
    forall i, j :: 0 <= i < j < |at| ==> at[i] < at[j]
  }

  /** The rows at some positions. */
  function Taken(rows: seq<(RowPointer, Row)>, at: seq<nat>): (r: seq<(RowPointer, Row)>)
    requires forall i :: 0 <= i < |at| ==> at[i] < |rows|
    ensures |r| == |at| && forall i :: 0 <= i < |at| ==> r[i] == rows[at[i]]
  {
    seq(|at|, i requires 0 <= i < |at| => rows[at[i]])
  }

  /** The comparison with the value in column `c` comes out as `b`. */
  predicate Comes(row: (RowPointer, Row), c: nat, op: Operator, value: Value, b: bool) {
    c < |row.1| && Compare(row.1[c], op, value) == Holds(b)
  }

  /** `at` lists in order the positions of the rows on which the comparison comes out as `b`. */
  ghost predicate Positions(rows: seq<(RowPointer, Row)>, c: nat, op: Operator, value: Value, b: bool, at: seq<nat>) {
    && Rising(at) && (forall i :: 0 <= i < |at| ==> at[i] < |rows|)
    && forall j: nat :: j < |rows| ==> (j in at <==> Comes(rows[j], c, op, value, b))
  }

  /** `some` are the rows on which the comparison comes out as `b`, in order. */
  ghost predicate Sifted(rows: seq<(RowPointer, Row)>, c: nat, op: Operator, value: Value, b: bool, some: seq<(RowPointer, Row)>) {
    exists at :: Positions(rows, c, op, value, b, at) && some == Taken(rows, at)
  }

  lemma PositionsGrow(rows: seq<(RowPointer, Row)>, c: nat, op: Operator, value: Value, b: bool, at: seq<nat>, row: (RowPointer, Row))
    requires Positions(rows, c, op, value, b, at)
    ensures var n: nat := |rows|; Positions(rows + [row], c, op, value, b, if Comes(row, c, op, value, b) then at + [n] else at)
  {
    hide Comes;
    var n: nat := |rows|;
    var at' := if Comes(row, c, op, value, b) then at + [n] else at;
    forall j: nat | j < |rows + [row]| ensures j in at' <==> Comes((rows + [row])[j], c, op, value, b) {
      if j < n {
        assert (rows + [row])[j] == rows[j];
      }
    }
  }

  lemma SiftedGrows(rows: seq<(RowPointer, Row)>, c: nat, op: Operator, value: Value, b: bool, some: seq<(RowPointer, Row)>,
                    row: (RowPointer, Row))
    requires Sifted(rows, c, op, value, b, some)
    ensures Sifted(rows + [row], c, op, value, b, some + if Comes(row, c, op, value, b) then [row] else [])
  {
    var at :| Positions(rows, c, op, value, b, at) && some == Taken(rows, at);
    AtGrows(rows, c, op, value, b, at, row);
  }

  lemma AtGrows(rows: seq<(RowPointer, Row)>, c: nat, op: Operator, value: Value, b: bool, at: seq<nat>, row: (RowPointer, Row))
    requires Positions(rows, c, op, value, b, at)
    ensures Sifted(rows + [row], c, op, value, b, Taken(rows, at) + if Comes(row, c, op, value, b) then [row] else [])
  {
    hide Comes, Rising, Taken;
    var n: nat := |rows|;
    PositionsGrow(rows, c, op, value, b, at, row);
    TakenGrows(rows, at, row);
    hide Positions;
    assert Taken(rows, at) + [] == Taken(rows, at);
  }

  lemma TakenGrows(rows: seq<(RowPointer, Row)>, at: seq<nat>, row: (RowPointer, Row))
    requires forall i :: 0 <= i < |at| ==> at[i] < |rows|
    ensures Taken(rows + [row], at) == Taken(rows, at)
    ensures var n: nat := |rows|; Taken(rows + [row], at + [n]) == Taken(rows, at) + [row]
  {
  }

  lemma {:induction false} FilteredSifts(schema: Schema, rows: seq<(RowPointer, Row)>, w: Where, c: nat)
    requires forall i :: 0 <= i < |rows| ==> RowMatches(schema, rows[i].1)
    requires Names(schema, c, w.column)
    ensures Sifted(rows, c, w.op, w.value, true, Filtered(schema, rows, Some(w)))
    decreases |rows|
  {
    if rows == [] {
      assert Positions(rows, c, w.op, w.value, true, []);
    } else {
      var n := |rows| - 1;
      assert rows == rows[..n] + [rows[n]];
      FilteredSifts(schema, rows[..n], w, c);
      SiftedGrows(rows[..n], c, w.op, w.value, true, Filtered(schema, rows[..n], Some(w)), rows[n]);
      MatchesWhereIs(schema, rows[n].1, w.column, w.op, w.value);
    }
  }

  lemma {:induction false} SurvivingSifts(schema: Schema, rows: seq<(RowPointer, Row)>, w: Where, c: nat)
    requires forall i :: 0 <= i < |rows| ==> RowMatches(schema, rows[i].1)
    requires Names(schema, c, w.column) && WhereFails(schema, Some(w)).None?
    ensures Sifted(rows, c, w.op, w.value, false, Surviving(schema, rows, Some(w)))
    decreases |rows|
  {
    if rows == [] {
      assert Positions(rows, c, w.op, w.value, false, []);
    } else {
      var n := |rows| - 1;
      assert rows == rows[..n] + [rows[n]];
      SurvivingSifts(schema, rows[..n], w, c);
      SiftedGrows(rows[..n], c, w.op, w.value, false, Surviving(schema, rows[..n], Some(w)), rows[n]);
      MatchesWhereIs(schema, rows[n].1, w.column, w.op, w.value);
      WhereFailsOnEveryRow(schema, rows[n].1, Some(w));
    }
  }

  lemma KeptAlways(schema: Schema, row: (RowPointer, Row))
    requires RowMatches(schema, row.1)
    ensures Kept(schema, row, None) == [row]
  {
  }

  lemma {:induction false} FilteredAll(schema: Schema, rows: seq<(RowPointer, Row)>)
    requires forall i :: 0 <= i < |rows| ==> RowMatches(schema, rows[i].1)
    ensures Filtered(schema, rows, None) == rows
    decreases |rows|
  {
    if rows != [] {
      var n := |rows| - 1;
      FilteredAll(schema, rows[..n]);
      KeptAlways(schema, rows[n]);
      hide Kept, RowMatches;
      assert rows == rows[..n] + [rows[n]];
    }
  }

  /** Without a condition the answer is every live row. */
  lemma WholeTable(schema: Schema, items: seq<Item>)
    requires AllMatch(schema, items)
    ensures Answer(schema, items, None) == LiveRows(items)
  {
    LiveRowsMatch(schema, items);
    FilteredAll(schema, LiveRows(items));
  }

  /** With a condition the answer is those live rows, in scan order, whose value in the named column compares; no row is
      in the answer if there is no such column. */
  lemma AnswerSifts(schema: Schema, items: seq<Item>, w: Where, c: nat)
    requires AllMatch(schema, items) && Names(schema, c, w.column)
    ensures Sifted(LiveRows(items), c, w.op, w.value, true, Answer(schema, items, Some(w)))
    ensures forall x :: x in Answer(schema, items, Some(w)) <==>
      x in LiveRows(items) && c < |x.1| && Compare(x.1[c], w.op, w.value) == Holds(true)
  {
    LiveRowsMatch(schema, items);
    var rows := LiveRows(items);
    FilteredSifts(schema, rows, w, c);
    SiftedRows(rows, c, w.op, w.value, true, Answer(schema, items, Some(w)));
  }

  lemma SiftedRows(rows: seq<(RowPointer, Row)>, c: nat, op: Operator, value: Value, b: bool, some: seq<(RowPointer, Row)>)
    requires Sifted(rows, c, op, value, b, some)
    ensures forall x :: x in some <==> x in rows && Comes(x, c, op, value, b)
  {
    hide Comes;
    var at :| Positions(rows, c, op, value, b, at) && some == Taken(rows, at);
    forall x | x in some ensures x in rows && Comes(x, c, op, value, b) {
      var i :| 0 <= i < |some| && some[i] == x;
      assert at[i] in at;
    }
    forall x | x in rows && Comes(x, c, op, value, b) ensures x in some {
      var j :| 0 <= j < |rows| && rows[j] == x;
      assert j in at;
      var i :| 0 <= i < |at| && at[i] == j;
      assert some[i] == x;
    }
  }

  // ---------- Statements ----------

  /** A query finds every live row, or those whose value in the named column compares; in scan order unless an index was
      used. */
  ghost predicate Found(v: TableView, filter: Option<Where>, rows: seq<Row>) {
    && (filter.None? ==> rows == RowsOf(LiveRows(v.items)))
    && (filter.Some? ==> forall c :: Names(v.schema, c, filter.value.column) ==>
        exists some :: FoundAt(v, c, filter.value, some, rows))
  }

  ghost predicate FoundAt(v: TableView, c: nat, w: Where, some: seq<(RowPointer, Row)>, rows: seq<Row>) {
    && Sifted(LiveRows(v.items), c, w.op, w.value, true, some)
    && multiset(rows) == multiset(RowsOf(some)) && (!Usable(v.columns, Some(w)) ==> rows == RowsOf(some))
  }

  lemma SelectedFound(v: TableView, filter: Option<Where>, rows: seq<Row>)
    requires SelectedRows(v, filter, rows)
    ensures Found(v, filter, rows) && (filter.None? ==> rows == RowsOf(LiveRows(v.items)))
  {
    match filter
    case None =>
      WholeTable(v.schema, v.items);
    case Some(w) =>
      hide Sifted;
      forall c | Names(v.schema, c, w.column) ensures exists some :: FoundAt(v, c, w, some, rows) {
        AnswerSifts(v.schema, v.items, w, c);
        assert FoundAt(v, c, w, AnswerOf(v, filter), rows);
      }
  }

  /** A deletion leaves those live rows, in scan order, whose value in the named column does not compare, and removes as many
      rows as there are others. */
  ghost predicate Left(v: TableView, v': TableView, w: Where, count: nat) {
    && |LiveRows(v'.items)| + count == |LiveRows(v.items)|
    && forall c :: Names(v.schema, c, w.column) ==> Sifted(LiveRows(v.items), c, w.op, w.value, false, LiveRows(v'.items))
  }

  lemma {:induction false} Halves(schema: Schema, rows: seq<(RowPointer, Row)>, filter: Option<Where>)
    requires forall i :: 0 <= i < |rows| ==> RowMatches(schema, rows[i].1)
    ensures |Surviving(schema, rows, filter)| + |Filtered(schema, rows, filter)| == |rows|
    decreases |rows|
  {
    if rows != [] {
      Halves(schema, rows[..|rows| - 1], filter);
    }
  }

  lemma DeletedLeft(views: map<string, TableView>, views': map<string, TableView>, n: string, w: Where, count: nat)
    requires RowsDeleted(views, views', n, Some(w), count) && !CannotFilter(views, n, Some(w))
    ensures n in views && n in views' && Left(views[n], views'[n], w, count)
  {
    hide Sifted, SlotsKept;
    var v, rows := views[n], LiveRows(views[n].items);
    Halves(v.schema, rows, Some(w));
    forall c | Names(v.schema, c, w.column)
      ensures Sifted(rows, c, w.op, w.value, false, LiveRows(views'[n].items))
    {
      if rows == [] {
        NothingSifted(c, w, false);
      } else {
        SurvivingSifts(v.schema, rows, w, c);
      }
    }
  }

  lemma NothingSifted(c: nat, w: Where, b: bool)
    ensures Sifted([], c, w.op, w.value, b, [])
  {
    assert Positions([], c, w.op, w.value, b, []);
  }

  /** Queries for integers, operator by operator. */
  lemma IntQuery(v: TableView, column: string, op: Operator, k: int, c: nat, rows: seq<Row>) returns (at: seq<nat>)
    requires TableGood(v) && Found(v, Some(Where(column, op, IntValue(k))), rows)
    requires Names(v.schema, c, column) && v.schema[c].columnType == IntType
    ensures (forall i, j :: 0 <= i < j < |at| ==> at[i] < at[j]) && forall i :: 0 <= i < |at| ==> at[i] < |LiveRows(v.items)|
    ensures multiset(rows) == multiset(RowsOf(Taken(LiveRows(v.items), at)))
    ensures op != EQ || column !in v.columns ==> rows == RowsOf(Taken(LiveRows(v.items), at))
    ensures forall j :: 0 <= j < |LiveRows(v.items)| ==> c < |LiveRows(v.items)[j].1| && LiveRows(v.items)[j].1[c].IntValue?
    ensures op == EQ ==> forall j: nat :: j < |LiveRows(v.items)| ==> (j in at <==> LiveRows(v.items)[j].1[c].n == k)
    ensures op == NE ==> forall j: nat :: j < |LiveRows(v.items)| ==> (j in at <==> LiveRows(v.items)[j].1[c].n != k)
    ensures op == LT ==> forall j: nat :: j < |LiveRows(v.items)| ==> (j in at <==> LiveRows(v.items)[j].1[c].n < k)
    ensures op == LE ==> forall j: nat :: j < |LiveRows(v.items)| ==> (j in at <==> LiveRows(v.items)[j].1[c].n <= k)
    ensures op == GT ==> forall j: nat :: j < |LiveRows(v.items)| ==> (j in at <==> LiveRows(v.items)[j].1[c].n > k)
    ensures op == GE ==> forall j: nat :: j < |LiveRows(v.items)| ==> (j in at <==> LiveRows(v.items)[j].1[c].n >= k)
  {
    var w := Where(column, op, IntValue(k));
    var some :| FoundAt(v, c, w, some, rows);
    hide LiveRows, Sifted, Taken, RowsOf, TableGood;
    at := IntPositions(v, op, k, c, true, some);
  }

  /** Deletions by integers, operator by operator: the rows that are left. */
  lemma IntDeletion(v: TableView, v': TableView, column: string, op: Operator, k: int, c: nat, count: nat) returns (at: seq<nat>)
    requires TableGood(v) && Left(v, v', Where(column, op, IntValue(k)), count)
    requires Names(v.schema, c, column) && v.schema[c].columnType == IntType
    ensures (forall i, j :: 0 <= i < j < |at| ==> at[i] < at[j]) && forall i :: 0 <= i < |at| ==> at[i] < |LiveRows(v.items)|
    ensures LiveRows(v'.items) == Taken(LiveRows(v.items), at) && count == |LiveRows(v.items)| - |at|
    ensures forall j :: 0 <= j < |LiveRows(v.items)| ==> c < |LiveRows(v.items)[j].1| && LiveRows(v.items)[j].1[c].IntValue?
    ensures op == EQ ==> forall j: nat :: j < |LiveRows(v.items)| ==> (j in at <==> LiveRows(v.items)[j].1[c].n != k)
    ensures op == NE ==> forall j: nat :: j < |LiveRows(v.items)| ==> (j in at <==> LiveRows(v.items)[j].1[c].n == k)
    ensures op == LT ==> forall j: nat :: j < |LiveRows(v.items)| ==> (j in at <==> LiveRows(v.items)[j].1[c].n >= k)
    ensures op == LE ==> forall j: nat :: j < |LiveRows(v.items)| ==> (j in at <==> LiveRows(v.items)[j].1[c].n > k)
    ensures op == GT ==> forall j: nat :: j < |LiveRows(v.items)| ==> (j in at <==> LiveRows(v.items)[j].1[c].n <= k)
    ensures op == GE ==> forall j: nat :: j < |LiveRows(v.items)| ==> (j in at <==> LiveRows(v.items)[j].1[c].n < k)
  {
    hide LiveRows, Sifted, Taken, TableGood;
    at := IntPositions(v, op, k, c, false, LiveRows(v'.items));
  }

  lemma IntPositions(v: TableView, op: Operator, k: int, c: nat, b: bool, some: seq<(RowPointer, Row)>) returns (at: seq<nat>)
    requires TableGood(v) && c < |v.schema| && v.schema[c].columnType == IntType
    requires Sifted(LiveRows(v.items), c, op, IntValue(k), b, some)
    ensures Rising(at) && (forall i :: 0 <= i < |at| ==> at[i] < |LiveRows(v.items)|) && some == Taken(LiveRows(v.items), at)
    ensures forall j :: 0 <= j < |LiveRows(v.items)| ==> c < |LiveRows(v.items)[j].1| && LiveRows(v.items)[j].1[c].IntValue?
    ensures forall j: nat :: j < |LiveRows(v.items)| ==> (j in at <==> (Related(op, LiveRows(v.items)[j].1[c].n, k) <==> b))
  {
    LiveRowsMatch(v.schema, v.items);
    hide Compare, Related, Rising, LiveRows, Taken, Comes;
    var rows := LiveRows(v.items);
    at :| Positions(rows, c, op, IntValue(k), b, at) && some == Taken(rows, at);
    forall j: nat | j < |rows| ensures c < |rows[j].1| && rows[j].1[c].IntValue? && (j in at <==> (Related(op, rows[j].1[c].n, k) <==> b)) {
      assert HasType(rows[j].1[c], v.schema[c].columnType);
      IntComes(rows[j], c, op, k, b);
    }
  }

  predicate Related(op: Operator, a: int, b: int) {
    match op
    case EQ => a == b
    case NE => a != b
    case LT => a < b
    case LE => a <= b
    case GT => a > b
    case GE => a >= b
  }

  lemma IntComes(row: (RowPointer, Row), c: nat, op: Operator, k: int, b: bool)
    requires c < |row.1| && row.1[c].IntValue?
    ensures Comes(row, c, op, IntValue(k), b) <==> (Related(op, row.1[c].n, k) <==> b)
  {
    IntComparisons(row.1[c].n, k);
  }
}
