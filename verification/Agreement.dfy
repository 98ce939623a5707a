/** What holds between statements: indexes agree with tables, and the log can undo the open transaction. */
module Agreement {
  import opened Storage
  import opened EntryList
  import opened BigEndian
  import opened HeapModel
  import opened HeapFiles
  import opened Records
  import opened Statements
  import opened Tables
  import opened TxnLog
  import opened Parts

  // ---------- One table ----------

  /** Every slot holds a storable row of the schema, and no pointer occurs twice. */
  ghost predicate RowsGood(schema: Schema, items: seq<Item>) {
    && AllMatch(schema, items) && DistinctPointers(items)
    && forall i :: 0 <= i < |items| ==> RowStorable(items[i].row)
  }

  /** The column is an INT column, and the map lists exactly the live rows of `items`. */
  ghost predicate ColumnAgrees(schema: Schema, column: string, items: seq<Item>, m: map<int, seq<RowPointer>>) {
    && ColumnIndex(schema, column).Some?
    && schema[ColumnIndex(schema, column).value].columnType == IntType
    && IndexAgrees(items, ColumnIndex(schema, column).value, m)
  }

  /** Every index of the table agrees with its rows. */
  ghost predicate TableGood(v: TableView) {
    && |v.columns| == |v.maps| && RowsGood(v.schema, v.items)
    && forall i :: 0 <= i < |v.maps| ==> ColumnAgrees(v.schema, v.columns[i], v.items, v.maps[i])
  }

  /** The key of a row in an indexed column. */
  function KeyIn(schema: Schema, column: string, row: Row): int
    requires RowMatches(schema, row) && ColumnIndex(schema, column).Some?
    requires schema[ColumnIndex(schema, column).value].columnType == IntType
  {
    row[ColumnIndex(schema, column).value].n
  }

  lemma ColumnGains(schema: Schema, column: string, a: seq<Item>, b: seq<Item>, m: map<int, seq<RowPointer>>, p: RowPointer, row: Row)
    requires ColumnAgrees(schema, column, a, m) && Gains(a, b, p, row) && RowMatches(schema, row)
    ensures ColumnAgrees(schema, column, b, Added(m, KeyIn(schema, column, row), p))
  {
    GainAgrees(a, b, ColumnIndex(schema, column).value, m, p, row, KeyIn(schema, column, row));
  }

  lemma ColumnLoses(schema: Schema, column: string, a: seq<Item>, b: seq<Item>, m: map<int, seq<RowPointer>>, p: RowPointer, row: Row)
    requires ColumnAgrees(schema, column, a, m) && Loses(a, b, p, row) && RowMatches(schema, row)
    ensures ColumnAgrees(schema, column, b, Removed(m, KeyIn(schema, column, row), p))
  {
    LossAgrees(a, b, ColumnIndex(schema, column).value, m, p, row, KeyIn(schema, column, row));
  }

  lemma AddedRowsGood(schema: Schema, a: seq<Item>, b: seq<Item>, p: RowPointer, row: Row)
    requires RowsGood(schema, a) && ItemAdded(a, b, Item(p, row, true)) && DistinctPointers(b)
    requires RowMatches(schema, row) && RowStorable(row)
    ensures RowsGood(schema, b)
  {
    var k :| 0 <= k <= |a| && b == InsertItem(a, k, Item(p, row, true));
    forall i | 0 <= i < |b| ensures RowMatches(schema, b[i].row) && RowStorable(b[i].row) {
      assert b[i] == if i < k then a[i] else if i == k then Item(p, row, true) else a[i - 1];
    }
  }

  lemma MarkedRowsGood(schema: Schema, a: seq<Item>, p: RowPointer, live: bool)
    requires RowsGood(schema, a)
    ensures RowsGood(schema, Marked(a, p, live))
  {
  }

  lemma FoundGood(schema: Schema, items: seq<Item>, p: RowPointer)
    requires RowsGood(schema, items) && FindItem(items, p).Some?
    ensures RowMatches(schema, FindItem(items, p).value.row) && RowStorable(FindItem(items, p).value.row)
  {
    var i :| 0 <= i < |items| && items[i] == FindItem(items, p).value;
  }

  // ---------- Deleting the selected rows ----------

  function MarkAll(items: seq<Item>, ps: seq<RowPointer>): (r: seq<Item>)
    ensures |r| == |items|
  {
    if ps == [] then items else Marked(MarkAll(items, ps[..|ps| - 1]), ps[|ps| - 1], false)
  }

  lemma {:induction false} MarkAllAt(items: seq<Item>, ps: seq<RowPointer>, i: nat)
    requires i < |items|
    ensures MarkAll(items, ps)[i] == if items[i].pointer in ps then items[i].(live := false) else items[i]
    decreases |ps|
  {
    if ps != [] {
      var n := |ps| - 1;
      assert ps == ps[..n] + [ps[n]];
      MarkAllAt(items, ps[..n], i);
    }
  }

  lemma {:induction false} FindMarkAll(items: seq<Item>, ps: seq<RowPointer>, q: RowPointer)
    requires q !in ps
    ensures FindItem(MarkAll(items, ps), q) == FindItem(items, q)
    decreases |ps|
  {
    if ps != [] {
      var n := |ps| - 1;
      FindMarkAll(items, ps[..n], q);
      FindMarked(MarkAll(items, ps[..n]), ps[n], false, q);
    }
  }

  /** The rows that do not satisfy the condition, in order. */
  function Surviving(schema: Schema, rows: seq<(RowPointer, Row)>, filter: Option<Where>): seq<(RowPointer, Row)>
    requires forall i :: 0 <= i < |rows| ==> RowMatches(schema, rows[i].1)
  {
    if rows == [] then []
    else
      var n := |rows| - 1;
      Surviving(schema, rows[..n], filter) +
        if MatchesWhere(schema, rows[n].1, filter) == Holds(true) then [] else [rows[n]]
  }

  /** After the selected rows are marked deleted, exactly the others are live, in the same order. */
  lemma DeletionLeaves(schema: Schema, items: seq<Item>, filter: Option<Where>)
    requires RowsGood(schema, items)
    ensures forall i :: 0 <= i < |LiveRows(items)| ==> RowMatches(schema, LiveRows(items)[i].1)
    ensures LiveRows(MarkAll(items, PointersOf(Answer(schema, items, filter)))) == Surviving(schema, LiveRows(items), filter)
  {
    LiveRowsMatch(schema, items);
    var ps := PointersOf(Answer(schema, items, filter));
    var items' := MarkAll(items, ps);
    forall i | 0 <= i < |items| ensures items'[i] ==
      if Qualifies(schema, items[i], filter) then items[i].(live := false) else items[i]
    {
      MarkAllAt(items, ps, i);
      FindItemIs(items, i);
      AnswerOnce(schema, items, filter, items[i].pointer);
      assert items[i].pointer in ps <==> multiset(ps)[items[i].pointer] > 0;
    }
    Survivors(schema, items, items', filter);
  }

  lemma {:induction false} Survivors(schema: Schema, items: seq<Item>, items': seq<Item>, filter: Option<Where>)
    requires AllMatch(schema, items) && |items'| == |items|
    requires forall i :: 0 <= i < |items| ==>
      items'[i] == if Qualifies(schema, items[i], filter) then items[i].(live := false) else items[i]
    ensures forall i :: 0 <= i < |LiveRows(items)| ==> RowMatches(schema, LiveRows(items)[i].1)
    ensures LiveRows(items') == Surviving(schema, LiveRows(items), filter)
    decreases |items|
  {
    LiveRowsMatch(schema, items);
    if items != [] {
      var n := |items| - 1;
      hide RowMatches, MatchesWhere;
      Survivors(schema, items[..n], items'[..n], filter);
      LastSurvivor(schema, items, filter);
    }
  }

  lemma LastSurvivor(schema: Schema, items: seq<Item>, filter: Option<Where>)
    requires AllMatch(schema, items) && items != []
    ensures forall i :: 0 <= i < |LiveRows(items)| ==> RowMatches(schema, LiveRows(items)[i].1)
    ensures var n := |items| - 1; var x := items[n];
      && (forall i :: 0 <= i < |LiveRows(items[..n])| ==> RowMatches(schema, LiveRows(items[..n])[i].1))
      && Surviving(schema, LiveRows(items), filter) == Surviving(schema, LiveRows(items[..n]), filter) +
           if x.live && !Qualifies(schema, x, filter) then [(x.pointer, x.row)] else []
  {
    hide RowMatches, MatchesWhere;
    LiveRowsMatch(schema, items);
    var n := |items| - 1;
    LiveRowsMatch(schema, items[..n]);
    var rows := LiveRows(items);
    if items[n].live {
      assert rows[..|rows| - 1] == LiveRows(items[..n]);
    } else {
      assert rows == LiveRows(items[..n]);
    }
  }

  // ---------- The open transaction ----------

  /** The live rows of a table when the transaction began; a table created since then had none. */
  function Before(base: map<string, seq<(RowPointer, Row)>>, n: string): seq<(RowPointer, Row)> {
    if n in base then base[n] else []
  }

  /** Undoing the records would bring back the live rows of the start of the transaction, in the same order. */
  ghost predicate Undoable(views: map<string, TableView>, rs: seq<LogRecord>, base: map<string, seq<(RowPointer, Row)>>) {
    && (forall i :: 0 <= i < |rs| && (rs[i].InsertRecord? || rs[i].DeleteRecord?) ==> rs[i].table in views)
    && forall n :: n in views ==>
      AsLogged(views[n].items, n, rs) && LiveRows(UndoItems(views[n].items, n, rs)) == Before(base, n)
  }

  ghost predicate LogGood(log: seq<LogRecord>, active: Option<nat>, next: nat) {
    Sequential(log) && LastTxid(log) < next && (active.Some? ==> log != [] && OpenTxn(log) == active)
  }

  ghost predicate TxnGood(views: map<string, TableView>, log: seq<LogRecord>, active: Option<nat>, next: nat,
                          base: map<string, seq<(RowPointer, Row)>>)
  {
    LogGood(log, active, next) && (active.Some? ==> Undoable(views, OfTxn(log, active.value), base))
  }

  lemma LogAppend(log: seq<LogRecord>, active: Option<nat>, next: nat, r: LogRecord)
    requires LogGood(log, active, next) && !r.BeginRecord? && active == Some(r.txid)
    ensures LogGood(log + [r], if r.CommitRecord? || r.RollbackRecord? then None else active, next)
    ensures OfTxn(log + [r], r.txid) == OfTxn(log, r.txid) + [r]
  {
    assert (log + [r])[..|log|] == log;
    OpenIsLast(log);
  }

  lemma LogBegin(log: seq<LogRecord>, active: Option<nat>, next: nat)
    requires LogGood(log, active, next)
    ensures LogGood(log + [BeginRecord(next)], Some(next), next + 1)
    ensures OfTxn(log + [BeginRecord(next)], next) == [BeginRecord(next)]
  {
    assert (log + [BeginRecord(next)])[..|log|] == log;
    UnusedTxid(log, next);
  }

  /** The live rows of every table. */
  ghost function LiveOf(views: map<string, TableView>): map<string, seq<(RowPointer, Row)>> {
    map n | n in views :: LiveRows(views[n].items)
  }

  lemma UndoableAtBegin(views: map<string, TableView>, t: nat)
    ensures Undoable(views, [BeginRecord(t)], LiveOf(views))
  {
    var rs := [BeginRecord(t)];
    assert rs[..0] == [];
    forall n | n in views ensures AsLogged(views[n].items, n, rs) && UndoItems(views[n].items, n, rs) == views[n].items {
      assert UndoMark(views[n].items, n, rs[0]) == views[n].items;
      assert AsLogged(views[n].items, n, []);
      assert UndoItems(views[n].items, n, []) == views[n].items;
    }
  }

  /** One table changed its slots as the new record says; the others did not. */
  lemma UndoableStep(views: map<string, TableView>, views': map<string, TableView>, rs: seq<LogRecord>, r: LogRecord,
                     base: map<string, seq<(RowPointer, Row)>>)
    requires Undoable(views, rs, base) && (r.InsertRecord? || r.DeleteRecord?) && r.table in views
    requires views'.Keys == views.Keys && forall m :: m in views && m != r.table ==> views'[m].items == views[m].items
    requires AsLogged(views'[r.table].items, r.table, rs + [r])
    requires LiveRows(UndoItems(views'[r.table].items, r.table, rs + [r])) == LiveRows(UndoItems(views[r.table].items, r.table, rs))
    ensures Undoable(views', rs + [r], base)
  {
    hide AsLogged, UndoItems, LiveRows;
    forall m | m in views' ensures AsLogged(views'[m].items, m, rs + [r])
      && LiveRows(UndoItems(views'[m].items, m, rs + [r])) == Before(base, m)
    {
      if m != r.table {
        OtherLogged(views[m].items, m, rs, r);
      }
    }
  }

  /** Only maps changed. */
  lemma UndoableSameItems(views: map<string, TableView>, views': map<string, TableView>, rs: seq<LogRecord>,
                          base: map<string, seq<(RowPointer, Row)>>)
    requires Undoable(views, rs, base)
    requires views'.Keys == views.Keys && forall m :: m in views ==> views'[m].items == views[m].items
    ensures Undoable(views', rs, base)
  {
  }

  /** A new, empty table has nothing to undo. */
  lemma UndoableNewTable(views: map<string, TableView>, n: string, v: TableView, rs: seq<LogRecord>,
                         base: map<string, seq<(RowPointer, Row)>>)
    requires Undoable(views, rs, base) && n !in views && n !in base && v.items == []
    ensures Undoable(views[n := v], rs, base)
  {
    NoneTouch(n, rs);
  }

  lemma {:induction false} NoneTouch(n: string, rs: seq<LogRecord>)
    requires forall i :: 0 <= i < |rs| ==> !Touches(rs[i], n)
    ensures AsLogged([], n, rs) && UndoItems([], n, rs) == []
    decreases |rs|
  {
    if rs != [] {
      NoneTouch(n, rs[..|rs| - 1]);
    }
  }

  /** One record undone: the rest can still be undone, and leads to the same rows. */
  lemma UndoableBack(views: map<string, TableView>, views': map<string, TableView>, rs: seq<LogRecord>,
                     base: map<string, seq<(RowPointer, Row)>>)
    requires Undoable(views, rs, base) && rs != []
    requires UndoneOnce(views, views', rs[|rs| - 1])
    ensures Undoable(views', rs[..|rs| - 1], base)
  {
  }

  // ---------- Maintaining the indexes of a table ----------

  /** The table's rows have just gained `row` under `p`, while its indexes still agree with the rows before. */
  ghost predicate Entering(v: TableView, items0: seq<Item>, row: Row, p: RowPointer) {
    && |v.columns| == |v.maps| && RowsGood(v.schema, v.items)
    && RowMatches(v.schema, row) && RowStorable(row) && Gains(items0, v.items, p, row)
    && forall i :: 0 <= i < |v.maps| ==> ColumnAgrees(v.schema, v.columns[i], items0, v.maps[i])
  }

  /** The table's rows have just lost `row` under `p`, while its indexes still agree with the rows before. */
  ghost predicate Leaving(v: TableView, items0: seq<Item>, row: Row, p: RowPointer) {
    && |v.columns| == |v.maps| && RowsGood(v.schema, v.items)
    && RowMatches(v.schema, row) && RowStorable(row) && Loses(items0, v.items, p, row)
    && forall i :: 0 <= i < |v.maps| ==> ColumnAgrees(v.schema, v.columns[i], items0, v.maps[i])
  }

  lemma KeyStorable(schema: Schema, column: string, row: Row)
    requires RowMatches(schema, row) && RowStorable(row) && ColumnIndex(schema, column).Some?
    requires schema[ColumnIndex(schema, column).value].columnType == IntType
    ensures row[ColumnIndex(schema, column).value].IntValue? && Int64(KeyIn(schema, column, row))
  {
    assert Storable(row[ColumnIndex(schema, column).value]);
  }

  ghost predicate RowsAsBefore(views: map<string, TableView>, base: map<string, seq<(RowPointer, Row)>>) {
    forall n :: n in views ==> LiveRows(views[n].items) == Before(base, n)
  }

  /** The first `i` indexes agree with the rows of `v0`; the others are as in `v0`. */
  ghost predicate IndexesDone(v0: TableView, v: TableView, i: nat) {
    && v == v0.(maps := v.maps) && |v.maps| == |v0.maps| == |v0.columns| && i <= |v.maps|
    && (forall j :: 0 <= j < i ==> ColumnAgrees(v0.schema, v0.columns[j], v0.items, v.maps[j]))
    && (forall j :: i <= j < |v.maps| ==> v.maps[j] == v0.maps[j])
  }

  lemma NoneDone(v: TableView)
    requires |v.maps| == |v.columns|
    ensures IndexesDone(v, v, 0)
  {
  }

  lemma IndexesStep(v0: TableView, v: TableView, i: nat, m: map<int, seq<RowPointer>>)
    requires IndexesDone(v0, v, i) && i < |v.maps| && ColumnAgrees(v0.schema, v0.columns[i], v0.items, m)
    ensures IndexesDone(v0, v.(maps := v.maps[i := m]), i + 1)
  {
    hide ColumnAgrees;
  }

  lemma EntryDone(v0: TableView, v: TableView, items0: seq<Item>, row: Row, p: RowPointer, count: nat)
    requires Entering(v0, items0, row, p) && IndexesDone(v0, v, count) && count == |v0.maps|
    ensures TableGood(v) && v.items == v0.items
  {
  }

  lemma ExitDone(v0: TableView, v: TableView, items0: seq<Item>, row: Row, p: RowPointer, count: nat)
    requires Leaving(v0, items0, row, p) && IndexesDone(v0, v, count) && count == |v0.maps|
    ensures TableGood(v) && v.items == v0.items
  {
  }

  lemma EnteringKey(v0: TableView, v: TableView, i: nat, items0: seq<Item>, row: Row, p: RowPointer)
    requires Entering(v0, items0, row, p) && IndexesDone(v0, v, i) && i < |v.maps|
    ensures var c := ColumnIndex(v0.schema, v0.columns[i]);
      && v.schema == v0.schema && v.columns == v0.columns
      && c.Some? && c.value < |row| && row[c.value].IntValue? && Int64(row[c.value].n)
      && ColumnAgrees(v0.schema, v0.columns[i], v0.items, Added(v.maps[i], row[c.value].n, p))
  {
    assert ColumnAgrees(v0.schema, v0.columns[i], items0, v0.maps[i]);
    KeyStorable(v0.schema, v0.columns[i], row);
    ColumnGains(v0.schema, v0.columns[i], items0, v0.items, v0.maps[i], p, row);
  }

  lemma LeavingKey(v0: TableView, v: TableView, i: nat, items0: seq<Item>, row: Row, p: RowPointer)
    requires Leaving(v0, items0, row, p) && IndexesDone(v0, v, i) && i < |v.maps|
    ensures var c := ColumnIndex(v0.schema, v0.columns[i]);
      && v.schema == v0.schema && v.columns == v0.columns
      && c.Some? && c.value < |row| && row[c.value].IntValue? && Int64(row[c.value].n)
      && ColumnAgrees(v0.schema, v0.columns[i], v0.items, Removed(v.maps[i], row[c.value].n, p))
  {
    assert ColumnAgrees(v0.schema, v0.columns[i], items0, v0.maps[i]);
    KeyStorable(v0.schema, v0.columns[i], row);
    ColumnLoses(v0.schema, v0.columns[i], items0, v0.items, v0.maps[i], p, row);
  }

  /** Marking a live row deleted lets it leave the indexes. */
  lemma RowLeaves(v: TableView, p: RowPointer, row: Row)
    requires TableGood(v) && FindItem(v.items, p) == Some(Item(p, row, true))
    ensures Leaving(v.(items := Marked(v.items, p, false)), v.items, row, p)
  {
    FoundGood(v.schema, v.items, p);
    DeleteLoses(v.items, p, row);
    MarkedRowsGood(v.schema, v.items, p, false);
  }

  /** Marking a deleted row live lets it enter the indexes. */
  lemma RowReturns(v: TableView, p: RowPointer, row: Row)
    requires TableGood(v) && FindItem(v.items, p) == Some(Item(p, row, false))
    ensures Entering(v.(items := Marked(v.items, p, true)), v.items, row, p)
  {
    FoundGood(v.schema, v.items, p);
    RestoreGains(v.items, p, row);
    MarkedRowsGood(v.schema, v.items, p, true);
  }

  /** An inserted row enters the indexes. */
  lemma RowArrives(v: TableView, items: seq<Item>, p: RowPointer, row: Row)
    requires TableGood(v) && ItemAdded(v.items, items, Item(p, row, true)) && DistinctPointers(items)
    requires RowMatches(v.schema, row) && RowStorable(row)
    ensures Entering(v.(items := items), v.items, row, p)
  {
    InsertGains(v.items, items, p, row);
    AddedRowsGood(v.schema, v.items, items, p, row);
  }

  /** None of the records is about a row. */
  ghost predicate NoChanges(rs: seq<LogRecord>) {
    forall i :: 0 <= i < |rs| ==> !rs[i].InsertRecord? && !rs[i].DeleteRecord?
  }

  /** The slot that a record is about is as the record left it. */
  ghost predicate Undone(views: map<string, TableView>, r: LogRecord) {
    r.InsertRecord? || r.DeleteRecord? ==>
      r.table in views && FindItem(views[r.table].items, r.pointer) == Some(Item(r.pointer, r.row, r.InsertRecord?))
  }

  lemma LastRecord(views: map<string, TableView>, rs: seq<LogRecord>, base: map<string, seq<(RowPointer, Row)>>)
    requires Undoable(views, rs, base) && rs != []
    ensures Undone(views, rs[|rs| - 1])
  {
    var r := rs[|rs| - 1];
    if r.InsertRecord? || r.DeleteRecord? {
      assert AsLogged(views[r.table].items, r.table, rs);
    }
  }

  /** With nothing left to undo, the tables have their old live rows. */
  lemma RestoredRows(views: map<string, TableView>, base: map<string, seq<(RowPointer, Row)>>)
    requires Undoable(views, [], base)
    ensures RowsAsBefore(views, base)
  {
    assert forall n :: n in views ==> UndoItems(views[n].items, n, []) == views[n].items;
  }

  ghost predicate AllGood(views: map<string, TableView>) {
    forall n :: n in views ==> TableGood(views[n])
  }

  // ---------- Between statements ----------

  /** What holds between statements. */
  ghost predicate Good(views: map<string, TableView>, log: seq<LogRecord>, active: Option<nat>, next: nat,
                       base: map<string, seq<(RowPointer, Row)>>)
  {
    && AllGood(views)
    && TxnGood(views, log, active, next, base)
    && (active.Some? ==> base.Keys <= views.Keys)
  }

  lemma GoodBegins(views: map<string, TableView>, log: seq<LogRecord>, next: nat, base: map<string, seq<(RowPointer, Row)>>)
    requires Good(views, log, None, next, base)
    ensures Good(views, log + [BeginRecord(next)], Some(next), next + 1, LiveOf(views))
    ensures OfTxn(log + [BeginRecord(next)], next) == [BeginRecord(next)]
  {
    hide AllGood, Undoable, LogGood;
    LogBegin(log, None, next);
    UndoableAtBegin(views, next);
  }

  lemma GoodCommits(views: map<string, TableView>, log: seq<LogRecord>, t: nat, next: nat, base: map<string, seq<(RowPointer, Row)>>)
    requires Good(views, log, Some(t), next, base)
    ensures Good(views, log + [CommitRecord(t)], None, next, base)
  {
    hide AllGood, Undoable, LogGood;
    LogAppend(log, Some(t), next, CommitRecord(t));
  }

  lemma GoodRolledBack(views: map<string, TableView>, log: seq<LogRecord>, t: nat, next: nat, base: map<string, seq<(RowPointer, Row)>>)
    requires AllGood(views) && Undoable(views, [], base) && LogGood(log, Some(t), next)
    ensures Good(views, log + [RollbackRecord(t)], None, next, base) && RowsAsBefore(views, base)
  {
    hide AllGood, Undoable, LogGood, RowsAsBefore;
    RestoredRows(views, base);
    LogAppend(log, Some(t), next, RollbackRecord(t));
  }

  // ---------- Changes to one table among others ----------

  /** The slot of `p` in table `n` is marked. */
  ghost function MarkedIn(views: map<string, TableView>, n: string, p: RowPointer, live: bool): map<string, TableView> {
    if n in views then views[n := views[n].(items := Marked(views[n].items, p, live))] else views
  }

  ghost function AddedIn(views: map<string, TableView>, n: string, i: nat, key: int, p: RowPointer): map<string, TableView> {
    if n in views && i < |views[n].maps| then views[n := views[n].(maps := views[n].maps[i := Added(views[n].maps[i], key, p)])]
    else views
  }

  ghost function RemovedIn(views: map<string, TableView>, n: string, i: nat, key: int, p: RowPointer): map<string, TableView> {
    if n in views && i < |views[n].maps| then views[n := views[n].(maps := views[n].maps[i := Removed(views[n].maps[i], key, p)])]
    else views
  }

  /** Table `n` holds the slot `p`. */
  ghost predicate HasSlot(views: map<string, TableView>, n: string, p: RowPointer) {
    n in views && FindItem(views[n].items, p).Some?
  }

  /** Table `n` is in order and holds `row` in the slot `p`. */
  ghost predicate HasRow(views: map<string, TableView>, n: string, p: RowPointer, row: Row, live: bool) {
    n in views && TableGood(views[n]) && FindItem(views[n].items, p) == Some(Item(p, row, live))
  }

  /** A live row was added to table `n`, and nothing else changed. */
  ghost predicate RowAdded(views: map<string, TableView>, views': map<string, TableView>, n: string, p: RowPointer, row: Row) {
    && n in views && n in views' && ItemAdded(views[n].items, views'[n].items, Item(p, row, true))
    && DistinctPointers(views'[n].items) && views' == views[n := views[n].(items := views'[n].items)]
  }

  ghost predicate EnteringIn(views: map<string, TableView>, n: string, items0: seq<Item>, row: Row, p: RowPointer) {
    n in views && Entering(views[n], items0, row, p)
  }

  ghost predicate LeavingIn(views: map<string, TableView>, n: string, items0: seq<Item>, row: Row, p: RowPointer) {
    n in views && Leaving(views[n], items0, row, p)
  }

  /** Only table `n` changed; its first `i` indexes agree with its rows now. */
  ghost predicate Reindexing(views: map<string, TableView>, views': map<string, TableView>, n: string, i: nat) {
    n in views && n in views' && views' == views[n := views'[n]] && IndexesDone(views[n], views'[n], i)
  }

  /** Only the indexes of table `n` changed, and they agree with its rows. */
  ghost predicate Reindexed(views: map<string, TableView>, views': map<string, TableView>, n: string) {
    && n in views && n in views' && views' == views[n := views'[n]] && views'[n].items == views[n].items
    && views'[n].schema == views[n].schema && views'[n].columns == views[n].columns && TableGood(views'[n])
  }

  /** Only table `n` changed: the slot `p` is marked, and the indexes agree. */
  ghost predicate Remarked(views: map<string, TableView>, views': map<string, TableView>, n: string, p: RowPointer, live: bool) {
    && n in views && n in views' && views' == views[n := views'[n]] && views'[n].items == Marked(views[n].items, p, live)
    && views'[n].schema == views[n].schema && views'[n].columns == views[n].columns && TableGood(views'[n])
  }

  lemma EntryStarts(views: map<string, TableView>, n: string, items0: seq<Item>, row: Row, p: RowPointer)
    requires EnteringIn(views, n, items0, row, p)
    ensures n in views && Reindexing(views, views, n, 0)
  {
    NoneDone(views[n]);
  }

  lemma ExitStarts(views: map<string, TableView>, n: string, items0: seq<Item>, row: Row, p: RowPointer)
    requires LeavingIn(views, n, items0, row, p)
    ensures n in views && Reindexing(views, views, n, 0)
  {
    NoneDone(views[n]);
  }

  lemma EntryStep(views: map<string, TableView>, views': map<string, TableView>, n: string, i: nat, items0: seq<Item>, row: Row, p: RowPointer)
    requires EnteringIn(views, n, items0, row, p) && Reindexing(views, views', n, i) && i < |views'[n].maps|
    ensures var v := views'[n]; var c := ColumnIndex(v.schema, v.columns[i]);
      && c.Some? && c.value < |row| && row[c.value].IntValue? && Int64(row[c.value].n)
      && Reindexing(views, AddedIn(views', n, i, row[c.value].n, p), n, i + 1)
  {
    EnteringKey(views[n], views'[n], i, items0, row, p);
    var v := views'[n];
    hide ColumnAgrees, Entering;
    IndexesStep(views[n], v, i, Added(v.maps[i], row[ColumnIndex(v.schema, v.columns[i]).value].n, p));
  }

  lemma ExitStep(views: map<string, TableView>, views': map<string, TableView>, n: string, i: nat, items0: seq<Item>, row: Row, p: RowPointer)
    requires LeavingIn(views, n, items0, row, p) && Reindexing(views, views', n, i) && i < |views'[n].maps|
    ensures var v := views'[n]; var c := ColumnIndex(v.schema, v.columns[i]);
      && c.Some? && c.value < |row| && row[c.value].IntValue? && Int64(row[c.value].n)
      && Reindexing(views, RemovedIn(views', n, i, row[c.value].n, p), n, i + 1)
  {
    LeavingKey(views[n], views'[n], i, items0, row, p);
    var v := views'[n];
    hide ColumnAgrees, Leaving;
    IndexesStep(views[n], v, i, Removed(v.maps[i], row[ColumnIndex(v.schema, v.columns[i]).value].n, p));
  }

  lemma EntryEnds(views: map<string, TableView>, views': map<string, TableView>, n: string, items0: seq<Item>, row: Row, p: RowPointer)
    requires EnteringIn(views, n, items0, row, p) && n in views' && Reindexing(views, views', n, |views'[n].maps|)
    ensures Reindexed(views, views', n)
  {
    EntryDone(views[n], views'[n], items0, row, p, |views'[n].maps|);
  }

  lemma ExitEnds(views: map<string, TableView>, views': map<string, TableView>, n: string, items0: seq<Item>, row: Row, p: RowPointer)
    requires LeavingIn(views, n, items0, row, p) && n in views' && Reindexing(views, views', n, |views'[n].maps|)
    ensures Reindexed(views, views', n)
  {
    ExitDone(views[n], views'[n], items0, row, p, |views'[n].maps|);
  }

  /** Hiding a row: first its slot is marked, then the indexes follow. */
  lemma HideStarts(views: map<string, TableView>, n: string, p: RowPointer, row: Row)
    requires HasRow(views, n, p, row, true)
    ensures n in views && HasSlot(views, n, p) && LeavingIn(MarkedIn(views, n, p, false), n, views[n].items, row, p)
  {
    RowLeaves(views[n], p, row);
  }

  lemma ShowStarts(views: map<string, TableView>, n: string, p: RowPointer, row: Row)
    requires HasRow(views, n, p, row, false)
    ensures n in views && HasSlot(views, n, p) && EnteringIn(MarkedIn(views, n, p, true), n, views[n].items, row, p)
  {
    RowReturns(views[n], p, row);
  }

  lemma MarkEnds(views: map<string, TableView>, views': map<string, TableView>, n: string, p: RowPointer, live: bool)
    requires n in views && Reindexed(MarkedIn(views, n, p, live), views', n)
    ensures Remarked(views, views', n, p, live)
  {
  }

  lemma InsertStarts(views: map<string, TableView>, views': map<string, TableView>, n: string, p: RowPointer, row: Row)
    requires RowAdded(views, views', n, p, row) && TableGood(views[n]) && RowMatches(views[n].schema, row) && RowStorable(row)
    ensures EnteringIn(views', n, views[n].items, row, p)
  {
    RowArrives(views[n], views'[n].items, p, row);
  }

  /** Undoing one record marks one slot, if any. */
  lemma UndoneMarks(views: map<string, TableView>, r: LogRecord)
    requires AllGood(views) && Undone(views, r)
    ensures r.InsertRecord? || r.DeleteRecord? ==> HasRow(views, r.table, r.pointer, r.row, r.InsertRecord?)
  {
  }

  lemma UndoneEnds(views: map<string, TableView>, views': map<string, TableView>, r: LogRecord)
    requires AllGood(views)
    requires if r.InsertRecord? || r.DeleteRecord? then Remarked(views, views', r.table, r.pointer, r.DeleteRecord?) else views' == views
    ensures AllGood(views') && UndoneOnce(views, views', r)
  {
  }

  ghost predicate UndoneOnce(views: map<string, TableView>, views': map<string, TableView>, r: LogRecord) {
    views'.Keys == views.Keys && forall m :: m in views ==>
      && views'[m].schema == views[m].schema && views'[m].columns == views[m].columns
      && views'[m].items == UndoMark(views[m].items, m, r)
  }

  // ---------- Slots stay ----------

  /** Every slot of every table is still there, with the same row under the same pointer. */
  ghost predicate SlotsKept(views: map<string, TableView>, views': map<string, TableView>) {
    forall n, p :: HasSlot(views, n, p) ==> HasSlot(views', n, p) && RowAt(views'[n].items, p) == RowAt(views[n].items, p)
  }

  lemma SlotsKeptTrans(a: map<string, TableView>, b: map<string, TableView>, c: map<string, TableView>)
    requires SlotsKept(a, b) && SlotsKept(b, c)
    ensures SlotsKept(a, c)
  {
    forall n, p | HasSlot(a, n, p) ensures HasSlot(c, n, p) && RowAt(c[n].items, p) == RowAt(a[n].items, p) {
      assert HasSlot(b, n, p);
    }
  }

  lemma SlotsKeptSame(views: map<string, TableView>)
    ensures SlotsKept(views, views)
  {
  }

  lemma {:induction false} MarkAllKeeps(items: seq<Item>, ps: seq<RowPointer>, p: RowPointer)
    ensures FindItem(items, p).Some? ==> FindItem(MarkAll(items, ps), p).Some?
    ensures RowAt(MarkAll(items, ps), p) == RowAt(items, p)
    decreases |ps|
  {
    if ps != [] {
      var n := |ps| - 1;
      MarkAllKeeps(items, ps[..n], p);
      FindMarked(MarkAll(items, ps[..n]), ps[n], false, p);
    }
  }

  /** Undoing a record changes no more than a flag. */
  lemma UndoneKeeps(views: map<string, TableView>, views': map<string, TableView>, r: LogRecord)
    requires UndoneOnce(views, views', r)
    ensures SlotsKept(views, views')
  {
    forall n, p | HasSlot(views, n, p) ensures HasSlot(views', n, p) && RowAt(views'[n].items, p) == RowAt(views[n].items, p) {
      if Touches(r, n) {
        FindMarked(views[n].items, r.pointer, r.DeleteRecord?, p);
      }
    }
  }

  /** Nor does an insertion move other rows. */
  lemma InsertedKeeps(views: map<string, TableView>, views': map<string, TableView>, n: string, p: RowPointer, row: Row)
    requires RowInserted(views, views', n, p, row) && AllGood(views')
    ensures SlotsKept(views, views')
  {
    AddedFinds(views[n].items, views'[n].items, Item(p, row, true));
  }

  // ---------- What the statements do ----------

  /** A live row with a new pointer was added to table `n`; nothing else changed in the rows of any table. */
  ghost predicate RowInserted(views: map<string, TableView>, views': map<string, TableView>, n: string, p: RowPointer, row: Row) {
    && n in views && n in views' && views' == views[n := views'[n]]
    && views'[n].schema == views[n].schema && views'[n].columns == views[n].columns
    && FindItem(views[n].items, p).None? && ItemAdded(views[n].items, views'[n].items, Item(p, row, true))
  }

  lemma GoodMeans(views: map<string, TableView>, log: seq<LogRecord>, active: Option<nat>, next: nat,
                  base: map<string, seq<(RowPointer, Row)>>)
    ensures Good(views, log, active, next, base) <==>
      && AllGood(views) && LogGood(log, active, next)
      && (active.Some? ==> Undoable(views, OfTxn(log, active.value), base) && base.Keys <= views.Keys)
  {
  }

  lemma GoodInserts(views: map<string, TableView>, views1: map<string, TableView>, views': map<string, TableView>, log: seq<LogRecord>,
                    t: nat, next: nat, base: map<string, seq<(RowPointer, Row)>>, n: string, p: RowPointer, row: Row)
    requires Good(views, log, Some(t), next, base)
    requires RowAdded(views, views1, n, p, row) && Reindexed(views1, views', n)
    ensures Good(views', log + [InsertRecord(t, n, row, p)], Some(t), next, base) && RowInserted(views, views', n, p, row)
  {
    hide *;
    var r := InsertRecord(t, n, row, p);
    GoodMeans(views, log, Some(t), next, base);
    InsertedViews(views, views1, views', n, p, row);
    LogAppend(log, Some(t), next, r);
    InsertedUndoable(views, views', OfTxn(log, t), r, base);
    GoodMeans(views', log + [r], Some(t), next, base);
  }

  lemma InsertedViews(views: map<string, TableView>, views1: map<string, TableView>, views': map<string, TableView>, n: string,
                      p: RowPointer, row: Row)
    requires AllGood(views) && RowAdded(views, views1, n, p, row) && Reindexed(views1, views', n)
    ensures AllGood(views') && RowInserted(views, views', n, p, row) && DistinctPointers(views'[n].items) && views'.Keys == views.Keys
  {
    hide TableGood, ItemAdded, DistinctPointers;
    AddedFinds(views[n].items, views'[n].items, Item(p, row, true));
  }

  lemma InsertedUndoable(views: map<string, TableView>, views': map<string, TableView>, rs: seq<LogRecord>, r: LogRecord,
                         base: map<string, seq<(RowPointer, Row)>>)
    requires Undoable(views, rs, base) && r.InsertRecord?
    requires RowInserted(views, views', r.table, r.pointer, r.row) && DistinctPointers(views'[r.table].items)
    ensures Undoable(views', rs + [r], base)
  {
    hide AsLogged, UndoItems, LiveRows, ItemAdded, DistinctPointers;
    var n := r.table;
    InsertLogged(views[n].items, views'[n].items, n, rs, r);
    UndoableStep(views, views', rs, r, base);
  }

  lemma GoodDeletes(views: map<string, TableView>, views': map<string, TableView>, log: seq<LogRecord>,
                    t: nat, next: nat, base: map<string, seq<(RowPointer, Row)>>, n: string, p: RowPointer, row: Row)
    requires Good(views, log, Some(t), next, base)
    requires HasRow(views, n, p, row, true) && Remarked(views, views', n, p, false)
    ensures Good(views', log + [DeleteRecord(t, n, row, p)], Some(t), next, base)
  {
    hide *;
    var r := DeleteRecord(t, n, row, p);
    GoodMeans(views, log, Some(t), next, base);
    DeletedViews(views, views', n, p, row);
    LogAppend(log, Some(t), next, r);
    DeletedUndoable(views, views', OfTxn(log, t), r, base);
    GoodMeans(views', log + [r], Some(t), next, base);
  }

  lemma DeletedViews(views: map<string, TableView>, views': map<string, TableView>, n: string, p: RowPointer, row: Row)
    requires AllGood(views) && HasRow(views, n, p, row, true) && Remarked(views, views', n, p, false)
    ensures AllGood(views') && views'.Keys == views.Keys
  {
    hide TableGood;
  }

  lemma DeletedUndoable(views: map<string, TableView>, views': map<string, TableView>, rs: seq<LogRecord>, r: LogRecord,
                        base: map<string, seq<(RowPointer, Row)>>)
    requires Undoable(views, rs, base) && r.DeleteRecord?
    requires HasRow(views, r.table, r.pointer, r.row, true) && Remarked(views, views', r.table, r.pointer, false)
    ensures Undoable(views', rs + [r], base)
  {
    var n := r.table;
    assert DistinctPointers(views[n].items);
    hide AsLogged, UndoItems, LiveRows, TableGood, DistinctPointers;
    DeleteLogged(views[n].items, n, rs, r);
    UndoableStep(views, views', rs, r, base);
  }

  /** A statement with this condition is refused: the table does not exist, or there are rows and the condition
      cannot be evaluated on them. */
  ghost predicate CannotFilter(views: map<string, TableView>, n: string, filter: Option<Where>) {
    n !in views || (LiveRows(views[n].items) != [] && WhereFails(views[n].schema, filter).Some?)
  }

  /** There are rows, and `e` is why the condition cannot be evaluated on them. */
  ghost predicate Fault(views: map<string, TableView>, n: string, filter: Option<Where>, e: WhereError) {
    n in views && LiveRows(views[n].items) != [] && WhereFails(views[n].schema, filter) == Some(e)
  }

  /** The answer to a query on table `n`. */
  ghost function AnswerOf(v: TableView, filter: Option<Where>): seq<(RowPointer, Row)>
    requires TableGood(v)
  {
    Answer(v.schema, v.items, filter)
  }

  /** The first `i` live rows of table `n` have been looked at, and those of them that satisfy the condition are gone. */
  ghost predicate Deleting(views: map<string, TableView>, views': map<string, TableView>, n: string, rows: seq<(RowPointer, Row)>,
                           filter: Option<Where>, i: nat)
  {
    && n in views && n in views' && views' == views[n := views'[n]] && TableGood(views[n])
    && views'[n].schema == views[n].schema && views'[n].columns == views[n].columns
    && rows == LiveRows(views[n].items) && i <= |rows|
    && (forall j :: 0 <= j < |rows| ==> RowMatches(views[n].schema, rows[j].1))
    && views'[n].items == MarkAll(views[n].items, PointersOf(Filtered(views[n].schema, rows[..i], filter)))
    && (i > 0 ==> WhereFails(views[n].schema, filter).None?)
    && (WhereFails(views[n].schema, filter).Some? ==> views' == views)
  }

  lemma DeletingStarts(views: map<string, TableView>, n: string, filter: Option<Where>)
    requires n in views && TableGood(views[n])
    ensures Deleting(views, views, n, LiveRows(views[n].items), filter, 0)
  {
    LiveRowsMatch(views[n].schema, views[n].items);
  }

  /** What the loop learns about its next row. */
  lemma DeletingNext(views: map<string, TableView>, views': map<string, TableView>, n: string, rows: seq<(RowPointer, Row)>,
                     filter: Option<Where>, i: nat)
    requires Deleting(views, views', n, rows, filter, i) && i < |rows|
    ensures n in views' && RowMatches(views'[n].schema, rows[i].1)
    ensures var verdict := MatchesWhere(views'[n].schema, rows[i].1, filter);
      verdict.Fails? ==> i == 0 && views' == views && CannotFilter(views, n, filter) && Fault(views, n, filter, verdict.error)
    ensures FindItem(views'[n].items, rows[i].0) == Some(Item(rows[i].0, rows[i].1, true))
  {
    var v := views[n];
    WhereFailsOnEveryRow(v.schema, rows[i].1, filter);
    hide MatchesWhere, WhereFails, LiveRows;
    NotYet(v.schema, v.items, filter, i);
    FindMarkAll(v.items, PointersOf(Filtered(v.schema, rows[..i], filter)), rows[i].0);
    LiveRowFound(v.items, i);
  }

  /** A row that does not satisfy the condition is passed over. */
  lemma DeletingSkip(views: map<string, TableView>, views': map<string, TableView>, n: string, rows: seq<(RowPointer, Row)>,
                     filter: Option<Where>, i: nat)
    requires Deleting(views, views', n, rows, filter, i) && i < |rows|
    requires n in views' && RowMatches(views'[n].schema, rows[i].1) && MatchesWhere(views'[n].schema, rows[i].1, filter) == Holds(false)
    ensures Deleting(views, views', n, rows, filter, i + 1)
    ensures KeptRows(views, n, rows, filter, i + 1) == KeptRows(views, n, rows, filter, i)
  {
    var v := views[n];
    WhereFailsOnEveryRow(v.schema, rows[i].1, filter);
    FilteredStep(v.schema, rows, filter, i);
    hide MatchesWhere, WhereFails, LiveRows, TableGood, MarkAll, Filtered, RowMatches, PointersOf;
    assert Filtered(v.schema, rows[..i], filter) + [] == Filtered(v.schema, rows[..i], filter);
  }

  /** Those of the first `i` rows that satisfy the condition. */
  ghost function KeptRows(views: map<string, TableView>, n: string, rows: seq<(RowPointer, Row)>, filter: Option<Where>, i: nat):
    seq<(RowPointer, Row)>
  {
    if n in views && i <= |rows| && (forall j :: 0 <= j < |rows| ==> RowMatches(views[n].schema, rows[j].1))
    then Filtered(views[n].schema, rows[..i], filter) else []
  }

  lemma FilteredStep(schema: Schema, rows: seq<(RowPointer, Row)>, filter: Option<Where>, i: nat)
    requires i < |rows| && forall j :: 0 <= j < |rows| ==> RowMatches(schema, rows[j].1)
    ensures Filtered(schema, rows[..i + 1], filter) == Filtered(schema, rows[..i], filter) + Kept(schema, rows[i], filter)
  {
    assert rows[..i + 1][..i] == rows[..i];
  }

  /** A row is not among the selected rows before it. */
  lemma {:induction false} NotYet(schema: Schema, items: seq<Item>, filter: Option<Where>, i: nat)
    requires RowsGood(schema, items) && i < |LiveRows(items)|
    ensures forall j :: 0 <= j < |LiveRows(items)| ==> RowMatches(schema, LiveRows(items)[j].1)
    ensures LiveRows(items)[i].0 !in PointersOf(Filtered(schema, LiveRows(items)[..i], filter))
  {
    LiveRowsMatch(schema, items);
    NotYetFrom(schema, items, filter, i, i);
  }

  lemma {:induction false} NotYetFrom(schema: Schema, items: seq<Item>, filter: Option<Where>, i: nat, k: nat)
    requires RowsGood(schema, items) && k <= i < |LiveRows(items)|
    requires forall j :: 0 <= j < |LiveRows(items)| ==> RowMatches(schema, LiveRows(items)[j].1)
    ensures LiveRows(items)[i].0 !in PointersOf(Filtered(schema, LiveRows(items)[..k], filter))
    decreases k
  {
    if k > 0 {
      var rows := LiveRows(items);
      NotYetFrom(schema, items, filter, i, k - 1);
      FilteredStep(schema, rows, filter, k - 1);
      LiveRowsDistinct(items, k - 1, i);
      PointersOfConcat(Filtered(schema, rows[..k - 1], filter), Kept(schema, rows[k - 1], filter));
    }
  }

  lemma DeletingStep(views: map<string, TableView>, views': map<string, TableView>, views'': map<string, TableView>, n: string,
                     rows: seq<(RowPointer, Row)>, filter: Option<Where>, i: nat)
    requires Deleting(views, views', n, rows, filter, i) && i < |rows|
    requires n in views' && RowMatches(views'[n].schema, rows[i].1) && MatchesWhere(views'[n].schema, rows[i].1, filter) == Holds(true)
    requires Remarked(views', views'', n, rows[i].0, false)
    ensures Deleting(views, views'', n, rows, filter, i + 1)
    ensures KeptRows(views, n, rows, filter, i + 1) == KeptRows(views, n, rows, filter, i) + [rows[i]]
  {
    var v := views[n];
    WhereFailsOnEveryRow(v.schema, rows[i].1, filter);
    FilteredStep(v.schema, rows, filter, i);
    var kept := Filtered(v.schema, rows[..i], filter);
    hide TableGood, MatchesWhere, WhereFails, Filtered, LiveRows, RowMatches, MarkAll, PointersOf;
    OneMoreMarked(v.items, kept, rows[i]);
  }

  lemma OneMoreMarked(items: seq<Item>, kept: seq<(RowPointer, Row)>, row: (RowPointer, Row))
    ensures MarkAll(items, PointersOf(kept + [row])) == Marked(MarkAll(items, PointersOf(kept)), row.0, false)
  {
    PointersOfConcat(kept, [row]);
    assert PointersOf([row]) == [row.0];
    assert (PointersOf(kept) + [row.0])[..|kept|] == PointersOf(kept);
  }

  /** Exactly the rows that satisfy the condition are gone from table `n`; the others are still there, in the same order. */
  ghost predicate RowsDeleted(views: map<string, TableView>, views': map<string, TableView>, n: string, filter: Option<Where>, count: nat) {
    && n in views && n in views' && views' == views[n := views'[n]] && TableGood(views[n])
    && views'[n].schema == views[n].schema && views'[n].columns == views[n].columns
    && |views'[n].items| == |views[n].items|
    && (forall j :: 0 <= j < |LiveRows(views[n].items)| ==> RowMatches(views[n].schema, LiveRows(views[n].items)[j].1))
    && LiveRows(views'[n].items) == Surviving(views[n].schema, LiveRows(views[n].items), filter)
    && count == |AnswerOf(views[n], filter)| && SlotsKept(views, views')
  }

  lemma DeletingEnds(views: map<string, TableView>, views': map<string, TableView>, n: string, rows: seq<(RowPointer, Row)>, filter: Option<Where>)
    requires Deleting(views, views', n, rows, filter, |rows|)
    ensures RowsDeleted(views, views', n, filter, |KeptRows(views, n, rows, filter, |rows|)|)
    ensures n in views && TableGood(views[n]) && KeptRows(views, n, rows, filter, |rows|) == AnswerOf(views[n], filter)
    ensures !CannotFilter(views, n, filter)
  {
    assert rows[..|rows|] == rows;
    var v := views[n];
    var ps := PointersOf(Answer(v.schema, v.items, filter));
    DeletionLeaves(v.schema, v.items, filter);
    hide TableGood, Filtered, LiveRows, MatchesWhere, MarkAll, SlotsKept, Surviving;
    AllMarkedKeeps(views, views', n, ps);
  }

  lemma AllMarkedKeeps(views: map<string, TableView>, views': map<string, TableView>, n: string, ps: seq<RowPointer>)
    requires n in views && n in views' && views' == views[n := views'[n]] && views'[n].items == MarkAll(views[n].items, ps)
    ensures SlotsKept(views, views')
  {
    forall m, p | HasSlot(views, m, p)
      ensures HasSlot(views', m, p) && RowAt(views'[m].items, p) == RowAt(views[m].items, p)
    {
      MarkAllKeeps(views[n].items, ps, p);
    }
  }

  /** The log grew by one record for each row that the condition selects, in scan order. */
  ghost predicate DeletionsLogged(views: map<string, TableView>, n: string, filter: Option<Where>, txid: nat,
                                  log: seq<LogRecord>, log': seq<LogRecord>)
  {
    n in views && TableGood(views[n]) && log' == log + Deletions(txid, n, AnswerOf(views[n], filter))
  }

  /** The same, between BEGIN and COMMIT if no transaction was open. */
  ghost predicate DeleteLog(views: map<string, TableView>, n: string, filter: Option<Where>, active: Option<nat>, next: nat,
                            log: seq<LogRecord>, log': seq<LogRecord>)
  {
    && n in views && TableGood(views[n])
    && log' == log + Bracketed(active, next, Deletions(WriteTxid(active, next), n, AnswerOf(views[n], filter)))
  }

  lemma DeletionsEnd(views: map<string, TableView>, n: string, filter: Option<Where>, txid: nat, kept: seq<(RowPointer, Row)>,
                     log: seq<LogRecord>, log': seq<LogRecord>)
    requires n in views && TableGood(views[n]) && kept == AnswerOf(views[n], filter) && log' == log + Deletions(txid, n, kept)
    ensures DeletionsLogged(views, n, filter, txid, log, log')
  {
  }

  lemma DeleteLogEnds(views: map<string, TableView>, n: string, filter: Option<Where>, active: Option<nat>, next: nat, txid: nat,
                      log0: seq<LogRecord>, log1: seq<LogRecord>, log2: seq<LogRecord>, log3: seq<LogRecord>)
    requires DeletionsLogged(views, n, filter, txid, log1, log2) && txid == WriteTxid(active, next)
    requires active.Some? ==> log1 == log0 && log3 == log2
    requires active.None? ==> log1 == log0 + [BeginRecord(next)] && log3 == log2 + [CommitRecord(next)]
    ensures DeleteLog(views, n, filter, active, next, log0, log3)
  {
    hide TableGood, AnswerOf, Deletions;
    BracketedLog(active, next, Deletions(txid, n, AnswerOf(views[n], filter)), log0, log1, log2, log3);
  }

  // ---------- New tables and new indexes ----------

  lemma GoodNewTable(views: map<string, TableView>, log: seq<LogRecord>, active: Option<nat>, next: nat,
                     base: map<string, seq<(RowPointer, Row)>>, n: string, schema: Schema)
    requires Good(views, log, active, next, base) && n !in views
    ensures Good(views[n := TableView(schema, [], [], [])], log, active, next, base)
  {
    hide LogGood, Undoable;
    if active.Some? {
      UndoableNewTable(views, n, TableView(schema, [], [], []), OfTxn(log, active.value), base);
    }
  }

  /** A further index on an INT column, built from the live rows. */
  lemma GoodNewIndex(views: map<string, TableView>, log: seq<LogRecord>, active: Option<nat>, next: nat,
                     base: map<string, seq<(RowPointer, Row)>>, n: string, column: string, c: nat, m: map<int, seq<RowPointer>>)
    requires Good(views, log, active, next, base) && n in views
    requires ColumnIndex(views[n].schema, column) == Some(c) && views[n].schema[c].columnType == IntType
    requires KeyedRows(LiveRows(views[n].items), c) && m == Built(LiveRows(views[n].items), c)
    ensures Good(views[n := views[n].(columns := views[n].columns + [column], maps := views[n].maps + [m])], log, active, next, base)
  {
    hide *;
    var v := views[n];
    var v' := v.(columns := v.columns + [column], maps := v.maps + [m]);
    GoodMeans(views, log, active, next, base);
    IndexedTable(views, n, column, c, m);
    if active.Some? {
      SameItemsButOne(views, n, v');
      UndoableSameItems(views, views[n := v'], OfTxn(log, active.value), base);
    }
    GoodMeans(views[n := v'], log, active, next, base);
  }

  lemma SameItemsButOne(views: map<string, TableView>, n: string, v: TableView)
    requires n in views && v.items == views[n].items
    ensures var views' := views[n := v]; views'.Keys == views.Keys && forall m :: m in views ==> views'[m].items == views[m].items
  {
  }

  lemma IndexedTable(views: map<string, TableView>, n: string, column: string, c: nat, m: map<int, seq<RowPointer>>)
    requires AllGood(views) && n in views
    requires ColumnIndex(views[n].schema, column) == Some(c) && views[n].schema[c].columnType == IntType
    requires KeyedRows(LiveRows(views[n].items), c) && m == Built(LiveRows(views[n].items), c)
    ensures AllGood(views[n := views[n].(columns := views[n].columns + [column], maps := views[n].maps + [m])])
  {
    var v := views[n];
    hide IndexAgrees, RowsGood, LiveRows, Built, KeyedRows;
    KeyedBySchema(v, c);
    BuiltAgrees(v.items, c);
    assert ColumnAgrees(v.schema, column, v.items, m);
  }

  lemma KeyedBySchema(v: TableView, c: nat)
    requires RowsGood(v.schema, v.items) && c < |v.schema| && v.schema[c].columnType == IntType
    ensures Keyed(v.items, c) && DistinctPointers(v.items) && KeyedRows(LiveRows(v.items), c)
  {
    LiveRowsKeyed(v.items, c);
  }

  // ---------- Queries ----------

  /** An equality with an integer on an indexed column can be answered by an index. */
  predicate Usable(columns: seq<string>, filter: Option<Where>) {
    filter.Some? && filter.value.op == EQ && filter.value.value.IntValue? && filter.value.column in columns
  }

  /** The rows are those that the condition selects; without an index they come in scan order. */
  ghost predicate SelectedRows(v: TableView, filter: Option<Where>, rows: seq<Row>) {
    && TableGood(v) && multiset(rows) == multiset(RowsOf(AnswerOf(v, filter)))
    && (!Usable(v.columns, filter) ==> rows == RowsOf(AnswerOf(v, filter)))
  }

  /** A usable index is on a column that the condition can be evaluated on. */
  lemma UsableFilters(views: map<string, TableView>, n: string, filter: Option<Where>)
    requires n in views && TableGood(views[n]) && Usable(views[n].columns, filter)
    ensures !CannotFilter(views, n, filter)
  {
    var i :| 0 <= i < |views[n].columns| && views[n].columns[i] == filter.value.column;
    assert ColumnAgrees(views[n].schema, views[n].columns[i], views[n].items, views[n].maps[i]);
  }

  /** Every pointer that the index lists for the key names a live row that satisfies the condition. */
  lemma ListedRow(v: TableView, i: nat, w: Where, p: RowPointer)
    requires TableGood(v) && i < |v.maps| && v.columns[i] == w.column && w.op == EQ && w.value.IntValue?
    requires p in Lookup(v.maps[i], w.value.n)
    ensures FindItem(v.items, p).Some? && FindItem(v.items, p).value.live
    ensures RowMatches(v.schema, FindItem(v.items, p).value.row)
    ensures MatchesWhere(v.schema, FindItem(v.items, p).value.row, Some(w)) == Holds(true)
  {
    assert ColumnAgrees(v.schema, v.columns[i], v.items, v.maps[i]);
    var c := ColumnIndex(v.schema, w.column).value;
    assert multiset(Lookup(v.maps[i], w.value.n))[p] > 0;
    assert Carries(v.items, c, w.value.n, p);
    FoundGood(v.schema, v.items, p);
  }

  lemma RowsThroughIndex(v: TableView, i: nat, w: Where)
    requires TableGood(v) && i < |v.maps| && v.columns[i] == w.column && w.op == EQ && w.value.IntValue?
    ensures SelectedRows(v, Some(w), RowsAt(v.items, Lookup(v.maps[i], w.value.n)))
  {
    assert ColumnAgrees(v.schema, v.columns[i], v.items, v.maps[i]);
    IndexedAnswer(v.schema, v.items, ColumnIndex(v.schema, w.column).value, v.maps[i], w);
    assert w.column in v.columns;
  }

  lemma RowsAtStep(items: seq<Item>, ps: seq<RowPointer>, j: nat)
    requires j < |ps|
    ensures RowsAt(items, ps[..j + 1]) == RowsAt(items, ps[..j]) + [RowAt(items, ps[j])]
  {
  }

  /** The loop of a full scan has looked at the first `i` live rows. */
  ghost predicate Scanning(v: TableView, rows: seq<(RowPointer, Row)>, filter: Option<Where>, i: nat, found: seq<Row>) {
    && TableGood(v) && rows == LiveRows(v.items) && i <= |rows|
    && (forall j :: 0 <= j < |rows| ==> RowMatches(v.schema, rows[j].1))
    && found == RowsOf(Filtered(v.schema, rows[..i], filter))
    && (i > 0 ==> WhereFails(v.schema, filter).None?)
  }

  lemma ScanningStarts(v: TableView, filter: Option<Where>)
    requires TableGood(v)
    ensures Scanning(v, LiveRows(v.items), filter, 0, [])
  {
    LiveRowsMatch(v.schema, v.items);
    assert LiveRows(v.items)[..0] == [];
  }

  lemma ScanningStep(v: TableView, rows: seq<(RowPointer, Row)>, filter: Option<Where>, i: nat, found: seq<Row>)
    requires Scanning(v, rows, filter, i, found) && i < |rows|
    ensures RowMatches(v.schema, rows[i].1)
    ensures var verdict := MatchesWhere(v.schema, rows[i].1, filter);
      if verdict.Fails? then WhereFails(v.schema, filter) == Some(verdict.error) && LiveRows(v.items) != []
      else Scanning(v, rows, filter, i + 1, if verdict.b then found + [rows[i].1] else found)
  {
    WhereFailsOnEveryRow(v.schema, rows[i].1, filter);
    FilteredStep(v.schema, rows, filter, i);
    var kept, more := Filtered(v.schema, rows[..i], filter), Kept(v.schema, rows[i], filter);
    assert RowsOf(kept + more) == RowsOf(kept) + RowsOf(more);
    assert RowsOf([rows[i]]) == [rows[i].1];
    hide WhereFails, MatchesWhere, TableGood, LiveRows;
  }

  lemma ScanningEnds(views: map<string, TableView>, n: string, rows: seq<(RowPointer, Row)>, filter: Option<Where>, found: seq<Row>)
    requires n in views && Scanning(views[n], rows, filter, |rows|, found)
    ensures SelectedRows(views[n], filter, found) && !CannotFilter(views, n, filter)
  {
    assert rows[..|rows|] == rows;
  }
}
