/** The write-ahead log as the transaction manager writes it, and what undoing a part of it does to a table. */
module TxnLog {
  import opened Storage
  import opened HeapModel
  import opened HeapFiles
  import opened Records
  import opened Tables

  datatype LogRecord =
    | BeginRecord(txid: nat)
    | CommitRecord(txid: nat)
    | RollbackRecord(txid: nat)
    | InsertRecord(txid: nat, table: string, row: Row, pointer: RowPointer)
    | DeleteRecord(txid: nat, table: string, row: Row, pointer: RowPointer)

  // ---------- The shape of the log ----------

  /** The records of one transaction, in log order. */
  function OfTxn(log: seq<LogRecord>, txid: nat): seq<LogRecord> {
    if log == [] then []
    else
      var n := |log| - 1;
      OfTxn(log[..n], txid) + if log[n].txid == txid then [log[n]] else []
  }

  /** The largest transaction id in use, 0 for none. */
  function LastTxid(log: seq<LogRecord>): nat {
    if log == [] then 0
    else
      var n := |log| - 1;
      var m := LastTxid(log[..n]);
      if log[n].txid > m then log[n].txid else m
  }

  /** The transaction that the last record belongs to, if it is still open. */
  function OpenTxn(log: seq<LogRecord>): Option<nat> {
    if log == [] then None
    else match log[|log| - 1]
      case CommitRecord(_) => None
      case RollbackRecord(_) => None
      case r => Some(r.txid)
  }

  /** Transactions follow one another: each starts with a BEGIN record and a txid above all earlier ones,
      and every other record belongs to the transaction of the record before it. The last record of a
      transaction may be missing, when the program stopped before writing it. */
  ghost predicate Sequential(log: seq<LogRecord>) {
    log == [] ||
    var n := |log| - 1;
    && Sequential(log[..n])
    && if log[n].BeginRecord? then log[n].txid > LastTxid(log[..n]) else OpenTxn(log[..n]) == Some(log[n].txid)
  }

  lemma {:induction false} TxidsBelow(log: seq<LogRecord>, i: nat)
    requires i < |log|
    ensures log[i].txid <= LastTxid(log)
    decreases |log|
  {
    if i < |log| - 1 {
      TxidsBelow(log[..|log| - 1], i);
    }
  }

  /** An unused id selects nothing. */
  lemma {:induction false} UnusedTxid(log: seq<LogRecord>, txid: nat)
    requires txid > LastTxid(log)
    ensures OfTxn(log, txid) == []
  {
    if log != [] {
      UnusedTxid(log[..|log| - 1], txid);
    }
  }

  /** The open transaction has the largest id. */
  lemma {:induction false} OpenIsLast(log: seq<LogRecord>)
    requires Sequential(log)
    ensures log != [] ==> log[|log| - 1].txid == LastTxid(log)
  {
    if log != [] {
      var n := |log| - 1;
      OpenIsLast(log[..n]);
      if !log[n].BeginRecord? {
        assert OpenTxn(log[..n]) == Some(log[n].txid);
        assert log[n - 1] == log[..n][n - 1];
      }
    }
  }

  /** Where the block of the last record starts. */
  ghost function BlockStart(log: seq<LogRecord>): nat
    requires Sequential(log) && log != []
    ensures BlockStart(log) < |log|
  {
    var n := |log| - 1;
    if log[n].BeginRecord? then n else BlockStart(log[..n])
  }

  /** Filtering the log by the open transaction's id gives exactly the records from its BEGIN on:
      no record of another transaction lies in between, and no earlier record carries the same id. */
  lemma {:induction false} OfTxnIsBlock(log: seq<LogRecord>)
    requires Sequential(log) && log != []
    ensures var b := BlockStart(log); log[b].BeginRecord? && OfTxn(log, log[|log| - 1].txid) == log[b..]
    decreases |log|
  {
    var n := |log| - 1;
    if log[n].BeginRecord? {
      UnusedTxid(log[..n], log[n].txid);
      assert log[n..] == [log[n]];
    } else {
      SameTxn(log);
      OfTxnIsBlock(log[..n]);
      var b := BlockStart(log[..n]);
      hide Sequential, BlockStart, OpenTxn, LastTxid;
      SliceGrows(log, b, n);
    }
  }

  lemma SliceGrows(log: seq<LogRecord>, b: nat, n: nat)
    requires b <= n < |log| && n == |log| - 1
    ensures log[..n][b..] + [log[n]] == log[b..]
  {
  }

  lemma SameTxn(log: seq<LogRecord>)
    requires Sequential(log) && log != [] && !log[|log| - 1].BeginRecord?
    ensures |log| >= 2 && log[|log| - 2].txid == log[|log| - 1].txid
    ensures log[..|log| - 1][|log| - 2] == log[|log| - 2]
  {
  }

  lemma {:induction false} BlockIsNew(log: seq<LogRecord>, i: nat)
    requires Sequential(log) && log != [] && i < BlockStart(log)
    ensures log[i].txid < log[BlockStart(log)].txid
    decreases |log|
  {
    var n := |log| - 1;
    if log[n].BeginRecord? {
      TxidsBelow(log[..n], i);
    } else {
      BlockIsNew(log[..n], i);
    }
  }

  // ---------- Undo on the slots of one table ----------

  /** The record changed the slot `pointer` of table `name`. */
  predicate Touches(r: LogRecord, name: string) {
    (r.InsertRecord? || r.DeleteRecord?) && r.table == name
  }

  /** Undoing one record: an inserted row dies, a deleted one lives again. */
  function UndoMark(items: seq<Item>, name: string, r: LogRecord): seq<Item> {
    if Touches(r, name) then Marked(items, r.pointer, r.DeleteRecord?) else items
  }

  /** Undoing records, last one first. */
  function UndoItems(items: seq<Item>, name: string, rs: seq<LogRecord>): seq<Item>
    decreases |rs|
  {
    if rs == [] then items
    else UndoItems(UndoMark(items, name, rs[|rs| - 1]), name, rs[..|rs| - 1])
  }

  /** What the first record about a slot says about the time before it. */
  function FlagBefore(rs: seq<LogRecord>, name: string, p: RowPointer): Option<bool> {
    if rs == [] then None
    else if Touches(rs[0], name) && rs[0].pointer == p then Some(rs[0].DeleteRecord?)
    else FlagBefore(rs[1..], name, p)
  }

  lemma {:induction false} FlagBeforeSplit(rs: seq<LogRecord>, r: LogRecord, name: string, p: RowPointer)
    ensures FlagBefore(rs + [r], name, p) ==
      if FlagBefore(rs, name, p).Some? then FlagBefore(rs, name, p)
      else if Touches(r, name) && r.pointer == p then Some(r.DeleteRecord?) else None
  {
    if rs == [] {
      assert [r][1..] == [];
    } else {
      assert (rs + [r])[1..] == rs[1..] + [r];
      FlagBeforeSplit(rs[1..], r, name, p);
    }
  }

  function WithFlag(item: Item, flag: Option<bool>): Item {
    match flag
    case None => item
    case Some(live) => item.(live := live)
  }

  /** Whatever the flags were, a full pass of undo leaves each slot that the records touch with the flag
      it had before them, and does nothing to the others. */
  lemma {:induction false} UndoSettles(items: seq<Item>, name: string, rs: seq<LogRecord>)
    ensures |UndoItems(items, name, rs)| == |items|
    ensures forall i :: 0 <= i < |items| ==>
      UndoItems(items, name, rs)[i] == WithFlag(items[i], FlagBefore(rs, name, items[i].pointer))
    decreases |rs|
  {
    if rs != [] {
      var n := |rs| - 1;
      var items' := UndoMark(items, name, rs[n]);
      UndoSettles(items', name, rs[..n]);
      assert rs == rs[..n] + [rs[n]];
      forall i | 0 <= i < |items|
        ensures UndoItems(items, name, rs)[i] == WithFlag(items[i], FlagBefore(rs, name, items[i].pointer))
      {
        FlagBeforeSplit(rs[..n], rs[n], name, items[i].pointer);
      }
    }
  }

  /** The same slots, with flags that differ at most where the records go. */
  ghost predicate SameButTouched(a: seq<Item>, b: seq<Item>, name: string, rs: seq<LogRecord>) {
    |a| == |b| && forall i :: 0 <= i < |a| ==>
      && b[i].pointer == a[i].pointer && b[i].row == a[i].row
      && (FlagBefore(rs, name, a[i].pointer).None? ==> b[i].live == a[i].live)
  }

  /** Undo may be interrupted at any point and started again: the slots end up the same. */
  lemma UndoRestartable(a: seq<Item>, b: seq<Item>, name: string, rs: seq<LogRecord>)
    requires SameButTouched(a, b, name, rs)
    ensures UndoItems(a, name, rs) == UndoItems(b, name, rs)
    ensures UndoItems(UndoItems(a, name, rs), name, rs) == UndoItems(a, name, rs)
  {
    UndoSettles(a, name, rs);
    UndoSettles(b, name, rs);
    UndoSettles(UndoItems(a, name, rs), name, rs);
  }

  // ---------- A table inside a transaction ----------

  /** The slots are as the records left them: going back through the records, each finds its slot with the row it
      names, live after an insertion and dead after a deletion. */
  ghost predicate AsLogged(items: seq<Item>, name: string, rs: seq<LogRecord>)
    decreases |rs|
  {
    rs == [] ||
    var r := rs[|rs| - 1];
    && (Touches(r, name) ==> FindItem(items, r.pointer) == Some(Item(r.pointer, r.row, r.InsertRecord?)))
    && AsLogged(UndoMark(items, name, r), name, rs[..|rs| - 1])
  }

  /** Every slot named by the records exists. */
  lemma {:induction false} LoggedKnown(items: seq<Item>, name: string, rs: seq<LogRecord>, p: RowPointer)
    requires AsLogged(items, name, rs) && FindItem(items, p).None?
    ensures FlagBefore(rs, name, p).None?
    decreases |rs|
  {
    if rs != [] {
      var n := |rs| - 1;
      var r := rs[n];
      if Touches(r, name) {
        FindMarked(items, r.pointer, r.DeleteRecord?, p);
      }
      LoggedKnown(UndoMark(items, name, r), name, rs[..n], p);
      assert rs == rs[..n] + [r];
      FlagBeforeSplit(rs[..n], r, name, p);
    }
  }

  lemma InsertMarked(items: seq<Item>, k: nat, x: Item, p: RowPointer, live: bool)
    requires k <= |items|
    ensures Marked(InsertItem(items, k, x), p, live) ==
      InsertItem(Marked(items, p, live), k, if x.pointer == p then x.(live := live) else x)
  {
  }

  /** A slot that the records do not touch may be present or absent. */
  lemma {:induction false} UndoWithout(items: seq<Item>, k: nat, x: Item, name: string, rs: seq<LogRecord>)
    requires k <= |items| && FlagBefore(rs, name, x.pointer).None?
    ensures k <= |UndoItems(items, name, rs)|
    ensures UndoItems(InsertItem(items, k, x), name, rs) == InsertItem(UndoItems(items, name, rs), k, x)
    decreases |rs|
  {
    if rs != [] {
      var n := |rs| - 1;
      var r := rs[n];
      assert rs == rs[..n] + [r];
      FlagBeforeSplit(rs[..n], r, name, x.pointer);
      if Touches(r, name) {
        InsertMarked(items, k, x, r.pointer, r.DeleteRecord?);
      }
      UndoWithout(UndoMark(items, name, r), k, x, name, rs[..n]);
    }
  }

  lemma {:induction false} LoggedWithout(items: seq<Item>, k: nat, x: Item, name: string, rs: seq<LogRecord>)
    requires k <= |items| && FlagBefore(rs, name, x.pointer).None? && AsLogged(items, name, rs)
    ensures AsLogged(InsertItem(items, k, x), name, rs)
    decreases |rs|
  {
    if rs != [] {
      var n := |rs| - 1;
      var r := rs[n];
      assert rs == rs[..n] + [r];
      FlagBeforeSplit(rs[..n], r, name, x.pointer);
      if Touches(r, name) {
        FindElsewhere(items, k, x, r.pointer);
        InsertMarked(items, k, x, r.pointer, r.DeleteRecord?);
      }
      LoggedWithout(UndoMark(items, name, r), k, x, name, rs[..n]);
    }
  }

  lemma DeadRowUnseen(items: seq<Item>, k: nat, x: Item)
    requires k <= |items| && !x.live
    ensures LiveRows(InsertItem(items, k, x)) == LiveRows(items)
  {
    var a, b := items[..k], items[k..];
    assert items == a + b && InsertItem(items, k, x) == a + [x] + b;
    assert [x][..0] == [];
    assert LiveRows([x]) == LiveRows([]) + LiveRow(x);
    hide LiveRows;
    LiveRowsConcat(a, b);
    LiveRowsConcat(a + [x], b);
    LiveRowsConcat(a, [x]);
  }

  /** A logged insertion: the table is as logged, and undo would give the same live rows as before. */
  lemma InsertLogged(items: seq<Item>, items': seq<Item>, name: string, rs: seq<LogRecord>, r: LogRecord)
    requires AsLogged(items, name, rs) && r.InsertRecord? && r.table == name
    requires ItemAdded(items, items', Item(r.pointer, r.row, true)) && DistinctPointers(items')
    ensures AsLogged(items', name, rs + [r])
    ensures LiveRows(UndoItems(items', name, rs + [r])) == LiveRows(UndoItems(items, name, rs))
  {
    var x := Item(r.pointer, r.row, true);
    var k :| 0 <= k <= |items| && items' == InsertItem(items, k, x);
    AddedFinds(items, items', x);
    LoggedKnown(items, name, rs, r.pointer);
    InsertMarked(items, k, x, r.pointer, false);
    MarkAbsent(items, r.pointer, false);
    var dead := x.(live := false);
    assert UndoMark(items', name, r) == InsertItem(items, k, dead);
    LastLogged(items', name, rs, r);
    hide *;
    LoggedWithout(items, k, dead, name, rs);
    UndoWithout(items, k, dead, name, rs);
    DeadRowUnseen(UndoItems(items, name, rs), k, dead);
  }

  /** The newest record is the first to be undone. */
  lemma LastLogged(items: seq<Item>, name: string, rs: seq<LogRecord>, r: LogRecord)
    ensures UndoItems(items, name, rs + [r]) == UndoItems(UndoMark(items, name, r), name, rs)
    ensures AsLogged(items, name, rs + [r]) <==>
      && (Touches(r, name) ==> FindItem(items, r.pointer) == Some(Item(r.pointer, r.row, r.InsertRecord?)))
      && AsLogged(UndoMark(items, name, r), name, rs)
  {
    hide FindItem, UndoMark;
    assert (rs + [r])[..|rs|] == rs;
  }

  lemma MarkAbsent(items: seq<Item>, p: RowPointer, live: bool)
    requires FindItem(items, p).None?
    ensures Marked(items, p, live) == items
  {
  }

  /** A logged deletion of a live row. */
  lemma DeleteLogged(items: seq<Item>, name: string, rs: seq<LogRecord>, r: LogRecord)
    requires AsLogged(items, name, rs) && DistinctPointers(items) && r.DeleteRecord? && r.table == name
    requires FindItem(items, r.pointer) == Some(Item(r.pointer, r.row, true))
    ensures AsLogged(Marked(items, r.pointer, false), name, rs + [r])
    ensures UndoItems(Marked(items, r.pointer, false), name, rs + [r]) == UndoItems(items, name, rs)
  {
    var items' := Marked(items, r.pointer, false);
    assert (rs + [r])[..|rs|] == rs;
    FindMarked(items, r.pointer, false, r.pointer);
    MarkedTwice(items, r.pointer, false, true);
    MarkedSame(items, r.pointer);
    assert UndoMark(items', name, r) == items;
  }

  /** Records about other tables, and the records that open and close transactions, leave a table alone. */
  lemma OtherLogged(items: seq<Item>, name: string, rs: seq<LogRecord>, r: LogRecord)
    requires AsLogged(items, name, rs) && !Touches(r, name)
    ensures AsLogged(items, name, rs + [r])
    ensures UndoItems(items, name, rs + [r]) == UndoItems(items, name, rs)
  {
    assert (rs + [r])[..|rs|] == rs;
  }

  // ---------- What a statement adds to the log ----------

  /** The transaction that a statement works in. */
  function WriteTxid(active: Option<nat>, next: nat): nat {
    if active.Some? then active.value else next
  }

  /** The records of one statement, as a transaction of their own if none is open. */
  function Bracketed(active: Option<nat>, next: nat, records: seq<LogRecord>): seq<LogRecord> {
    if active.Some? then records else [BeginRecord(next)] + records + [CommitRecord(next)]
  }

  /** The records that a refused statement leaves behind: it began and rolled back a transaction of its own, unless one was
      open or the table is missing. */
  function RefusedLog(known: bool, active: Option<nat>, next: nat): seq<LogRecord> {
    if known && active.None? then [BeginRecord(next), RollbackRecord(next)] else []
  }

  /** The next transaction id after a statement that writes. */
  function NextAfter(known: bool, active: Option<nat>, next: nat): nat {
    if known && active.None? then next + 1 else next
  }

  lemma RefusedMeans(known: bool, active: Option<nat>, next: nat, log: seq<LogRecord>)
    ensures NextAfter(known, active, next) == next + if known && active.None? then 1 else 0
    ensures known && active.None? ==> log + [BeginRecord(next)] + [RollbackRecord(next)] == log + RefusedLog(known, active, next)
    ensures !known || active.Some? ==> log == log + RefusedLog(known, active, next)
  {
  }

  function Deletions(txid: nat, name: string, rows: seq<(RowPointer, Row)>): seq<LogRecord> {
    seq(|rows|, i requires 0 <= i < |rows| => DeleteRecord(txid, name, rows[i].1, rows[i].0))
  }

  /** The log grew by the record of one inserted row, between BEGIN and COMMIT if no transaction was open. */
  ghost predicate InsertLog(name: string, row: Row, p: RowPointer, active: Option<nat>, next: nat, log: seq<LogRecord>, log': seq<LogRecord>) {
    log' == log + Bracketed(active, next, [InsertRecord(WriteTxid(active, next), name, row, p)])
  }

  lemma InsertLogEnds(name: string, row: Row, p: RowPointer, active: Option<nat>, next: nat, txid: nat,
                      log0: seq<LogRecord>, log1: seq<LogRecord>, log2: seq<LogRecord>, log3: seq<LogRecord>)
    requires txid == WriteTxid(active, next) && log2 == log1 + [InsertRecord(txid, name, row, p)]
    requires active.Some? ==> log1 == log0 && log3 == log2
    requires active.None? ==> log1 == log0 + [BeginRecord(next)] && log3 == log2 + [CommitRecord(next)]
    ensures InsertLog(name, row, p, active, next, log0, log3)
  {
    BracketedLog(active, next, [InsertRecord(txid, name, row, p)], log0, log1, log2, log3);
  }

  lemma DeletionsGrow(txid: nat, name: string, rows: seq<(RowPointer, Row)>, row: (RowPointer, Row))
    ensures Deletions(txid, name, rows + [row]) == Deletions(txid, name, rows) + [DeleteRecord(txid, name, row.1, row.0)]
    ensures Deletions(txid, name, []) == []
  {
  }

  lemma BracketedLog(active: Option<nat>, next: nat, records: seq<LogRecord>,
                     log0: seq<LogRecord>, log1: seq<LogRecord>, log2: seq<LogRecord>, log3: seq<LogRecord>)
    requires log2 == log1 + records
    requires active.Some? ==> log1 == log0 && log3 == log2
    requires active.None? ==> log1 == log0 + [BeginRecord(next)] && log3 == log2 + [CommitRecord(next)]
    ensures log3 == log0 + Bracketed(active, next, records)
  {
  }
}
