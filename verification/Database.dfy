/** The engine as a whole: page file, catalog, log and the statements that work on them. */
module Engine {
  import opened Storage
  import opened BigEndian
  import Utf8
  import opened EntryList
  import opened TreeModel
  import opened TreePath
  import opened TreeDelete
  import opened TreeGrowth
  import opened TreeTheorems
  import opened StaleRoots
  import opened BPlusTrees
  import opened NodeFit
  import opened HeapModel
  import opened HeapFiles
  import opened HeapPages
  import opened Records
  import opened Statements
  import opened Tables
  import opened TxnLog
  import opened Parts
  import opened Agreement
  import opened Answers
  import opened Sparseness

  datatype SqlError =
    | NoSuchTable | TableExists | BadSchema | IndexExists | NotAnIntColumn
    | BadWhere(reason: WhereError) | BadInsert(cause: HeapError) | AlreadyActive | NoTransaction

  datatype Reply<+T> = Answered(value: T) | Refused(error: SqlError)

  /** The first transaction id not in use. */
  method LoadNextTxid(log: seq<LogRecord>) returns (next: nat)
    ensures next == LastTxid(log) + 1
    ensures forall i :: 0 <= i < |log| ==> log[i].txid < next
    ensures next > 1 ==> exists i :: 0 <= i < |log| && log[i].txid == next - 1
    ensures next >= 1 && (log == [] ==> next == 1)
  {
    var m := 0;
    for i := 0 to |log|
      invariant m == LastTxid(log[..i])
      invariant forall j :: 0 <= j < i ==> log[j].txid <= m
      invariant m > 0 ==> exists j :: 0 <= j < i && log[j].txid == m
    {
      assert log[..i + 1][..i] == log[..i];
      if log[i].txid > m {
        m := log[i].txid;
      }
    }
    assert log[..|log|] == log;
    return m + 1;
  }

  class Database {
    const pager: Pager
    var tables: map<string, TableMeta>
    var log: seq<LogRecord>
    var nextTxid: nat
    var activeTxid: Option<nat>
    ghost var parts: map<PartKey, Part>
    /** The tables with the contents of their heaps and indexes. */
    ghost var view: map<string, TableView>
    /** The live rows of each table when the open transaction began. */
    ghost var base: map<string, seq<(RowPointer, Row)>>

    /** A new database file, with page 0 set aside for the catalog, and the log found next to it. */
    constructor (wal: seq<LogRecord>)
      requires Sequential(wal)
      ensures Stored() && view == map[] && log == wal && activeTxid == None && LastTxid(wal) < nextTxid
      ensures wal == [] ==> nextTxid == 1
      ensures |pager.pages| == 1 && !InUse(parts, 0) && !pager.oversize
    {
      pager := new Pager();
      tables, log, activeTxid, parts, view, base := map[], wal, None, map[], map[], map[];
      var next := LoadNextTxid(wal);
      nextTxid := next;
      new;
      var catalogPage := pager.AllocatePage();
    }

    /** The catalog and the pages fit together. */
    ghost predicate Stored()
      reads this`tables, this`parts, this`view, pager
    {
      PartsInv(pager.pages, parts) && Linked(tables, parts) && view == Views(tables, parts)
    }

    ghost predicate Valid()
      reads this, pager
    {
      Stored() && Good(view, log, activeTxid, nextTxid, base)
    }

    // ---------- Transactions ----------

    lemma ValidMeans()
      ensures Valid() <==> Stored() && Good(view, log, activeTxid, nextTxid, base)
    {
    }

    method Begin() returns (r: Reply<nat>)
      requires Valid()
      modifies this`log, this`nextTxid, this`activeTxid, this`base
      ensures Valid()
      ensures r == if old(activeTxid).Some? then Refused(AlreadyActive) else Answered(old(nextTxid))
      ensures r.Refused? ==> log == old(log) && activeTxid == old(activeTxid) && base == old(base) && nextTxid == old(nextTxid)
      ensures r.Answered? ==> activeTxid == Some(r.value) && base == LiveOf(view) && log == old(log) + [BeginRecord(r.value)]
      ensures r.Answered? ==> OfTxn(log, r.value) == [BeginRecord(r.value)] && nextTxid == old(nextTxid) + 1
    {
      hide *;
      ValidMeans();
      if activeTxid.Some? {
        return Refused(AlreadyActive);
      }
      var txid := nextTxid;
      GoodBegins(view, log, nextTxid, base);
      nextTxid := nextTxid + 1;
      activeTxid := Some(txid);
      log := log + [BeginRecord(txid)];
      base := LiveOf(view);
      ValidMeans();
      return Answered(txid);
    }

    method Commit() returns (r: Reply<()>)
      requires Valid()
      modifies this`log, this`activeTxid
      ensures Valid()
      ensures r == if old(activeTxid).None? then Refused(NoTransaction) else Answered(())
      ensures activeTxid == None
      ensures log == if old(activeTxid).None? then old(log) else old(log) + [CommitRecord(old(activeTxid).value)]
    {
      hide *;
      ValidMeans();
      if activeTxid.None? {
        return Refused(NoTransaction);
      }
      var txid := activeTxid.value;
      GoodCommits(view, log, txid, nextTxid, base);
      log := log + [CommitRecord(txid)];
      activeTxid := None;
      ValidMeans();
      return Answered(());
    }

    /** Undoes the open transaction. Unless an index lost its root on the way, every table has exactly the live rows,
        in the same scan order, that it had when the transaction began. */
    method Rollback() returns (r: Reply<()>, moved: bool)
      requires Valid()
      modifies this`log, this`activeTxid, this`parts, this`view, this`tables, pager
      ensures r == if old(activeTxid).None? then Refused(NoTransaction) else Answered(())
      ensures !moved ==> Valid() && activeTxid == None && Evolved(old(pager.pages), old(parts), old(tables), pager.pages, parts, tables)
      ensures !moved ==> log == if old(activeTxid).None? then old(log) else old(log) + [RollbackRecord(old(activeTxid).value)]
      ensures old(activeTxid).Some? && !moved ==> RowsAsBefore(view, old(base))
      ensures !moved ==> SlotsKept(old(view), view)
      ensures old(activeTxid).None? || NoChanges(OfTxn(old(log), old(activeTxid).value)) ==>
        !moved && view == old(view) && pager.oversize == old(pager.oversize)
      ensures moved ==> RootLost(tables, pager.pages)
      ensures |old(pager.pages)| <= |pager.pages|
      ensures old(activeTxid).Some? && FewWhileUndoing(old(view), OfTxn(old(log), old(activeTxid).value)) && |pager.pages| <= NO_PAGE ==>
        pager.oversize == old(pager.oversize)
    {
      hide *;
      EvolvedSame(pager.pages, parts, tables);
      SlotsKeptSame(view);
      ValidMeans();
      ViewStorable();
      if activeTxid.None? {
        return Refused(NoTransaction), false;
      }
      var records := OpenRecords();
      moved := UndoRecords(records);
      r := Answered(());
      if !moved {
        CloseUndone();
      }
    }

    /** The records of the open transaction. */
    method OpenRecords() returns (records: seq<LogRecord>)
      requires Valid() && activeTxid.Some?
      ensures records == OfTxn(log, activeTxid.value) && Stored() && AllGood(view) && Undoable(view, records, base)
      ensures LogGood(log, activeTxid, nextTxid) && base.Keys <= view.Keys
    {
      records := OfTxn(log, activeTxid.value);
    }

    /** Writes the last record of a transaction that has been undone. */
    method CloseUndone()
      requires Stored() && AllGood(view) && Undoable(view, [], base) && activeTxid.Some? && LogGood(log, activeTxid, nextTxid)
      modifies this`log, this`activeTxid
      ensures Valid() && activeTxid == None && log == old(log) + [RollbackRecord(old(activeTxid).value)]
      ensures RowsAsBefore(view, base)
    {
      hide *;
      var txid := activeTxid.value;
      GoodRolledBack(view, log, txid, nextTxid, base);
      log := log + [RollbackRecord(txid)];
      activeTxid := None;
      ValidMeans();
    }

    /** Undoes the records, last one first. */
    method UndoRecords(records: seq<LogRecord>) returns (moved: bool)
      requires Stored() && AllGood(view) && Undoable(view, records, base)
      modifies this`parts, this`view, this`tables, pager
      ensures !moved ==> Stored() && AllGood(view) && Undoable(view, [], base) && SlotsKept(old(view), view)
      ensures !moved ==> Evolved(old(pager.pages), old(parts), old(tables), pager.pages, parts, tables)
      ensures NoChanges(records) ==> !moved && view == old(view) && pager.oversize == old(pager.oversize)
      ensures moved ==> RootLost(tables, pager.pages)
      ensures |old(pager.pages)| <= |pager.pages|
      ensures StorableViews(old(view)) && FewWhileUndoing(old(view), records) && |pager.pages| <= NO_PAGE ==>
        pager.oversize == old(pager.oversize)
    {
      hide Stored, AllGood, Undoable, Evolved, RootLost, SlotsKept, UndoneOnce, UndoneSince, StorableViews, FewWhileUndoing, AllSparse;
      EvolvedSame(pager.pages, parts, tables);
      SlotsKeptSame(view);
      UndoneSinceStarts(view);
      assert records[..|records|] == records && records[|records|..] == [];
      for j := |records| downto 0
        invariant Stored() && AllGood(view) && Undoable(view, records[..j], base) && SlotsKept(old(view), view)
        invariant Evolved(old(pager.pages), old(parts), old(tables), pager.pages, parts, tables)
        invariant NoChanges(records) ==> view == old(view) && pager.oversize == old(pager.oversize)
        invariant UndoneSince(old(view), view, records[j..]) && |old(pager.pages)| <= |pager.pages|
        invariant StorableViews(old(view)) && FewWhileUndoing(old(view), records) && |pager.pages| <= NO_PAGE ==>
          pager.oversize == old(pager.oversize)
      {
        label L:
        ghost var views, rs := view, records[..j + 1];
        SparseWhileUndoing(old(view), view, records, j + 1);
        assert rs[..j] == records[..j] && rs[j] == records[j];
        LastRecord(views, rs, base);
        moved := UndoRecord(records[j]);
        if moved {
          return;
        }
        UndoneSinceGrows(old(view), views, view, records, j);
        SparseWhileUndoing(old(view), view, records, j);
        UndoableBack(views, view, rs, base);
        UndoneKeeps(views, view, records[j]);
        SlotsKeptTrans(old(view), views, view);
        EvolvedTrans(old(pager.pages), old(parts), old(tables), old@L(pager.pages), old@L(parts), old@L(tables), pager.pages, parts, tables);
      }
      moved := false;
      assert records[..0] == [];
    }

    /** Undoes one record: the slot gets its flag back, and the indexes follow. */
    method UndoRecord(r: LogRecord) returns (moved: bool)
      requires Stored() && AllGood(view) && Undone(view, r)
      modifies this`parts, this`view, this`tables, pager
      ensures !moved ==> Stored() && AllGood(view) && UndoneOnce(old(view), view, r)
      ensures !moved ==> Evolved(old(pager.pages), old(parts), old(tables), pager.pages, parts, tables)
      ensures !r.InsertRecord? && !r.DeleteRecord? ==> !moved && view == old(view) && pager.oversize == old(pager.oversize)
      ensures moved ==> RootLost(tables, pager.pages)
      ensures |old(pager.pages)| <= |pager.pages|
      ensures AllSparse(old(view)) && (!moved ==> AllSparse(view)) && |pager.pages| <= NO_PAGE ==> pager.oversize == old(pager.oversize)
    {
      hide *;
      EvolvedSame(pager.pages, parts, tables);
      UndoneMarks(view, r);
      AllSparseMeans(view);
      moved := false;
      if r.InsertRecord? {
        moved := HideRow(r.table, r.pointer, r.row);
      } else if r.DeleteRecord? {
        ShowRow(r.table, r.pointer, r.row);
      }
      if !moved {
        AllSparseMeans(view);
        EvolvedMeans(old(pager.pages), old(parts), old(tables), pager.pages, parts, tables);
        UndoneEnds(old(view), view, r);
      }
    }

    /** Marks a row deleted and takes it out of the indexes. */
    method HideRow(n: string, p: RowPointer, row: Row) returns (moved: bool)
      requires Stored() && HasRow(view, n, p, row, true)
      modifies this`parts, this`view, pager
      ensures !moved ==> Stored() && Remarked(old(view), view, n, p, false)
      ensures !moved ==> Evolved(old(pager.pages), old(parts), tables, pager.pages, parts, tables)
      ensures moved ==> RootLost(tables, pager.pages)
      ensures n in old(view) && |old(pager.pages)| <= |pager.pages|
      ensures Sparse(old(view), n, old(view)[n].items) && |pager.pages| <= NO_PAGE ==> pager.oversize == old(pager.oversize)
    {
      hide *;
      HideStarts(view, n, p, row);
      MarkedSparse(view, n, p, false);
      ghost var items0 := view[n].items;
      var done := HeapDelete(n, p);
      label L:
      EvolvedMeans(old(pager.pages), old(parts), tables, pager.pages, parts, tables);
      moved := RemoveIndexEntries(n, row, p, items0);
      if !moved {
        MarkEnds(old(view), view, n, p, false);
        EvolvedTrans(old(pager.pages), old(parts), tables, old@L(pager.pages), old@L(parts), tables, pager.pages, parts, tables);
      }
    }

    /** Marks a deleted row live again and puts it back into the indexes. */
    method ShowRow(n: string, p: RowPointer, row: Row)
      requires Stored() && HasRow(view, n, p, row, false)
      modifies this`parts, this`view, this`tables, pager
      ensures Stored() && Remarked(old(view), view, n, p, true)
      ensures Evolved(old(pager.pages), old(parts), old(tables), pager.pages, parts, tables)
      ensures n in view
      ensures Sparse(view, n, view[n].items) && |pager.pages| <= NO_PAGE ==> pager.oversize == old(pager.oversize)
    {
      hide *;
      ShowStarts(view, n, p, row);
      ghost var items0 := view[n].items;
      var done := HeapRestore(n, p);
      label L:
      AddIndexEntries(n, row, p, items0);
      SparseKept(old@L(view), view, n);
      MarkEnds(old(view), view, n, p, true);
      EvolvedTrans(old(pager.pages), old(parts), old(tables), old@L(pager.pages), old@L(parts), old@L(tables), pager.pages, parts, tables);
    }

    // ---------- Index maintenance ----------

    /** Adds the pointer of a row that became visible to every index of its table. */
    method AddIndexEntries(n: string, row: Row, p: RowPointer, ghost items0: seq<Item>)
      requires Stored() && EnteringIn(view, n, items0, row, p)
      modifies this`parts, this`view, this`tables, pager
      ensures Stored() && Reindexed(old(view), view, n)
      ensures Evolved(old(pager.pages), old(parts), old(tables), pager.pages, parts, tables)
      ensures n in old(view)
      ensures Sparse(old(view), n, old(view)[n].items) && |pager.pages| <= NO_PAGE ==> pager.oversize == old(pager.oversize)
    {
      hide *;
      EntryStarts(view, n, items0, row, p);
      ViewCatalog(n);
      var count := |tables[n].indexes|;
      IndexCounted(tables, n, count);
      EvolvedSame(pager.pages, parts, tables);
      for i := 0 to count
        invariant Stored() && IndexCount(tables, n, count) && Reindexing(old(view), view, n, i)
        invariant Evolved(old(pager.pages), old(parts), old(tables), pager.pages, parts, tables)
        invariant Sparse(old(view), n, old(view)[n].items) && |pager.pages| <= NO_PAGE ==> pager.oversize == old(pager.oversize)
      {
        label L:
        AddToIndex(n, i, row, p, items0, old(view), count);
        EvolvedMeans(old@L(pager.pages), old@L(parts), old@L(tables), pager.pages, parts, tables);
        EvolvedTrans(old(pager.pages), old(parts), old(tables), old@L(pager.pages), old@L(parts), old@L(tables), pager.pages, parts, tables);
      }
      ReindexingEnds(n, count, old(view));
      EntryEnds(old(view), view, n, items0, row, p);
    }

    method AddToIndex(n: string, i: nat, row: Row, p: RowPointer, ghost items0: seq<Item>, ghost views0: map<string, TableView>, ghost count: nat)
      requires Stored() && IndexCount(tables, n, count) && i < count && EnteringIn(views0, n, items0, row, p) && Reindexing(views0, view, n, i)
      modifies this`parts, this`view, this`tables, pager
      ensures Stored() && IndexCount(tables, n, count) && Reindexing(views0, view, n, i + 1)
      ensures Evolved(old(pager.pages), old(parts), old(tables), pager.pages, parts, tables)
      ensures n in views0
      ensures Sparse(views0, n, views0[n].items) && |pager.pages| <= NO_PAGE ==> pager.oversize == old(pager.oversize)
    {
      hide *;
      IndexCounted(tables, n, count);
      ViewCatalog(n);
      EntryStep(views0, view, n, i, items0, row, p);
      var index := tables[n].indexes[i];
      var key := row[ColumnIndex(tables[n].schema, index.column).value].n;
      IndexInsert(n, i, key, p);
      NewMapFew(views0, view, n, i);
      EvolvedCount(old(pager.pages), old(parts), old(tables), pager.pages, parts, tables, n, count);
    }

    /** Removes the pointer of a row that disappeared from every index of its table. When that makes an index lose its
        root, the model stops: `moved` says so. */
    method RemoveIndexEntries(n: string, row: Row, p: RowPointer, ghost items0: seq<Item>) returns (moved: bool)
      requires Stored() && LeavingIn(view, n, items0, row, p)
      modifies this`parts, this`view, pager
      ensures !moved ==> Stored() && Reindexed(old(view), view, n)
      ensures !moved ==> Evolved(old(pager.pages), old(parts), tables, pager.pages, parts, tables)
      ensures moved ==> RootLost(tables, pager.pages)
      ensures |pager.pages| == |old(pager.pages)|
      ensures Sparse(old(view), n, items0) && |pager.pages| <= NO_PAGE ==> pager.oversize == old(pager.oversize)
    {
      hide *;
      ExitStarts(view, n, items0, row, p);
      ViewCatalog(n);
      var count := |tables[n].indexes|;
      IndexCounted(tables, n, count);
      EvolvedSame(pager.pages, parts, tables);
      for i := 0 to count
        invariant Stored() && IndexCount(tables, n, count) && Reindexing(old(view), view, n, i)
        invariant Evolved(old(pager.pages), old(parts), tables, pager.pages, parts, tables) && |pager.pages| == |old(pager.pages)|
        invariant Sparse(old(view), n, items0) && |pager.pages| <= NO_PAGE ==> pager.oversize == old(pager.oversize)
      {
        label L:
        moved := RemoveFromIndex(n, i, row, p, items0, old(view), count);
        if moved {
          return;
        }
        EvolvedTrans(old(pager.pages), old(parts), tables, old@L(pager.pages), old@L(parts), tables, pager.pages, parts, tables);
      }
      moved := false;
      ReindexingEnds(n, count, old(view));
      ExitEnds(old(view), view, n, items0, row, p);
    }

    method RemoveFromIndex(n: string, i: nat, row: Row, p: RowPointer, ghost items0: seq<Item>, ghost views0: map<string, TableView>, ghost count: nat)
      returns (moved: bool)
      requires Stored() && IndexCount(tables, n, count) && i < count && LeavingIn(views0, n, items0, row, p) && Reindexing(views0, view, n, i)
      modifies this`parts, this`view, pager
      ensures !moved ==> Stored() && Reindexing(views0, view, n, i + 1)
      ensures !moved ==> Evolved(old(pager.pages), old(parts), tables, pager.pages, parts, tables)
      ensures moved ==> RootLost(tables, pager.pages)
      ensures |pager.pages| == |old(pager.pages)|
      ensures Sparse(views0, n, items0) && |pager.pages| <= NO_PAGE ==> pager.oversize == old(pager.oversize)
    {
      hide *;
      IndexCounted(tables, n, count);
      ViewCatalog(n);
      ExitStep(views0, view, n, i, items0, row, p);
      var index := tables[n].indexes[i];
      var key := row[ColumnIndex(tables[n].schema, index.column).value].n;
      OldMapFew(views0, view, n, i, items0, row, p);
      moved := IndexDelete(n, i, key, p);
    }

    lemma ReindexingEnds(n: string, count: nat, views0: map<string, TableView>)
      requires Stored() && IndexCount(tables, n, count) && Reindexing(views0, view, n, count)
      ensures n in view && count == |view[n].maps|
    {
      ViewCatalog(n);
    }

    // ---------- Statements ----------

    /** Opens a transaction for one statement when none is open. */
    method TransactionForWrite() returns (txid: nat, auto: bool)
      requires Valid()
      modifies this`log, this`nextTxid, this`activeTxid, this`base
      ensures Valid() && activeTxid == Some(txid) && auto == old(activeTxid).None?
      ensures !auto ==> log == old(log) && activeTxid == old(activeTxid) && base == old(base)
      ensures txid == WriteTxid(old(activeTxid), old(nextTxid)) && (auto ==> txid == old(nextTxid))
      ensures nextTxid == old(nextTxid) + if auto then 1 else 0
      ensures auto ==> OfTxn(log, txid) == [BeginRecord(txid)] && log == old(log) + [BeginRecord(txid)] && base == LiveOf(view)
    {
      if activeTxid.Some? {
        return activeTxid.value, false;
      }
      var b := Begin();
      return b.value, true;
    }

    /** INSERT: one more live row, under a pointer never used before, listed in every index. */
    method Insert(n: string, values: Row) returns (r: Reply<RowPointer>)
      requires Valid() && |pager.pages| < NO_PAGE && ShortEnough(tables, n, values)
      modifies this, pager
      ensures Valid() && activeTxid == old(activeTxid) && (activeTxid.Some? ==> base == old(base))
      ensures r.Answered? <==> InsertAccepted(old(tables), n, values)
      ensures r.Refused? ==> view == old(view) && Uninsertable(old(tables), n, values, r.error)
      ensures r.Answered? ==> RowInserted(old(view), view, n, r.value, values)
      ensures r.Answered? ==> InsertLog(n, values, r.value, old(activeTxid), old(nextTxid), old(log), log)
      ensures r.Refused? ==> log == old(log) + RefusedLog(n in old(tables), old(activeTxid), old(nextTxid))
      ensures nextTxid == NextAfter(n in old(tables), old(activeTxid), old(nextTxid))
      ensures Evolved(old(pager.pages), old(parts), old(tables), pager.pages, parts, tables)
      ensures r.Refused? || (FewIn(view, n) && |pager.pages| <= NO_PAGE) ==> pager.oversize == old(pager.oversize)
    {
      hide *;
      EvolvedSame(pager.pages, parts, tables);
      ghost var tables0 := tables;
      AcceptMeans(tables, n, values);
      RefusedMeans(n in tables, activeTxid, nextTxid, log);
      if n !in tables {
        NoTableToInsert(tables, n, values);
        return Refused(NoSuchTable);
      }
      var txid, auto := TransactionForWrite();
      label T:
      var p := InsertLogged(n, values, txid);
      if p.Failed? {
        if auto {
          NothingChanged(txid);
          var rb, moved := Rollback();
          EvolvedTrans(old(pager.pages), old(parts), old(tables), old@T(pager.pages), old@T(parts), old@T(tables), pager.pages, parts, tables);
        }
        CannotInsert(tables0, n, values, p.error);
        return Refused(BadInsert(p.error));
      }
      label C:
      if auto {
        var c := Commit();
      }
      InsertLogEnds(n, values, p.value, old(activeTxid), old(nextTxid), txid, old(log), old@T(log), old@C(log), log);
      return Answered(p.value);
    }

    /** The heap, the log and the indexes take up a row. */
    method InsertLogged(n: string, values: Row, txid: nat) returns (p: Outcome<RowPointer>)
      requires Valid() && activeTxid == Some(txid) && n in tables && |pager.pages| < NO_PAGE && ShortEnough(tables, n, values)
      modifies this`log, this`parts, this`view, this`tables, pager
      ensures Valid()
      ensures p.Done? <==> InsertAccepted(old(tables), n, values)
      ensures p.Failed? ==> p.error.BadRow? && Unencodable(old(tables)[n].schema, values, p.error.error)
      ensures p.Failed? ==> view == old(view) && log == old(log) && pager.pages == old(pager.pages) && parts == old(parts) && tables == old(tables)
      ensures p.Done? ==> RowInserted(old(view), view, n, p.value, values) && log == old(log) + [InsertRecord(txid, n, values, p.value)]
      ensures Evolved(old(pager.pages), old(parts), old(tables), pager.pages, parts, tables)
      ensures p.Failed? || (FewIn(view, n) && |pager.pages| <= NO_PAGE) ==> pager.oversize == old(pager.oversize)
    {
      hide *;
      ValidMeans();
      GoodMeans(view, log, activeTxid, nextTxid, base);
      AcceptMeans(tables, n, values);
      ViewCatalog(n);
      p := HeapInsert(n, values);
      label H:
      if p.Failed? {
        ValidMeans();
        return;
      }
      log := log + [InsertRecord(txid, n, values, p.value)];
      RowEnters(old(view), view, old(tables), n, p.value, values);
      AddIndexEntries(n, values, p.value, old(view)[n].items);
      SparseKept(old@H(view), view, n);
      ViewStorable();
      SparseMeans(view, n);
      GoodInserts(old(view), old@H(view), view, old(log), txid, nextTxid, base, n, p.value, values);
      ValidMeans();
      EvolvedTrans(old(pager.pages), old(parts), old(tables), old@H(pager.pages), old@H(parts), old@H(tables), pager.pages, parts, tables);
    }

    /** DELETE: exactly the rows that satisfy the condition go, from the table and from every index. */
    method Delete(n: string, w: Where) returns (r: Reply<nat>, moved: bool)
      requires Valid()
      modifies this, pager
      ensures !moved ==> Valid() && activeTxid == old(activeTxid) && (activeTxid.Some? ==> base == old(base))
      ensures !moved ==> Evolved(old(pager.pages), old(parts), old(tables), pager.pages, parts, tables)
      ensures !moved ==> (r.Refused? <==> CannotFilter(old(view), n, Some(w)))
      ensures !moved && r.Refused? ==> view == old(view) && Unanswerable(old(view), n, Some(w), r.error)
      ensures !moved && r.Answered? ==> RowsDeleted(old(view), view, n, Some(w), r.value)
      ensures !moved && r.Answered? ==> n in old(view) && n in view && Left(old(view)[n], view[n], w, r.value)
      ensures !moved && r.Answered? ==> DeleteLog(old(view), n, Some(w), old(activeTxid), old(nextTxid), old(log), log)
      ensures !moved && r.Refused? ==> log == old(log) + RefusedLog(n in old(tables), old(activeTxid), old(nextTxid))
      ensures !moved ==> nextTxid == NextAfter(n in old(tables), old(activeTxid), old(nextTxid))
      ensures moved ==> RootLost(tables, pager.pages)
      ensures |old(pager.pages)| <= |pager.pages|
      ensures FewIn(old(view), n) && |pager.pages| <= NO_PAGE ==> pager.oversize == old(pager.oversize)
    {
      hide *;
      EvolvedSame(pager.pages, parts, tables);
      moved := false;
      NoTable(n, Some(w));
      WhyRefused(view, n, Some(w));
      ViewKeysValid();
      RefusedMeans(n in tables, activeTxid, nextTxid, log);
      if n !in tables {
        return Refused(NoSuchTable), false;
      }
      var txid, auto := TransactionForWrite();
      label T:
      r, moved := DeleteMatching(n, w, txid);
      if moved {
        return;
      }
      label D:
      if r.Refused? {
        if auto {
          NothingChanged(txid);
          var rb;
          rb, moved := Rollback();
          EvolvedTrans(old(pager.pages), old(parts), old(tables), old@D(pager.pages), old@D(parts), old@D(tables), pager.pages, parts, tables);
        }
      } else {
        if auto {
          var c := Commit();
        }
        DeleteLogEnds(old(view), n, Some(w), old(activeTxid), old(nextTxid), txid, old(log), old@T(log), old@D(log), log);
        DeletedLeft(old(view), view, n, w, r.value);
      }
    }

    /** The loop over the rows that were live at the start. */
    method DeleteMatching(n: string, w: Where, txid: nat) returns (r: Reply<nat>, moved: bool)
      requires Valid() && activeTxid == Some(txid) && n in tables
      modifies this`log, this`parts, this`view, pager
      ensures !moved ==> Valid() && Evolved(old(pager.pages), old(parts), tables, pager.pages, parts, tables)
      ensures !moved ==> (r.Refused? <==> CannotFilter(old(view), n, Some(w)))
      ensures !moved && r.Refused? ==> view == old(view) && log == old(log)
      ensures !moved && r.Refused? ==> r.error.BadWhere? && Fault(old(view), n, Some(w), r.error.reason)
      ensures !moved && r.Answered? ==> RowsDeleted(old(view), view, n, Some(w), r.value)
      ensures !moved && r.Answered? ==> DeletionsLogged(old(view), n, Some(w), txid, old(log), log)
      ensures moved ==> RootLost(tables, pager.pages)
      ensures |old(pager.pages)| <= |pager.pages| && (!moved && r.Refused? ==> pager.oversize == old(pager.oversize))
      ensures FewIn(old(view), n) && |pager.pages| <= NO_PAGE ==> pager.oversize == old(pager.oversize)
    {
      hide *;
      EvolvedSame(pager.pages, parts, tables);
      StartDeleting(n, Some(w));
      ValidMeans();
      var rows := HeapScan(n);
      var count := 0;
      DeletionsGrow(txid, n, [], (RowPointer(0, 0), []));
      for i := 0 to |rows|
        invariant Valid() && Evolved(old(pager.pages), old(parts), tables, pager.pages, parts, tables)
        invariant Deleting(old(view), view, n, rows, Some(w), i) && count == |KeptRows(old(view), n, rows, Some(w), i)|
        invariant log == old(log) + Deletions(txid, n, KeptRows(old(view), n, rows, Some(w), i))
        invariant i == 0 ==> log == old(log) && pager.oversize == old(pager.oversize)
        invariant |old(pager.pages)| <= |pager.pages| && (FewIn(old(view), n) ==> FewIn(view, n))
        invariant FewIn(old(view), n) && |pager.pages| <= NO_PAGE ==> pager.oversize == old(pager.oversize)
      {
        label L:
        DeletingNext(old(view), view, n, rows, Some(w), i);
        SchemaOf(n);
        var verdict := MatchesWhere(tables[n].schema, rows[i].1, Some(w));
        if verdict.Fails? {
          return Refused(BadWhere(verdict.error)), false;
        }
        if verdict.b {
          moved := DeleteRow(n, rows[i].0, rows[i].1, txid);
          if moved {
            return Answered(0), true;
          }
          count := count + 1;
          HiddenFew(old@L(view), view, n, rows[i].0);
          DeletionsGrow(txid, n, KeptRows(old(view), n, rows, Some(w), i), rows[i]);
          DeletingStep(old(view), old@L(view), view, n, rows, Some(w), i);
          EvolvedTrans(old(pager.pages), old(parts), tables, old@L(pager.pages), old@L(parts), tables, pager.pages, parts, tables);
        } else {
          DeletingSkip(old(view), view, n, rows, Some(w), i);
        }
      }
      DeletingEnds(old(view), view, n, rows, Some(w));
      DeletionsEnd(old(view), n, Some(w), txid, KeptRows(old(view), n, rows, Some(w), |rows|), old(log), log);
      return Answered(count), false;
    }

    /** Logs the deletion of one live row and carries it out. */
    method DeleteRow(n: string, p: RowPointer, row: Row, txid: nat) returns (moved: bool)
      requires Valid() && activeTxid == Some(txid) && n in view && FindItem(view[n].items, p) == Some(Item(p, row, true))
      modifies this`log, this`parts, this`view, pager
      ensures !moved ==> Valid() && Remarked(old(view), view, n, p, false) && log == old(log) + [DeleteRecord(txid, n, row, p)]
      ensures !moved ==> Evolved(old(pager.pages), old(parts), tables, pager.pages, parts, tables)
      ensures moved ==> RootLost(tables, pager.pages)
      ensures |old(pager.pages)| <= |pager.pages|
      ensures FewIn(old(view), n) && |pager.pages| <= NO_PAGE ==> pager.oversize == old(pager.oversize)
    {
      hide *;
      RowThere(n, p, row);
      ValidMeans();
      ViewStorable();
      SparseMeans(view, n);
      log := log + [DeleteRecord(txid, n, row, p)];
      moved := HideRow(n, p, row);
      if !moved {
        GoodDeletes(old(view), view, old(log), txid, nextTxid, base, n, p, row);
        ValidMeans();
      }
    }

    /** CREATE TABLE. The first heap page is allocated before the catalog is asked, so a refused name costs a page. */
    method CreateTable(n: string, columns: Schema) returns (r: Reply<()>)
      requires Valid() && |pager.pages| < NO_PAGE
      modifies this`tables, this`parts, this`view, pager`pages
      ensures Valid()
      ensures r == if !SchemaOk(columns) || n == "" then Refused(BadSchema) else if n in old(tables) then Refused(TableExists) else Answered(())
      ensures r.Answered? <==> n !in old(tables) && n != "" && columns != [] && (forall i :: 0 <= i < |columns| ==> columns[i].name != "")
                               && forall i, j :: 0 <= i < j < |columns| ==> columns[i].name != columns[j].name
      ensures r.Refused? ==> view == old(view) && tables == old(tables) && parts == old(parts)
      ensures r.Answered? ==> view == old(view)[n := TableView(columns, [], [], [])] && TableNamed(old(tables), tables, n, columns)
      ensures NoReuse(old(pager.pages), old(parts), parts)
      ensures |pager.pages| == |old(pager.pages)| + if SchemaOk(columns) then 1 else 0
    {
      hide *;
      NoReuseSame(pager.pages, parts);
      SchemaOkMeans(columns);
      if !SchemaOk(columns) {
        return Refused(BadSchema);
      }
      ghost var s0 := pager.pages;
      ValidMeans();
      StoredMeans();
      ViewKeys();
      var heap := new HeapFile.Create(pager, columns);
      heap.Meaning();
      if n == "" || n in tables {
        PartsKept(s0, pager.pages, parts);
        StoredMeans();
        ValidMeans();
        return Refused(if n == "" then BadSchema else TableExists);
      }
      var meta := TableMeta(columns, heap.firstPageId, []);
      ghost var part := HeapPart(columns, heap.firstPageId, heap.chain);
      TableStep(s0, pager.pages, tables, parts, n, meta, part);
      GoodNewTable(view, log, activeTxid, nextTxid, base, n, columns);
      TableIsNamed(tables, n, columns, meta.firstPage);
      tables, parts := tables[n := meta], parts[HeapKey(n) := part];
      view := Views(tables, parts);
      StoredMeans();
      ValidMeans();
      return Answered(());
    }

    /** CREATE INDEX: builds a tree from a scan of the table and names it in the catalog. The tree is built before the
        catalog is asked, so a refused name costs its pages. */
    method CreateIndex(name: string, n: string, column: string) returns (r: Reply<nat>)
      requires Valid()
      modifies this`tables, this`parts, this`view, pager
      ensures Valid()
      ensures r.Answered? <==> IndexAccepted(old(tables), name, n, column)
      ensures r.Refused? ==> view == old(view) && tables == old(tables) && parts == old(parts)
      ensures r.Refused? ==> r.error == IndexRefusal(old(tables), n, column)
      ensures r.Answered? ==> IndexCreated(old(view), view, n, column, r.value) && IndexNamed(old(tables), tables, n, name, column)
      ensures NoReuse(old(pager.pages), old(parts), parts) && |old(pager.pages)| <= |pager.pages|
      ensures if r == Refused(IndexExists) then |old(pager.pages)| < |pager.pages| else r.Refused? ==> pager.pages == old(pager.pages)
      ensures FewToIndex(old(view), n, column) && |pager.pages| <= NO_PAGE ==> pager.oversize == old(pager.oversize)
    {
      hide *;
      NoReuseSame(pager.pages, parts);
      IndexAcceptMeans(tables, name, n, column);
      IndexRefusalMeans(tables, n, column);
      if n !in tables {
        return Refused(NoSuchTable);
      }
      var c := ColumnIndex(tables[n].schema, column);
      if c.None? {
        return Refused(BadWhere(UnknownColumn));
      }
      if tables[n].schema[c.value].columnType != IntType {
        return Refused(NotAnIntColumn);
      }
      ghost var s0 := pager.pages;
      RowsHaveKeys(n, c.value);
      FewToIndexMeans(view, n, column);
      ValidMeans();
      StoredMeans();
      var root, count;
      ghost var part;
      root, count, part := BuildIndex(n, c.value);
      if HasIndex(tables[n].indexes, name) {
        PartsKept(s0, pager.pages, parts);
        StoredMeans();
        ValidMeans();
        return Refused(IndexExists);
      }
      AddIndex(name, n, column, root, s0, part, c.value);
      return Answered(count);
    }

    /** Names a new tree in the catalog. */
    method AddIndex(name: string, n: string, column: string, root: PageId, ghost s0: seq<PageData>, ghost part: Part, ghost c: nat)
      requires PartsInv(s0, parts) && Linked(tables, parts) && view == Views(tables, parts)
      requires Good(view, log, activeTxid, nextTxid, base) && n in tables && n in view && tables[n].schema == view[n].schema
      requires ColumnIndex(tables[n].schema, column) == Some(c) && tables[n].schema[c].columnType == IntType
      requires s0 <= pager.pages && part.TreePart? && NewTree(s0, pager.pages, part, root)
      requires KeyedRows(LiveRows(view[n].items), c) && EntryList.Contents(Entries(part.tree)) == Built(LiveRows(view[n].items), c)
      modifies this`tables, this`parts, this`view
      ensures Valid() && IndexCreated(old(view), view, n, column, |LiveRows(old(view)[n].items)|)
      ensures IndexNamed(old(tables), tables, n, name, column)
      ensures NoReuse(s0, old(parts), parts)
    {
      hide *;
      var meta := tables[n];
      var index := IndexMeta(name, column, root);
      IndexStep(s0, pager.pages, tables, parts, n, index, part);
      ghost var m := EntryList.Contents(Entries(part.tree));
      GoodNewIndex(view, log, activeTxid, nextTxid, base, n, column, c, m);
      CreatedMeans(view, n, column, m);
      IndexIsNamed(tables, n, name, column, root);
      parts := parts[TreeKey(n, |meta.indexes|) := part];
      tables := tables[n := meta.(indexes := meta.indexes + [index])];
      view := Views(tables, parts);
      StoredMeans();
      ValidMeans();
    }

    /** Fills a new tree with the live rows of a table. */
    method BuildIndex(n: string, c: nat) returns (root: PageId, count: nat, ghost part: Part)
      requires Stored() && n in tables && n in view && RowsKeyed(LiveRows(view[n].items), c)
      requires Keyed(view[n].items, c) && DistinctPointers(view[n].items)
      modifies pager
      ensures |old(pager.pages)| < |pager.pages|
      ensures FewRows(view[n].items, c) && |pager.pages| <= NO_PAGE ==> pager.oversize == old(pager.oversize)
      ensures old(pager.pages) <= pager.pages && part.TreePart? && NewTree(old(pager.pages), pager.pages, part, root)
      ensures count == |LiveRows(view[n].items)|
      ensures KeyedRows(LiveRows(view[n].items), c)
      ensures EntryList.Contents(Entries(part.tree)) == Built(LiveRows(view[n].items), c)
    {
      hide *;
      ghost var s0 := pager.pages;
      StoredMeans();
      ViewStorable();
      StorableIn(view, n);
      var tree := new BPlusTree.Create(pager);
      PartsKept(s0, pager.pages, parts);
      StoredMeans();
      var rows := HeapScan(n);
      count := 0;
      SeparateStarts(s0, pager.pages, tree.tree, tree.rootPageId);
      BuiltStarts(rows, c);
      for i := 0 to |rows|
        invariant tree.pager == pager && tree.Valid() && count == i
        invariant Separate(s0, tree.tree, pager.pages, tree.lo, tree.hi) && BuiltSoFar(rows, c, i, tree.Contents())
        invariant |s0| < |pager.pages|
        invariant FewRows(view[n].items, c) && |pager.pages| <= NO_PAGE ==> pager.oversize == old(pager.oversize)
      {
        StillFew(view[n].items, c, i + 1, rows);
        BuiltStep(rows, c, i, tree.Contents());
        ghost var t0, s1, lo0, hi0 := tree.tree, pager.pages, tree.lo, tree.hi;
        var key := rows[i].1[c].n;
        tree.Insert(key, rows[i].0);
        SeparateStep(s0, s1, pager.pages, t0, tree.tree, lo0, hi0, tree.lo, tree.hi, key);
        BuiltIs(rows, c, i + 1, tree.Contents());
        count := count + 1;
      }
      tree.Meaning();
      root := tree.rootPageId;
      part := TreePart(root, tree.tree, tree.height, tree.lo, tree.hi);
      BuiltEnds(rows, c, tree.Contents());
      NewTreeEnds(s0, pager.pages, part);
    }

    lemma RowsHaveKeys(n: string, c: nat)
      requires Valid() && n in tables && c < |tables[n].schema| && tables[n].schema[c].columnType == IntType
      ensures n in view && view[n].schema == tables[n].schema && RowsKeyed(LiveRows(view[n].items), c)
      ensures Keyed(view[n].items, c) && DistinctPointers(view[n].items)
    {
      var items := view[n].items;
      KeyedBySchema(view[n], c);
      forall i | 0 <= i < |LiveRows(items)| ensures Int64(LiveRows(items)[i].1[c].n) {
        LiveRowFound(items, i);
        FoundGood(view[n].schema, items, LiveRows(items)[i].0);
        assert Storable(LiveRows(items)[i].1[c]);
      }
    }

    /** SELECT: the rows that satisfy the condition, through an index when one fits. */
    method Select(n: string, filter: Option<Where>) returns (r: Reply<seq<Row>>)
      requires Valid()
      ensures r.Refused? <==> CannotFilter(view, n, filter)
      ensures r.Refused? ==> Unanswerable(view, n, filter, r.error)
      ensures r.Answered? ==> n in view && SelectedRows(view[n], filter, r.value)
      ensures r.Answered? && filter.None? ==> r.value == RowsOf(LiveRows(view[n].items))
      ensures r.Answered? ==> Found(view[n], filter, r.value)
    {
      hide *;
      NoTable(n, filter);
      WhyRefused(view, n, filter);
      ViewKeysValid();
      if n !in tables {
        return Refused(NoSuchTable);
      }
      TableIsGood(n);
      var indexed := TryIndexedSelect(n, filter);
      if indexed.Some? {
        SelectedFound(view[n], filter, indexed.value);
        return Answered(indexed.value);
      }
      var rows := HeapScan(n);
      var found: seq<Row> := [];
      ScanningStarts(view[n], filter);
      for i := 0 to |rows|
        invariant Scanning(view[n], rows, filter, i, found)
      {
        ScanningStep(view[n], rows, filter, i, found);
        var verdict := MatchesWhere(tables[n].schema, rows[i].1, filter);
        if verdict.Fails? {
          Unfilterable(view, n, filter, verdict.error);
          return Refused(BadWhere(verdict.error));
        }
        if verdict.b {
          found := found + [rows[i].1];
        }
      }
      ScanningEnds(view, n, rows, filter, found);
      SelectedFound(view[n], filter, found);
      return Answered(found);
    }

    /** Answers an equality on an indexed column from the first index on that column. */
    method TryIndexedSelect(n: string, filter: Option<Where>) returns (rows: Option<seq<Row>>)
      requires Valid() && n in tables && n in view
      ensures rows.Some? <==> Usable(view[n].columns, filter)
      ensures rows.Some? ==> SelectedRows(view[n], filter, rows.value) && !CannotFilter(view, n, filter)
    {
      hide *;
      TableIsGood(n);
      UsableMeans(view[n].columns, filter);
      if filter.None? || filter.value.op != EQ || !filter.value.value.IntValue? {
        return None;
      }
      ViewCatalog(n);
      for i := 0 to |tables[n].indexes|
        invariant forall j :: 0 <= j < i ==> view[n].columns[j] != filter.value.column
      {
        if tables[n].indexes[i].column == filter.value.column {
          assert view[n].columns[i] == filter.value.column;
          UsableFilters(view, n, filter);
          var found := ReadThroughIndex(n, i, filter.value);
          return Some(found);
        }
      }
      return None;
    }

    /** Reads the rows that one index lists for a key, skipping what is not there or does not match. */
    method ReadThroughIndex(n: string, i: nat, w: Where) returns (rows: seq<Row>)
      requires Stored() && n in tables && n in view && i < |tables[n].indexes| && TableGood(view[n])
      requires i < |view[n].maps| && i < |view[n].columns| && view[n].columns[i] == w.column && w.op == EQ && w.value.IntValue?
      requires view[n].schema == tables[n].schema
      ensures SelectedRows(view[n], Some(w), rows)
    {
      hide *;
      var pointers := IndexSearch(n, i, w.value.n);
      rows := [];
      NoRowsAt(view[n].items, pointers);
      for j := 0 to |pointers|
        invariant rows == RowsAt(view[n].items, pointers[..j])
      {
        ListedRow(view[n], i, w, pointers[j]);
        RowsAtStep(view[n].items, pointers, j);
        RowAtMeans(view[n].items, pointers[j]);
        SlotMeans(view, n, pointers[j]);
        var row := HeapGet(n, pointers[j]);
        if row.Done? && MatchesWhere(tables[n].schema, row.value, Some(w)) == Holds(true) {
          rows := rows + [row.value];
        }
      }
      assert pointers[..|pointers|] == pointers;
      RowsThroughIndex(view[n], i, w);
    }

    // ---------- Runs ----------

    /** Executes one statement. There are two ways in which it may fail to come to its end: an index loses its root
        (`moved`), or an index node grows too large for its page (`overflowed`), which cannot happen while no key of an
        indexed column is carried by more than six live rows. */
    method Execute(statement: Statement) returns (r: Response, moved: bool, overflowed: bool)
      requires Valid() && !pager.oversize && |pager.pages| < NO_PAGE && Short(statement)
      modifies this, pager
      ensures !moved && !overflowed ==> Valid() && NoReuse(old(pager.pages), old(parts), parts) && |old(pager.pages)| <= |pager.pages|
      ensures !moved && !overflowed ==> AllGood(view)
      ensures !moved && !overflowed ==>
        Step(Snapshot(old(tables), old(view), old(activeTxid), old(base)), statement, r, Snapshot(tables, view, activeTxid, base))
      ensures moved <==> RootLost(tables, pager.pages)
      ensures overflowed == pager.oversize
      ensures FewRowsAround(old(view), old(log), old(activeTxid), statement, view) && |pager.pages| <= NO_PAGE ==> !overflowed
    {
      hide *;
      NoReuseSame(pager.pages, parts);
      moved := false;
      ghost var before := Snapshot(tables, view, activeTxid, base);
      match statement {
      case CreateTable(n, columns) =>
        ValidMeans();
        ViewKeys();
        var x := CreateTable(n, columns);
        r := if x.Refused? then Rejected(x.error) else TableMade;
        TableMadeStep(before, n, columns, x, Snapshot(tables, view, activeTxid, base));
      case CreateIndex(name, n, column) =>
        var x := CreateIndex(name, n, column);
        r := if x.Refused? then Rejected(x.error) else IndexMade(x.value);
        IndexMadeStep(before, name, n, column, x, Snapshot(tables, view, activeTxid, base));
      case Transaction(Begin) =>
        var x := Begin();
        r := if x.Refused? then Rejected(x.error) else Started(x.value);
        BeginStep(before, x, Snapshot(tables, view, activeTxid, base));
      case Transaction(Commit) =>
        var x := Commit();
        r := if x.Refused? then Rejected(x.error) else Committed;
        CommitStep(before, x, Snapshot(tables, view, activeTxid, base));
      case Transaction(Rollback) =>
        var x;
        x, moved := Rollback();
        EvolvedMeans(old(pager.pages), old(parts), old(tables), pager.pages, parts, tables);
        r := if x.Refused? then Rejected(x.error) else RolledBack;
        if !moved {
          RollbackStep(before, x, Snapshot(tables, view, activeTxid, base));
        }
      case Insert(n, values) =>
        ShortMeans(statement, tables);
        var x := Insert(n, values);
        EvolvedMeans(old(pager.pages), old(parts), old(tables), pager.pages, parts, tables);
        r := if x.Refused? then Rejected(x.error) else RowMade(x.value);
        ViewsGood();
        InsertStep(before, n, values, x, Snapshot(tables, view, activeTxid, base));
      case Select(n, filter) =>
        var x := Select(n, filter);
        r := if x.Refused? then Rejected(x.error) else RowsFound(x.value);
        SelectStep(before, n, filter, x);
      case Delete(n, condition) =>
        var x;
        x, moved := Delete(n, condition);
        EvolvedMeans(old(pager.pages), old(parts), old(tables), pager.pages, parts, tables);
        r := if x.Refused? then Rejected(x.error) else RowsGone(x.value);
        if !moved {
          DeleteStep(before, n, condition, x, Snapshot(tables, view, activeTxid, base));
        }
      }
      overflowed := pager.oversize;
      if FewRowsAround(old(view), old(log), old(activeTxid), statement, view) {
        FewRowsMeans(old(view), old(log), old(activeTxid), statement, view);
      }
      if !moved {
        ViewsGood();
      }
    }

    /** Executes statements one after the other: each of them does what it should and leaves the database in order, and
        no page that was given up comes back into use. The run ends early when an index loses its root, when an index node
        grows too large for its page, or when the page numbers run out. */
    method ExecuteAll(statements: seq<Statement>) returns (responses: seq<Response>, moved: bool, overflowed: bool, ghost trace: seq<Snapshot>)
      requires Valid() && !pager.oversize && forall i :: 0 <= i < |statements| ==> Short(statements[i])
      modifies this, pager
      ensures |responses| <= |statements| && Run(trace, statements[..|responses|], responses)
      ensures moved || overflowed || |pager.pages| >= NO_PAGE || |responses| == |statements|
      ensures trace[0] == Snapshot(old(tables), old(view), old(activeTxid), old(base))
      ensures !moved && !overflowed ==> trace[|responses|] == Snapshot(tables, view, activeTxid, base)
      ensures !moved && !overflowed ==> Valid() && NoReuse(old(pager.pages), old(parts), parts)
      ensures (moved <==> RootLost(tables, pager.pages)) && overflowed == pager.oversize
    {
      hide *;
      NoReuseSame(pager.pages, parts);
      responses, moved, overflowed := [], false, false;
      trace := [Snapshot(tables, view, activeTxid, base)];
      ViewsGood();
      RunStarts(trace[0]);
      assert statements[..0] == [];
      while |responses| < |statements| && |pager.pages| < NO_PAGE
        invariant |responses| <= |statements| && |trace| == |responses| + 1 && Run(trace, statements[..|responses|], responses)
        invariant trace[0] == Snapshot(old(tables), old(view), old(activeTxid), old(base))
        invariant trace[|responses|] == Snapshot(tables, view, activeTxid, base)
        invariant Valid() && NoReuse(old(pager.pages), old(parts), parts) && |old(pager.pages)| <= |pager.pages|
        invariant !moved && !overflowed && !pager.oversize
        decreases |statements| - |responses|
      {
        label L:
        var statement := statements[|responses|];
        var r;
        r, moved, overflowed := Execute(statement);
        if moved || overflowed {
          return;
        }
        NoReuseTrans(old(pager.pages), old@L(pager.pages), old(parts), old@L(parts), parts);
        RunGrows(trace, statements[..|responses|], responses, statement, r, Snapshot(tables, view, activeTxid, base));
        assert statements[..|responses| + 1] == statements[..|responses|] + [statement];
        trace := trace + [Snapshot(tables, view, activeTxid, base)];
        responses := responses + [r];
      }
      ViewsGood();
    }

    /** In a database that is in order, no index has lost its root. */
    lemma ViewsGood()
      requires Valid()
      ensures AllGood(view) && !RootLost(tables, pager.pages)
    {
      hide Stored, AllGood, IsTreeRoot;
      if RootLost(tables, pager.pages) {
        var n, i :| n in tables && 0 <= i < |tables[n].indexes| && !IsTreeRoot(pager.pages, tables[n].indexes[i].root);
        var part := TreePartOf(n, i);
        TreeAtRoot(pager.pages, part);
      }
    }

    lemma TableIsGood(n: string)
      requires Valid() && n in tables
      ensures n in view && TableGood(view[n]) && view[n].schema == tables[n].schema && Stored()
      ensures |view[n].maps| == |tables[n].indexes| == |view[n].columns|
    {
    }

    lemma RowThere(n: string, p: RowPointer, row: Row)
      requires Valid() && n in view && FindItem(view[n].items, p) == Some(Item(p, row, true))
      ensures HasRow(view, n, p, row, true)
    {
    }

    lemma SchemaOf(n: string)
      requires Valid() && n in view
      ensures n in tables && tables[n].schema == view[n].schema
    {
    }

    lemma StartDeleting(n: string, filter: Option<Where>)
      requires Valid() && n in tables
      ensures n in view && Deleting(view, view, n, LiveRows(view[n].items), filter, 0)
      ensures KeptRows(view, n, LiveRows(view[n].items), filter, 0) == []
    {
      DeletingStarts(view, n, filter);
      assert LiveRows(view[n].items)[..0] == [];
    }

    lemma NoTable(n: string, filter: Option<Where>)
      requires Valid()
      ensures n !in tables ==> CannotFilter(view, n, filter)
    {
    }

    /** A transaction that has only begun has nothing to undo. */
    lemma NothingChanged(txid: nat)
      ensures OfTxn(log, txid) == [BeginRecord(txid)] ==> NoChanges(OfTxn(log, txid))
    {
    }

    lemma ViewKeysValid()
      requires Valid()
      ensures view.Keys == tables.Keys
    {
    }

    lemma ViewKeys()
      requires Stored()
      ensures view.Keys == tables.Keys
    {
    }

    lemma ViewCatalog(n: string)
      requires Stored() && (n in tables || n in view)
      ensures n in view && n in tables && view[n].schema == tables[n].schema && view[n].columns == ColumnsOf(tables[n].indexes)
      ensures |view[n].maps| == |tables[n].indexes|
    {
    }

    // ---------- One heap or one index at a time ----------

    method HeapInsert(n: string, row: Row) returns (r: Outcome<RowPointer>)
      requires Stored() && n in tables && |pager.pages| < NO_PAGE
      requires RowMatches(tables[n].schema, row) && RowStorable(row) ==> |RowBytes(row)| <= MAX_RECORD
      modifies this`parts, this`view, pager`pages
      ensures Stored() && Evolved(old(pager.pages), old(parts), tables, pager.pages, parts, tables)
      ensures r.Done? <==> RowMatches(tables[n].schema, row) && RowStorable(row)
      ensures r.Failed? ==> view == old(view) && parts == old(parts) && pager.pages == old(pager.pages)
      ensures r.Failed? ==> r.error.BadRow? && Unencodable(tables[n].schema, row, r.error.error)
      ensures r.Done? ==> RowAdded(old(view), view, n, r.value, row)
    {
      hide *;
      ghost var s0, parts0 := pager.pages, parts;
      var meta := tables[n];
      ghost var part := HeapPartOf(n);
      StoredMeans();
      var heap := new HeapFile(pager, meta.schema, meta.firstPage, part.chain);
      heap.Meaning();
      r := heap.Insert(row);
      heap.Meaning();
      HeapStep(old(pager.pages), pager.pages, tables, parts, n, part, heap.chain);
      parts := parts[HeapKey(n) := HeapPart(part.schema, part.first, heap.chain)];
      view := Views(tables, parts);
      StoredMeans();
      HeapInserted(old(pager.pages), old(view), view, n, part, heap.chain, r, row, pager.pages);
    }

    lemma StoredMeans()
      ensures Stored() <==> PartsInv(pager.pages, parts) && Linked(tables, parts) && view == Views(tables, parts)
    {
    }

    /** Every pointer that a table has given out fits into the widths it is kept in elsewhere. */
    lemma ViewStorable()
      requires Stored()
      ensures |pager.pages| <= NO_PAGE ==> StorableViews(view)
    {
      if |pager.pages| <= NO_PAGE {
        ViewKeys();
        forall n | n in view ensures Storables(view[n].items) {
          var part := HeapPartOf(n);
          HeapStorable(pager.pages, part.schema, part.first, part.chain);
        }
      }
    }

    lemma SlotTable(n: string, p: RowPointer)
      requires Stored() && HasSlot(view, n, p)
      ensures n in tables
    {
    }

    lemma HeapPartOf(n: string) returns (part: Part)
      requires Stored() && n in tables
      ensures HeapKey(n) in parts && part == parts[HeapKey(n)] && part == HeapPart(tables[n].schema, tables[n].firstPage, part.chain)
      ensures HeapInv(pager.pages, part.schema, part.first, part.chain)
      ensures n in view && view[n].items == Items(part.schema, part.chain)
    {
      assert TableLinked(tables[n], n, parts);
      part := parts[HeapKey(n)];
      assert PartInv(pager.pages, part);
    }

    method HeapDelete(n: string, p: RowPointer) returns (r: Outcome<()>)
      requires Stored() && HasSlot(view, n, p)
      modifies this`parts, this`view, pager`pages
      ensures Stored() && Evolved(old(pager.pages), old(parts), tables, pager.pages, parts, tables)
      ensures r == Done(()) && view == MarkedIn(old(view), n, p, false)
    {
      hide *;
      SlotTable(n, p);
      ghost var part := HeapPartOf(n);
      StoredMeans();
      ghost var hs;
      HeapSlot(view, n, part, pager.pages, p);
      r, hs := DeleteIn(n, p, part);
      HeapStep(old(pager.pages), pager.pages, tables, parts, n, part, hs);
      HeapMarked(view, Views(tables, parts[HeapKey(n) := HeapPart(part.schema, part.first, hs)]), n, part, hs, p, false);
      parts := parts[HeapKey(n) := HeapPart(part.schema, part.first, hs)];
      view := Views(tables, parts);
      StoredMeans();
    }

    method DeleteIn(n: string, p: RowPointer, ghost part: Part) returns (r: Outcome<()>, ghost hs: seq<HeapPage>)
      requires n in tables && part.HeapPart? && part.schema == tables[n].schema && part.first == tables[n].firstPage
      requires HeapInv(pager.pages, part.schema, part.first, part.chain) && FindItem(Items(part.schema, part.chain), p).Some?
      modifies pager`pages
      ensures r == Done(()) && HeapInv(pager.pages, part.schema, part.first, hs)
      ensures Foreign(old(pager.pages), pager.pages, HeapIds(part.chain)) && HeapIds(hs) == HeapIds(part.chain)
      ensures Items(part.schema, hs) == Marked(Items(part.schema, part.chain), p, false)
    {
      hide *;
      var meta := tables[n];
      KnownPage(part.schema, part.first, part.chain, pager.pages, p);
      var heap := new HeapFile(pager, meta.schema, meta.firstPage, part.chain);
      heap.Meaning();
      r := heap.Delete(p);
      heap.Meaning();
      hs := heap.chain;
    }

    method HeapRestore(n: string, p: RowPointer) returns (r: Outcome<()>)
      requires Stored() && HasSlot(view, n, p)
      modifies this`parts, this`view, pager`pages
      ensures Stored() && Evolved(old(pager.pages), old(parts), tables, pager.pages, parts, tables)
      ensures r == Done(()) && view == MarkedIn(old(view), n, p, true)
    {
      hide *;
      SlotTable(n, p);
      ghost var part := HeapPartOf(n);
      StoredMeans();
      ghost var hs;
      HeapSlot(view, n, part, pager.pages, p);
      r, hs := RestoreIn(n, p, part);
      HeapStep(old(pager.pages), pager.pages, tables, parts, n, part, hs);
      HeapMarked(view, Views(tables, parts[HeapKey(n) := HeapPart(part.schema, part.first, hs)]), n, part, hs, p, true);
      parts := parts[HeapKey(n) := HeapPart(part.schema, part.first, hs)];
      view := Views(tables, parts);
      StoredMeans();
    }

    method RestoreIn(n: string, p: RowPointer, ghost part: Part) returns (r: Outcome<()>, ghost hs: seq<HeapPage>)
      requires n in tables && part.HeapPart? && part.schema == tables[n].schema && part.first == tables[n].firstPage
      requires HeapInv(pager.pages, part.schema, part.first, part.chain) && FindItem(Items(part.schema, part.chain), p).Some?
      modifies pager`pages
      ensures r == Done(()) && HeapInv(pager.pages, part.schema, part.first, hs)
      ensures Foreign(old(pager.pages), pager.pages, HeapIds(part.chain)) && HeapIds(hs) == HeapIds(part.chain)
      ensures Items(part.schema, hs) == Marked(Items(part.schema, part.chain), p, true)
    {
      hide *;
      var meta := tables[n];
      KnownPage(part.schema, part.first, part.chain, pager.pages, p);
      var heap := new HeapFile(pager, meta.schema, meta.firstPage, part.chain);
      heap.Meaning();
      r := heap.Restore(p);
      heap.Meaning();
      hs := heap.chain;
    }

    method HeapScan(n: string) returns (rows: seq<(RowPointer, Row)>)
      requires Stored() && n in tables
      ensures rows == LiveRows(view[n].items)
    {
      hide HeapInv, PartsInv, Linked;
      var meta := tables[n];
      ghost var part := HeapPartOf(n);
      var heap := new HeapFile(pager, meta.schema, meta.firstPage, part.chain);
      rows := heap.Scan();
    }

    method HeapGet(n: string, p: RowPointer) returns (r: Outcome<Row>)
      requires Stored() && HasSlot(view, n, p)
      ensures var item := FindItem(view[n].items, p).value; r == if item.live then Done(item.row) else Failed(RowDeleted)
    {
      hide HeapInv, PartsInv, Linked;
      var meta := tables[n];
      ghost var part := HeapPartOf(n);
      KnownPage(part.schema, part.first, part.chain, pager.pages, p);
      var heap := new HeapFile(pager, meta.schema, meta.firstPage, part.chain);
      r := heap.Get(p);
    }

    lemma TreePartOf(n: string, i: nat) returns (part: Part)
      requires Stored() && n in tables && i < |tables[n].indexes|
      ensures TreeKey(n, i) in parts && part == parts[TreeKey(n, i)] && part.TreePart? && part.root == tables[n].indexes[i].root
      ensures TreeInv(pager.pages, part.root, part.tree, part.height, part.lo, part.hi) && KeyRange(part.lo, part.hi)
      ensures n in view && |view[n].maps| == |tables[n].indexes| && view[n].maps[i] == EntryList.Contents(Entries(part.tree))
    {
      assert TableLinked(tables[n], n, parts);
      assert IndexLinked(tables[n].indexes[i], n, i, parts);
      part := parts[TreeKey(n, i)];
      assert PartInv(pager.pages, part);
    }

    /** Adds a pointer to one index; a new root page goes into the catalog. */
    method IndexInsert(n: string, i: nat, key: int, p: RowPointer)
      requires Stored() && n in tables && i < |tables[n].indexes| && Int64(key)
      modifies this`parts, this`view, this`tables, pager
      ensures Stored() && Evolved(old(pager.pages), old(parts), old(tables), pager.pages, parts, tables)
      ensures view == AddedIn(old(view), n, i, key, p)
      ensures n in view && i < |view[n].maps|
      ensures FewPointers(view[n].maps[i], 6) && |pager.pages| <= NO_PAGE ==> pager.oversize == old(pager.oversize)
    {
      hide *;
      ghost var tables0, parts0, s0, view0 := tables, parts, pager.pages, view;
      var index := tables[n].indexes[i];
      ghost var part := TreePartOf(n, i);
      StoredMeans();
      var tree := new BPlusTree(pager, index.root, part.tree, part.height, part.lo, part.hi);
      tree.Meaning();
      tree.Insert(key, p);
      tree.Meaning();
      if tree.rootPageId != index.root {
        UpdateIndexRoot(n, i, tree.rootPageId);
      }
      SameRoot(tables0, n, i);
      ghost var part' := TreePart(tree.rootPageId, tree.tree, tree.height, tree.lo, tree.hi);
      IndexInserted(s0, pager.pages, tables0, parts0, n, i, part, part', key, p);
      parts := parts[TreeKey(n, i) := part'];
      view := Views(tables, parts);
      AddedMeans(view0, n, i, key, p);
      StoredMeans();
    }

    /** Stores the root page of an index in the catalog. */
    method UpdateIndexRoot(n: string, i: nat, root: PageId)
      requires n in tables && i < |tables[n].indexes|
      modifies this`tables
      ensures tables == Rerooted(old(tables), n, i, root)
    {
      var meta := tables[n];
      tables := tables[n := meta.(indexes := meta.indexes[i := meta.indexes[i].(root := root)])];
    }

    /** Removes a pointer from one index. The new root page, if there is one, is dropped: `moved` tells that the
        catalog still names the old one, which no longer is the root of a tree. */
    method IndexDelete(n: string, i: nat, key: int, p: RowPointer) returns (moved: bool)
      requires Stored() && n in tables && i < |tables[n].indexes| && Int64(key)
      modifies this`parts, this`view, pager
      ensures moved <==> PointerListed(old(view), n, i, key, p) && TreeShrinks(old(parts), n, i, key, p)
      ensures moved <==> !IsTreeRoot(pager.pages, tables[n].indexes[i].root)
      ensures moved ==> RootLost(tables, pager.pages)
      ensures !moved ==> Stored() && Evolved(old(pager.pages), old(parts), tables, pager.pages, parts, tables)
      ensures !moved ==> view == RemovedIn(old(view), n, i, key, p)
      ensures n in old(view) && i < |old(view)[n].maps| && |pager.pages| == |old(pager.pages)|
      ensures FewPointers(old(view)[n].maps[i], 6) && |pager.pages| <= NO_PAGE ==> pager.oversize == old(pager.oversize)
      ensures moved ==> TreeKey(n, i) in old(parts) && TreeLost(old(pager.pages), pager.pages, old(parts)[TreeKey(n, i)], key, p)
    {
      hide *;
      ghost var parts0, s0 := parts, pager.pages;
      var index := tables[n].indexes[i];
      ghost var part := TreePartOf(n, i);
      StoredMeans();
      var tree := new BPlusTree(pager, index.root, part.tree, part.height, part.lo, part.hi);
      tree.Meaning();
      var found := tree.Delete(key, p);
      tree.Meaning();
      moved := tree.rootPageId != index.root;
      ghost var part' := TreePart(tree.rootPageId, tree.tree, tree.height, tree.lo, tree.hi);
      RootMoves(tables, parts0, n, i, part, key, p);
      if moved {
        IndexRootLost(s0, pager.pages, tables, n, i, part, part', key, p);
        TreeIsLost(s0, pager.pages, part, part', key, p);
      } else {
        IndexDeleted(s0, pager.pages, tables, parts0, n, i, part, part', key, p);
        parts := parts[TreeKey(n, i) := part'];
        view := Views(tables, parts);
        StoredMeans();
      }
    }

    method IndexSearch(n: string, i: nat, key: int) returns (pointers: seq<RowPointer>)
      requires Stored() && n in tables && i < |tables[n].indexes|
      ensures i < |view[n].maps| && pointers == Lookup(view[n].maps[i], key)
    {
      hide PartsInv, Linked, TreeInv;
      var index := tables[n].indexes[i];
      ghost var part := TreePartOf(n, i);
      var tree := new BPlusTree(pager, index.root, part.tree, part.height, part.lo, part.hi);
      pointers := tree.Search(key);
    }
  }

  // ---------- Statements and their effects ----------

  /** What a statement is answered with. */
  datatype Response =
    | Rejected(error: SqlError) | TableMade | IndexMade(count: nat) | RowMade(pointer: RowPointer) | RowsFound(rows: seq<Row>)
    | RowsGone(count: nat) | Started(txid: nat) | Committed | RolledBack

  /** What the statements of a run depend on and change. */
  datatype Snapshot = Snapshot(tables: map<string, TableMeta>, view: map<string, TableView>, active: Option<nat>,
                               base: map<string, seq<(RowPointer, Row)>>)

  /** No transaction was opened or closed. */
  ghost predicate SameTransaction(a: Snapshot, b: Snapshot) {
    b.active == a.active && (a.active.Some? ==> b.base == a.base)
  }

  /** What each statement does, in the answer it gives and in the state it leaves behind. */
  ghost predicate Effect(a: Snapshot, statement: Statement, r: Response, b: Snapshot) {
    match statement
    case CreateTable(n, columns) =>
      && SameTransaction(a, b)
      && if !SchemaOk(columns) || n == "" then r == Rejected(BadSchema) && b.view == a.view
         else if n in a.tables then r == Rejected(TableExists) && b.view == a.view
         else r == TableMade && b.view == a.view[n := TableView(columns, [], [], [])]
    case CreateIndex(name, n, column) =>
      && SameTransaction(a, b)
      && if IndexAccepted(a.tables, name, n, column) then r.IndexMade? && IndexCreated(a.view, b.view, n, column, r.count)
         else r.Rejected? && b.view == a.view
    case Insert(n, values) =>
      && SameTransaction(a, b)
      && if InsertAccepted(a.tables, n, values) then r.RowMade? && RowInserted(a.view, b.view, n, r.pointer, values)
         else r.Rejected? && Uninsertable(a.tables, n, values, r.error) && b.view == a.view
    case Select(n, filter) =>
      && b == a
      && if CannotFilter(a.view, n, filter) then r.Rejected? && Unanswerable(a.view, n, filter, r.error)
         else r.RowsFound? && n in a.view && SelectedRows(a.view[n], filter, r.rows) && Found(a.view[n], filter, r.rows)
    case Delete(n, w) =>
      && SameTransaction(a, b)
      && if CannotFilter(a.view, n, Some(w)) then r.Rejected? && Unanswerable(a.view, n, Some(w), r.error) && b.view == a.view
         else
           && r.RowsGone? && RowsDeleted(a.view, b.view, n, Some(w), r.count)
           && n in a.view && n in b.view && Left(a.view[n], b.view[n], w, r.count)
    case Transaction(Begin) =>
      && b.view == a.view
      && if a.active.Some? then r == Rejected(AlreadyActive) && SameTransaction(a, b)
         else r.Started? && b.active == Some(r.txid) && b.base == LiveOf(a.view)
    case Transaction(Commit) =>
      b.view == a.view && b.active == None && r == if a.active.None? then Rejected(NoTransaction) else Committed
    case Transaction(Rollback) =>
      && b.active == None
      && if a.active.None? then r == Rejected(NoTransaction) && b.view == a.view
         else r == RolledBack && RowsAsBefore(b.view, a.base)
  }

  /** Before and after the statement, and at every point of a rollback, no key of an indexed column is carried by more than
      six live rows. */
  ghost predicate FewRowsAround(before: map<string, TableView>, log: seq<LogRecord>, active: Option<nat>, statement: Statement,
                                after: map<string, TableView>)
  {
    match statement
    case Insert(n, _) => FewIn(after, n)
    case Delete(n, _) => FewIn(before, n)
    case CreateIndex(_, n, column) => FewToIndex(before, n, column)
    case Transaction(Rollback) => active.Some? ==> FewWhileUndoing(before, OfTxn(log, active.value))
    case _ => true
  }

  lemma FewRowsMeans(before: map<string, TableView>, log: seq<LogRecord>, active: Option<nat>, statement: Statement,
                     after: map<string, TableView>)
    requires FewRowsAround(before, log, active, statement, after)
    ensures statement.Insert? ==> FewIn(after, statement.table)
    ensures statement.Delete? ==> FewIn(before, statement.table)
    ensures statement.CreateIndex? ==> FewToIndex(before, statement.table, statement.column)
    ensures statement == Transaction(Rollback) && active.Some? ==> FewWhileUndoing(before, OfTxn(log, active.value))
  {
  }

  /** One statement of a run. No statement moves or forgets a slot, or a name in the catalog. */
  ghost predicate Step(a: Snapshot, statement: Statement, r: Response, b: Snapshot) {
    Effect(a, statement, r, b) && SlotsKept(a.view, b.view) && CatalogStep(a.tables, statement, r, b.tables)
  }

  /** The states between the statements of a run; in each of them every index agrees with its table. */
  ghost predicate Run(trace: seq<Snapshot>, statements: seq<Statement>, responses: seq<Response>) {
    && |trace| == |statements| + 1 && |responses| == |statements|
    && (forall i :: 0 <= i < |statements| ==> Step(trace[i], statements[i], responses[i], trace[i + 1]))
    && (forall i :: 0 <= i < |trace| ==> AllGood(trace[i].view))
  }

  lemma RunStarts(a: Snapshot)
    requires AllGood(a.view)
    ensures Run([a], [], [])
  {
  }

  lemma RunGrows(trace: seq<Snapshot>, statements: seq<Statement>, responses: seq<Response>, statement: Statement, r: Response, b: Snapshot)
    requires Run(trace, statements, responses) && |trace| > 0 && AllGood(b.view)
    requires Step(trace[|trace| - 1], statement, r, b)
    ensures Run(trace + [b], statements + [statement], responses + [r])
  {
    hide Step, AllGood;
    var trace', statements', responses' := trace + [b], statements + [statement], responses + [r];
    forall i | 0 <= i < |statements'| ensures Step(trace'[i], statements'[i], responses'[i], trace'[i + 1]) {
      if i < |statements| {
        assert Step(trace[i], statements[i], responses[i], trace[i + 1]);
      }
    }
  }

  lemma TableMadeStep(a: Snapshot, n: string, columns: Schema, x: Reply<()>, b: Snapshot)
    requires b.active == a.active && b.base == a.base
    requires x == if !SchemaOk(columns) || n == "" then Refused(BadSchema) else if n in a.tables then Refused(TableExists) else Answered(())
    requires x.Refused? ==> b.view == a.view && b.tables == a.tables
    requires x.Answered? ==> b.view == a.view[n := TableView(columns, [], [], [])] && n !in a.view
    requires x.Answered? ==> TableNamed(a.tables, b.tables, n, columns)
    ensures Step(a, Statement.CreateTable(n, columns), if x.Refused? then Rejected(x.error) else TableMade, b)
  {
  }

  lemma IndexMadeStep(a: Snapshot, name: string, n: string, column: string, x: Reply<nat>, b: Snapshot)
    requires b.active == a.active && b.base == a.base
    requires x.Answered? <==> IndexAccepted(a.tables, name, n, column)
    requires x.Refused? ==> b.view == a.view && b.tables == a.tables
    requires x.Answered? ==> IndexCreated(a.view, b.view, n, column, x.value) && IndexNamed(a.tables, b.tables, n, name, column)
    ensures Step(a, Statement.CreateIndex(name, n, column), if x.Refused? then Rejected(x.error) else IndexMade(x.value), b)
  {
    hide IndexAccepted;
  }

  lemma InsertStep(a: Snapshot, n: string, values: Row, x: Reply<RowPointer>, b: Snapshot)
    requires b.active == a.active && (a.active.Some? ==> b.base == a.base) && AllGood(b.view)
    requires x.Answered? <==> InsertAccepted(a.tables, n, values)
    requires x.Refused? ==> b.view == a.view && Uninsertable(a.tables, n, values, x.error)
    requires x.Answered? ==> RowInserted(a.view, b.view, n, x.value, values)
    requires SameCatalog(a.tables, b.tables)
    ensures Step(a, Statement.Insert(n, values), if x.Refused? then Rejected(x.error) else RowMade(x.value), b)
  {
    hide InsertAccepted, Uninsertable, AllGood, RowInserted, SlotsKept, SameCatalog;
    if x.Answered? {
      InsertedKeeps(a.view, b.view, n, x.value, values);
    } else {
      SlotsKeptSame(a.view);
    }
  }

  lemma SelectStep(a: Snapshot, n: string, filter: Option<Where>, x: Reply<seq<Row>>)
    requires x.Refused? <==> CannotFilter(a.view, n, filter)
    requires x.Refused? ==> Unanswerable(a.view, n, filter, x.error)
    requires x.Answered? ==> n in a.view && SelectedRows(a.view[n], filter, x.value) && Found(a.view[n], filter, x.value)
    ensures Step(a, Statement.Select(n, filter), if x.Refused? then Rejected(x.error) else RowsFound(x.value), a)
  {
    hide CannotFilter, Unanswerable, SelectedRows, Found, SlotsKept;
    SlotsKeptSame(a.view);
  }

  lemma DeleteStep(a: Snapshot, n: string, w: Where, x: Reply<nat>, b: Snapshot)
    requires b.active == a.active && (a.active.Some? ==> b.base == a.base)
    requires x.Refused? <==> CannotFilter(a.view, n, Some(w))
    requires x.Refused? ==> b.view == a.view && Unanswerable(a.view, n, Some(w), x.error)
    requires x.Answered? ==> RowsDeleted(a.view, b.view, n, Some(w), x.value)
    requires x.Answered? ==> n in a.view && n in b.view && Left(a.view[n], b.view[n], w, x.value)
    requires SameCatalog(a.tables, b.tables)
    ensures Step(a, Statement.Delete(n, w), if x.Refused? then Rejected(x.error) else RowsGone(x.value), b)
  {
    hide CannotFilter, Unanswerable, Left, SlotsKept, SameCatalog;
    SlotsKeptSame(a.view);
  }

  lemma BeginStep(a: Snapshot, x: Reply<nat>, b: Snapshot)
    requires b.view == a.view && b.tables == a.tables && (x.Refused? <==> a.active.Some?)
    requires x.Refused? ==> x.error == AlreadyActive && b.active == a.active && b.base == a.base
    requires x.Answered? ==> b.active == Some(x.value) && b.base == LiveOf(a.view)
    ensures Step(a, Transaction(Begin), if x.Refused? then Rejected(x.error) else Started(x.value), b)
  {
    hide SlotsKept, LiveOf;
    SlotsKeptSame(a.view);
  }

  lemma CommitStep(a: Snapshot, x: Reply<()>, b: Snapshot)
    requires b.view == a.view && b.tables == a.tables && b.active == None && x == if a.active.None? then Refused(NoTransaction) else Answered(())
    ensures Step(a, Transaction(Commit), if x.Refused? then Rejected(x.error) else Committed, b)
  {
    hide SlotsKept;
    SlotsKeptSame(a.view);
  }

  lemma RollbackStep(a: Snapshot, x: Reply<()>, b: Snapshot)
    requires b.active == None && x == if a.active.None? then Refused(NoTransaction) else Answered(())
    requires a.active.Some? ==> RowsAsBefore(b.view, a.base)
    requires a.active.None? ==> b.view == a.view
    requires SlotsKept(a.view, b.view) && SameCatalog(a.tables, b.tables)
    ensures Step(a, Transaction(Rollback), if x.Refused? then Rejected(x.error) else RolledBack, b)
  {
    hide SlotsKept, RowsAsBefore, SameCatalog;
  }

  /** The effect of an operation on one heap. */
  lemma HeapStep(s0: seq<PageData>, s: seq<PageData>, tables: map<string, TableMeta>, parts: map<PartKey, Part>, n: string,
                 part: Part, hs: seq<HeapPage>)
    requires n in tables && HeapKey(n) in parts && part == parts[HeapKey(n)] && part.HeapPart?
    requires part.schema == tables[n].schema && part.first == tables[n].firstPage
    requires PartsInv(s0, parts) && Linked(tables, parts) && HeapInv(s, part.schema, part.first, hs)
    requires Foreign(s0, s, HeapIds(part.chain)) && HeapIds(hs) <= HeapIds(part.chain) + {|s0|}
    ensures var parts' := parts[HeapKey(n) := HeapPart(part.schema, part.first, hs)];
      && PartsInv(s, parts') && Linked(tables, parts') && Evolved(s0, parts, tables, s, parts', tables)
      && Views(tables, parts') == Views(tables, parts)[n := Views(tables, parts)[n].(items := Items(part.schema, hs))]
  {
    var part' := HeapPart(part.schema, part.first, hs);
    HeapPartBound(s0, s, part, part');
    hide *;
    SameCatalogSame(tables);
    HeapChanged(tables, parts, n, hs);
    PartReplaced(s0, s, parts, HeapKey(n), part');
    ViewIs(tables, parts, n);
    EvolvedMeans(s0, parts, tables, s, parts[HeapKey(n) := part'], tables);
  }

  lemma HeapPartBound(s0: seq<PageData>, s: seq<PageData>, part: Part, part': Part)
    requires part.HeapPart? && part'.HeapPart? && HeapInv(s, part'.schema, part'.first, part'.chain)
    requires Foreign(s0, s, HeapIds(part.chain)) && HeapIds(part'.chain) <= HeapIds(part.chain) + {|s0|}
    ensures PartInv(s, part') && Foreign(s0, s, PartIds(part)) && |s0| <= |s|
    ensures forall x :: x in PartIds(part') ==> x in PartIds(part) || |s0| <= x
  {
  }

  lemma ViewIs(tables: map<string, TableMeta>, parts: map<PartKey, Part>, n: string)
    requires Linked(tables, parts) && n in tables
    ensures TableLinked(tables[n], n, parts) && n in Views(tables, parts) && Views(tables, parts)[n] == ViewOf(tables[n], n, parts)
  {
  }

  lemma EvolvedMeans(s0: seq<PageData>, parts0: map<PartKey, Part>, tables0: map<string, TableMeta>,
                     s: seq<PageData>, parts: map<PartKey, Part>, tables: map<string, TableMeta>)
    ensures Evolved(s0, parts0, tables0, s, parts, tables) <==> |s0| <= |s| && NoReuse(s0, parts0, parts) && SameCatalog(tables0, tables)
  {
  }

  /** The effect of an operation on one index whose root the catalog follows. */
  lemma TreeStep(s0: seq<PageData>, s: seq<PageData>, tables: map<string, TableMeta>, parts: map<PartKey, Part>, n: string, i: nat,
                 part: Part, part': Part)
    requires n in tables && i < |tables[n].indexes| && TreeKey(n, i) in parts && part == parts[TreeKey(n, i)]
    requires PartsInv(s0, parts) && Linked(tables, parts) && part'.TreePart? && PartInv(s, part')
    requires part.TreePart? && Untouched(s0, s, Ids(part.tree))
    requires forall x :: x in Ids(part'.tree) ==> x in Ids(part.tree) || |s0| <= x
    ensures var tables', parts' := Rerooted(tables, n, i, part'.root), parts[TreeKey(n, i) := part'];
      && PartsInv(s, parts') && Linked(tables', parts') && NoReuse(s0, parts, parts')
      && var v := Views(tables, parts)[n];
         && |v.maps| == |tables[n].indexes|
         && Views(tables', parts') == Views(tables, parts)[n := v.(maps := v.maps[i := EntryList.Contents(Entries(part'.tree))])]
  {
    hide PartsInv, Linked, PartInv, NoReuse, EntryList.Contents, Ids;
    TreeChanged(tables, parts, n, i, part');
    TreeForeign(s0, s, part);
    TreeIdsBound(part, part', |s0|);
    hide ViewOf;
    PartReplaced(s0, s, parts, TreeKey(n, i), part');
  }

  /** The effect of inserting into one index. */
  lemma IndexInserted(s0: seq<PageData>, s: seq<PageData>, tables: map<string, TableMeta>, parts: map<PartKey, Part>, n: string, i: nat,
                      part: Part, part': Part, key: int, p: RowPointer)
    requires n in tables && i < |tables[n].indexes| && TreeKey(n, i) in parts && part == parts[TreeKey(n, i)]
    requires PartsInv(s0, parts) && Linked(tables, parts) && part.TreePart? && part'.TreePart?
    requires TreeInv(s, part'.root, part'.tree, part'.height, part'.lo, part'.hi) && KeyRange(part.lo, part.hi) && Int64(key)
    requires RangeGrows(part.lo, part.hi, part'.lo, part'.hi, key) && Untouched(s0, s, Ids(part.tree))
    requires forall x :: x in Ids(part'.tree) ==> x in Ids(part.tree) || |s0| <= x
    requires EntryList.Contents(Entries(part'.tree)) == Added(EntryList.Contents(Entries(part.tree)), key, p)
    ensures var tables', parts' := Rerooted(tables, n, i, part'.root), parts[TreeKey(n, i) := part'];
      && PartsInv(s, parts') && Linked(tables', parts') && Views(tables', parts') == AddedIn(Views(tables, parts), n, i, key, p)
      && Evolved(s0, parts, tables, s, parts', tables')
  {
    hide *;
    TreePartGood(s0, s, part, part', key);
    TreeStep(s0, s, tables, parts, n, i, part, part');
    RerootedSame(tables, n, i, part'.root);
    MapIs(tables, parts, n, i, part);
    AddedMeans(Views(tables, parts), n, i, key, p);
    EvolvedMeans(s0, parts, tables, s, parts[TreeKey(n, i) := part'], Rerooted(tables, n, i, part'.root));
  }

  lemma TreeAtRoot(s: seq<PageData>, part: Part)
    requires part.TreePart? && TreeInv(s, part.root, part.tree, part.height, part.lo, part.hi)
    ensures IsTreeRoot(s, part.root)
  {
  }

  lemma TreePartGood(s0: seq<PageData>, s: seq<PageData>, part: Part, part': Part, key: int)
    requires part.TreePart? && part'.TreePart?
    requires TreeInv(s, part'.root, part'.tree, part'.height, part'.lo, part'.hi) && KeyRange(part.lo, part.hi) && Int64(key)
    requires RangeGrows(part.lo, part.hi, part'.lo, part'.hi, key) && Untouched(s0, s, Ids(part.tree))
    ensures PartInv(s, part') && |s0| <= |s|
  {
    hide TreeInv;
  }

  lemma AddedMeans(views: map<string, TableView>, n: string, i: nat, key: int, p: RowPointer)
    ensures n in views && i < |views[n].maps| ==>
      && AddedIn(views, n, i, key, p) == views[n := views[n].(maps := views[n].maps[i := Added(views[n].maps[i], key, p)])]
      && RemovedIn(views, n, i, key, p) == views[n := views[n].(maps := views[n].maps[i := Removed(views[n].maps[i], key, p)])]
  {
  }

  lemma MapIs(tables: map<string, TableMeta>, parts: map<PartKey, Part>, n: string, i: nat, part: Part)
    requires n in tables && i < |tables[n].indexes| && TreeKey(n, i) in parts && part == parts[TreeKey(n, i)] && part.TreePart?
    requires Linked(tables, parts)
    ensures n in Views(tables, parts) && i < |Views(tables, parts)[n].maps|
    ensures Views(tables, parts)[n].maps[i] == EntryList.Contents(Entries(part.tree))
  {
  }

  /** The effect of deleting from one index while its root stays. */
  lemma IndexDeleted(s0: seq<PageData>, s: seq<PageData>, tables: map<string, TableMeta>, parts: map<PartKey, Part>, n: string, i: nat,
                     part: Part, part': Part, key: int, p: RowPointer)
    requires n in tables && i < |tables[n].indexes| && TreeKey(n, i) in parts && part == parts[TreeKey(n, i)]
    requires PartsInv(s0, parts) && Linked(tables, parts) && part.TreePart? && part'.TreePart?
    requires part'.root == part.root == tables[n].indexes[i].root
    requires TreeInv(s, part'.root, part'.tree, part'.height, part'.lo, part'.hi) && KeyRange(part.lo, part.hi) && Int64(key)
    requires RangeGrows(part.lo, part.hi, part'.lo, part'.hi, key) && Untouched(s0, s, Ids(part.tree))
    requires forall x :: x in Ids(part'.tree) ==> x in Ids(part.tree)
    requires EntryList.Contents(Entries(part'.tree)) == Removed(EntryList.Contents(Entries(part.tree)), key, p)
    ensures var parts' := parts[TreeKey(n, i) := part'];
      && PartsInv(s, parts') && Linked(tables, parts') && Views(tables, parts') == RemovedIn(Views(tables, parts), n, i, key, p)
      && Evolved(s0, parts, tables, s, parts', tables)
    ensures IsTreeRoot(s, tables[n].indexes[i].root)
  {
    hide *;
    TreeAtRoot(s, part');
    TreePartGood(s0, s, part, part', key);
    SameRoot(tables, n, i);
    TreeStep(s0, s, tables, parts, n, i, part, part');
    SameCatalogSame(tables);
    MapIs(tables, parts, n, i, part);
    AddedMeans(Views(tables, parts), n, i, key, p);
    EvolvedMeans(s0, parts, tables, s, parts[TreeKey(n, i) := part'], tables);
  }

  /** The effect of a deletion that moves the root: the catalog no longer names a tree. */
  lemma IndexRootLost(s0: seq<PageData>, s: seq<PageData>, tables: map<string, TableMeta>, n: string, i: nat,
                      part: Part, part': Part, key: int, p: RowPointer)
    requires n in tables && i < |tables[n].indexes| && part.TreePart? && part'.TreePart? && part.root == tables[n].indexes[i].root
    requires TreeInv(s0, part.root, part.tree, part.height, part.lo, part.hi)
    requires TreeInv(s, part'.root, part'.tree, part'.height, part'.lo, part'.hi)
    requires EntryList.Contents(Entries(part'.tree)) == Removed(EntryList.Contents(Entries(part.tree)), key, p)
    requires StaleRoot(s0, s, part.root, part'.root)
    ensures !IsTreeRoot(s, part.root) && RootLost(tables, s)
  {
    hide TreeInv, EntryList.Contents, Removed, IsTreeRoot, StaleRoot;
    StaleRootIsNoTree(s0, s, part.root, part'.root, part.tree, part.height, part.lo, part.hi,
                      part'.tree, part'.height, part'.lo, part'.hi, key, p);
  }

  /** The pages are what a deletion from the tree `part` leaves behind when it moves the root. */
  ghost predicate TreeLost(s0: seq<PageData>, s: seq<PageData>, part: Part, key: int, p: RowPointer) {
    part.TreePart? && exists part' :: LostTo(s0, s, part, part', key, p)
  }

  ghost predicate LostTo(s0: seq<PageData>, s: seq<PageData>, part: Part, part': Part, key: int, p: RowPointer)
    requires part.TreePart?
  {
    part'.TreePart? && RootMoved(s0, s, part.root, part'.root, part.tree, part'.tree, part.height, part.lo, part.hi,
                                 part'.height, part'.lo, part'.hi, key, p)
  }

  lemma TreeIsLost(s0: seq<PageData>, s: seq<PageData>, part: Part, part': Part, key: int, p: RowPointer)
    requires part.TreePart? && part'.TreePart? && RootShrinks(part.tree, key, p) && part'.tree == MeltedRoot(part.tree, key, p)
    requires TreeInv(s0, part.root, part.tree, part.height, part.lo, part.hi)
    requires TreeInv(s, part'.root, part'.tree, part'.height, part'.lo, part'.hi) && |s| == |s0| && Untouched(s0, s, Ids(part'.tree))
    requires EntryList.Contents(Entries(part'.tree)) == Removed(EntryList.Contents(Entries(part.tree)), key, p)
    ensures TreeLost(s0, s, part, key, p)
  {
    hide TreeInv, RootShrinks, MeltedRoot, Untouched, EntryList.Contents, Removed;
    assert LostTo(s0, s, part, part', key, p);
  }

  /** When a deletion moves the root. */
  lemma RootMoves(tables: map<string, TableMeta>, parts: map<PartKey, Part>, n: string, i: nat, part: Part, key: int, p: RowPointer)
    requires n in tables && i < |tables[n].indexes| && TreeKey(n, i) in parts && part == parts[TreeKey(n, i)] && part.TreePart?
    requires Linked(tables, parts)
    ensures PointerListed(Views(tables, parts), n, i, key, p) && TreeShrinks(parts, n, i, key, p)
       <==> p in Lookup(EntryList.Contents(Entries(part.tree)), key) && RootShrinks(part.tree, key, p)
  {
    MapIs(tables, parts, n, i, part);
    hide EntryList.Contents, Lookup, RootShrinks;
  }

  /** The effect of marking a slot. */
  lemma HeapMarked(view0: map<string, TableView>, view: map<string, TableView>, n: string, part: Part, hs: seq<HeapPage>, p: RowPointer, live: bool)
    requires part.HeapPart? && n in view0 && view0[n].items == Items(part.schema, part.chain)
    requires view == view0[n := view0[n].(items := Items(part.schema, hs))]
    requires Items(part.schema, hs) == Marked(Items(part.schema, part.chain), p, live)
    ensures view == MarkedIn(view0, n, p, live)
  {
    hide Items;
  }

  lemma HeapSlot(view: map<string, TableView>, n: string, part: Part, s: seq<PageData>, p: RowPointer)
    requires part.HeapPart? && n in view && view[n].items == Items(part.schema, part.chain)
    requires HeapInv(s, part.schema, part.first, part.chain) && HasSlot(view, n, p)
    ensures p.pageId in HeapIds(part.chain) && FindItem(Items(part.schema, part.chain), p).Some?
  {
    KnownPage(part.schema, part.first, part.chain, s, p);
  }

  /** The effect of inserting a row. */
  lemma HeapInserted(s0: seq<PageData>, view0: map<string, TableView>, view: map<string, TableView>, n: string, part: Part, hs: seq<HeapPage>,
                     r: Outcome<RowPointer>, row: Row, s: seq<PageData>)
    requires part.HeapPart? && n in view0 && view0[n].items == Items(part.schema, part.chain)
    requires view == view0[n := view0[n].(items := Items(part.schema, hs))] && HeapInv(s, part.schema, part.first, hs)
    requires r.Failed? ==> hs == part.chain
    requires r.Done? ==> ItemAdded(Items(part.schema, part.chain), Items(part.schema, hs), Item(r.value, row, true))
    ensures r.Failed? ==> view == view0
    ensures r.Done? ==> RowAdded(view0, view, n, r.value, row)
  {
    ItemPointers(part.schema, hs);
    hide Items, HeapInv;
  }

  lemma TreeForeign(s0: seq<PageData>, s: seq<PageData>, part: Part)
    requires part.TreePart? && Untouched(s0, s, Ids(part.tree))
    ensures Foreign(s0, s, PartIds(part))
  {
  }

  lemma TreeIdsBound(part: Part, part': Part, n: nat)
    requires part.TreePart? && part'.TreePart?
    requires forall x :: x in Ids(part'.tree) ==> x in Ids(part.tree) || n <= x
    ensures forall x :: x in PartIds(part') ==> x in PartIds(part) || n <= x
  {
  }

  /** The index has its new root page in the catalog; all other entries of the catalog stay. */
  lemma RerootedSame(tables: map<string, TableMeta>, n: string, i: nat, root: PageId)
    requires n in tables && i < |tables[n].indexes|
    ensures SameCatalog(tables, Rerooted(tables, n, i, root))
    ensures var indexes, indexes' := tables[n].indexes, Rerooted(tables, n, i, root)[n].indexes;
      && |indexes'| == |indexes| && indexes'[i].root == root && indexes'[i].name == indexes[i].name
      && forall j :: 0 <= j < |indexes| && j != i ==> indexes'[j] == indexes[j]
    ensures forall m :: m in tables && m != n ==> Rerooted(tables, n, i, root)[m] == tables[m]
  {
  }

  /** From one state to another no page came back into use, and the catalog kept its tables and index columns. */
  ghost predicate Evolved(s0: seq<PageData>, parts0: map<PartKey, Part>, tables0: map<string, TableMeta>,
                          s: seq<PageData>, parts: map<PartKey, Part>, tables: map<string, TableMeta>)
  {
    |s0| <= |s| && NoReuse(s0, parts0, parts) && SameCatalog(tables0, tables)
  }

  lemma EvolvedSame(s: seq<PageData>, parts: map<PartKey, Part>, tables: map<string, TableMeta>)
    ensures Evolved(s, parts, tables, s, parts, tables)
  {
  }

  lemma EvolvedTrans(s0: seq<PageData>, parts0: map<PartKey, Part>, tables0: map<string, TableMeta>,
                     s1: seq<PageData>, parts1: map<PartKey, Part>, tables1: map<string, TableMeta>,
                     s2: seq<PageData>, parts2: map<PartKey, Part>, tables2: map<string, TableMeta>)
    requires Evolved(s0, parts0, tables0, s1, parts1, tables1) && Evolved(s1, parts1, tables1, s2, parts2, tables2)
    ensures Evolved(s0, parts0, tables0, s2, parts2, tables2)
  {
    NoReuseTrans(s0, s1, parts0, parts1, parts2);
  }

  lemma IndexCounted(tables: map<string, TableMeta>, n: string, count: nat)
    ensures IndexCount(tables, n, count) <==> n in tables && |tables[n].indexes| == count
  {
  }

  lemma EvolvedCount(s: seq<PageData>, parts: map<PartKey, Part>, tables: map<string, TableMeta>,
                     s': seq<PageData>, parts': map<PartKey, Part>, tables': map<string, TableMeta>, n: string, count: nat)
    requires Evolved(s, parts, tables, s', parts', tables') && IndexCount(tables, n, count)
    ensures IndexCount(tables', n, count)
  {
    assert |ColumnsOf(tables'[n].indexes)| == |ColumnsOf(tables[n].indexes)|;
  }

  ghost predicate PointerListed(views: map<string, TableView>, n: string, i: nat, key: int, p: RowPointer) {
    n in views && i < |views[n].maps| && p in Lookup(views[n].maps[i], key)
  }

  /** The tree of the index is so thin that removing the pointer takes its root away. */
  ghost predicate TreeShrinks(parts: map<PartKey, Part>, n: string, i: nat, key: int, p: RowPointer) {
    TreeKey(n, i) in parts && parts[TreeKey(n, i)].TreePart? && RootShrinks(parts[TreeKey(n, i)].tree, key, p)
  }

  ghost predicate IndexCount(tables: map<string, TableMeta>, n: string, count: nat) {
    n in tables && |tables[n].indexes| == count
  }

  /** An index named in the catalog has no tree under its root page. */
  ghost predicate RootLost(tables: map<string, TableMeta>, s: seq<PageData>) {
    exists n, i :: n in tables && 0 <= i < |tables[n].indexes| && !IsTreeRoot(s, tables[n].indexes[i].root)
  }

  lemma NoReuseSame(s: seq<PageData>, parts: map<PartKey, Part>)
    ensures NoReuse(s, parts, parts)
  {
  }

  lemma SameCatalogSame(tables: map<string, TableMeta>)
    ensures SameCatalog(tables, tables)
  {
  }

  lemma SameRoot(tables: map<string, TableMeta>, n: string, i: nat)
    requires n in tables && i < |tables[n].indexes|
    ensures Rerooted(tables, n, i, tables[n].indexes[i].root) == tables
  {
    var meta := tables[n];
    assert meta.indexes[i := meta.indexes[i]] == meta.indexes;
  }

  // ---------- Building an index ----------

  ghost predicate RowsKeyed(rows: seq<(RowPointer, Row)>, c: nat) {
    KeyedRows(rows, c) && forall i :: 0 <= i < |rows| ==> Int64(rows[i].1[c].n)
  }

  ghost predicate BuiltSoFar(rows: seq<(RowPointer, Row)>, c: nat, i: nat, m: map<int, seq<RowPointer>>) {
    i <= |rows| && RowsKeyed(rows, c) && KeyedRows(rows[..i], c) && m == Built(rows[..i], c)
  }

  lemma BuiltStarts(rows: seq<(RowPointer, Row)>, c: nat)
    requires RowsKeyed(rows, c)
    ensures BuiltSoFar(rows, c, 0, map[])
  {
  }

  lemma BuiltStep(rows: seq<(RowPointer, Row)>, c: nat, i: nat, m: map<int, seq<RowPointer>>)
    requires BuiltSoFar(rows, c, i, m) && i < |rows|
    ensures c < |rows[i].1| && rows[i].1[c].IntValue? && Int64(rows[i].1[c].n)
    ensures BuiltSoFar(rows, c, i + 1, Added(m, rows[i].1[c].n, rows[i].0))
  {
    assert rows[..i + 1][..i] == rows[..i];
  }

  lemma BuiltEnds(rows: seq<(RowPointer, Row)>, c: nat, m: map<int, seq<RowPointer>>)
    requires BuiltSoFar(rows, c, |rows|, m)
    ensures KeyedRows(rows, c) && m == Built(rows, c)
  {
    assert rows[..|rows|] == rows;
  }

  /** The tree `t` consists of pages added after `s0`, which is otherwise unchanged. */
  ghost predicate Separate(s0: seq<PageData>, t: Tree, s: seq<PageData>, lo: int, hi: int) {
    s0 <= s && (forall x :: x in Ids(t) ==> |s0| <= x) && KeyRange(lo, hi)
  }

  lemma SeparateStarts(s0: seq<PageData>, s: seq<PageData>, t: Tree, root: PageId)
    requires s0 <= s && Ids(t) == multiset{root} && root == |s0|
    ensures Separate(s0, t, s, 0, 1)
  {
  }

  lemma SeparateStep(s0: seq<PageData>, s1: seq<PageData>, s: seq<PageData>, t: Tree, t': Tree, lo: int, hi: int, lo': int, hi': int, key: int)
    requires Separate(s0, t, s1, lo, hi) && Untouched(s1, s, Ids(t)) && Int64(key) && RangeGrows(lo, hi, lo', hi', key)
    requires forall x :: x in Ids(t') ==> x in Ids(t) || |s1| <= x
    ensures Separate(s0, t', s, lo', hi') && KeyRange(lo, hi) && |s1| <= |s|
  {
  }

  ghost predicate NewTree(s0: seq<PageData>, s: seq<PageData>, part: Part, root: PageId) {
    part.TreePart? && part.root == root && PartInv(s, part) && forall x :: x in PartIds(part) ==> |s0| <= x
  }

  lemma NewTreeEnds(s0: seq<PageData>, s: seq<PageData>, part: Part)
    requires part.TreePart? && TreeInv(s, part.root, part.tree, part.height, part.lo, part.hi)
    requires Separate(s0, part.tree, s, part.lo, part.hi)
    ensures NewTree(s0, s, part, part.root) && s0 <= s
  {
  }

  /** The effect of naming a new tree in the catalog. */
  lemma IndexStep(s0: seq<PageData>, s: seq<PageData>, tables: map<string, TableMeta>, parts: map<PartKey, Part>, n: string,
                  index: IndexMeta, part: Part)
    requires PartsInv(s0, parts) && Linked(tables, parts) && n in tables && s0 <= s && NewTree(s0, s, part, index.root)
    ensures var meta, parts' := tables[n], parts[TreeKey(n, |tables[n].indexes|) := part];
      var tables', v := tables[n := meta.(indexes := meta.indexes + [index])], Views(tables, parts)[n];
      && PartsInv(s, parts') && Linked(tables', parts') && NoReuse(s0, parts, parts')
      && Views(tables', parts') ==
         Views(tables, parts)[n := v.(columns := v.columns + [index.column], maps := v.maps + [EntryList.Contents(Entries(part.tree))])]
  {
    hide PartsInv, Linked, PartInv, NoReuse, EntryList.Contents, Ids, PartIds;
    ViewIs(tables, parts, n);
    TreeAppended(tables, parts, n, index, part);
    hide ViewOf;
    PartAdded(s0, s, parts, TreeKey(n, |tables[n].indexes|), part);
  }

  /** The effect of naming a new heap in the catalog. */
  lemma TableStep(s0: seq<PageData>, s: seq<PageData>, tables: map<string, TableMeta>, parts: map<PartKey, Part>, n: string,
                  meta: TableMeta, part: Part)
    requires PartsInv(s0, parts) && Linked(tables, parts) && n !in tables && s0 <= s && meta.indexes == []
    requires part.HeapPart? && part.schema == meta.schema && part.first == meta.firstPage
    requires HeapInv(s, part.schema, part.first, part.chain) && HeapIds(part.chain) == {part.first} && part.first == |s0|
    requires Items(part.schema, part.chain) == []
    ensures var tables', parts' := tables[n := meta], parts[HeapKey(n) := part];
      && PartsInv(s, parts') && Linked(tables', parts') && NoReuse(s0, parts, parts')
      && Views(tables', parts') == Views(tables, parts)[n := TableView(meta.schema, [], [], [])]
  {
    hide PartsInv, Linked, HeapInv, NoReuse, Views, Items;
    TableAdded(tables, parts, n, meta, part);
    PartAdded(s0, s, parts, HeapKey(n), part);
  }

  /** At least one column, and the names of the columns are neither empty nor repeated. */
  predicate SchemaOk(columns: Schema) {
    && columns != [] && (forall i :: 0 <= i < |columns| ==> columns[i].name != "")
    && forall i, j :: 0 <= i < j < |columns| ==> columns[i].name != columns[j].name
  }

  lemma SchemaOkMeans(columns: Schema)
    ensures SchemaOk(columns) <==>
      columns != [] && (forall i :: 0 <= i < |columns| ==> columns[i].name != "")
      && forall i, j :: 0 <= i < j < |columns| ==> columns[i].name != columns[j].name
  {
  }

  predicate HasIndex(indexes: seq<IndexMeta>, name: string) {
    exists i :: 0 <= i < |indexes| && indexes[i].name == name
  }

  /** The statement names a table, one of its INT columns, and a new index. */
  ghost predicate IndexAccepted(tables: map<string, TableMeta>, name: string, n: string, column: string) {
    && n in tables && ColumnIndex(tables[n].schema, column).Some?
    && tables[n].schema[ColumnIndex(tables[n].schema, column).value].columnType == IntType
    && !HasIndex(tables[n].indexes, name)
  }

  lemma IndexAcceptMeans(tables: map<string, TableMeta>, name: string, n: string, column: string)
    ensures IndexAccepted(tables, name, n, column) <==>
      && n in tables && ColumnIndex(tables[n].schema, column).Some?
      && tables[n].schema[ColumnIndex(tables[n].schema, column).value].columnType == IntType
      && !HasIndex(tables[n].indexes, name)
  {
  }

  /** An index is made exactly if the first column of that name is an INT column and no index of the table has its name. */
  lemma IndexAcceptedIff(tables: map<string, TableMeta>, name: string, n: string, column: string)
    ensures IndexAccepted(tables, name, n, column) <==>
      && n in tables && (forall i :: 0 <= i < |tables[n].indexes| ==> tables[n].indexes[i].name != name)
      && exists c: nat :: Names(tables[n].schema, c, column) && tables[n].schema[c].columnType == IntType
  {
    if n in tables {
      forall c: nat | Names(tables[n].schema, c, column) ensures ColumnIndex(tables[n].schema, column) == Some(c) {
      }
    }
    if n in tables && ColumnIndex(tables[n].schema, column).Some? {
      assert Names(tables[n].schema, ColumnIndex(tables[n].schema, column).value, column);
    }
  }

  /** Why a statement that names no column to index is refused; only the last reason is found after the tree was built. */
  ghost function IndexRefusal(tables: map<string, TableMeta>, n: string, column: string): SqlError {
    if n !in tables then NoSuchTable
    else match ColumnIndex(tables[n].schema, column)
      case None => BadWhere(UnknownColumn)
      case Some(c) => if tables[n].schema[c].columnType != IntType then NotAnIntColumn else IndexExists
  }

  lemma IndexRefusalMeans(tables: map<string, TableMeta>, n: string, column: string)
    ensures n !in tables ==> IndexRefusal(tables, n, column) == NoSuchTable
    ensures n in tables && ColumnIndex(tables[n].schema, column).None? ==> IndexRefusal(tables, n, column) == BadWhere(UnknownColumn)
    ensures n in tables && ColumnIndex(tables[n].schema, column).Some? ==>
      var c := ColumnIndex(tables[n].schema, column).value;
      IndexRefusal(tables, n, column) == if tables[n].schema[c].columnType != IntType then NotAnIntColumn else IndexExists
  {
  }

  /** No key of the column to be indexed is carried by more than six live rows. */
  ghost predicate FewToIndex(views: map<string, TableView>, n: string, column: string) {
    n in views && ColumnIndex(views[n].schema, column).Some? ==> FewRows(views[n].items, ColumnIndex(views[n].schema, column).value)
  }

  lemma FewToIndexMeans(views: map<string, TableView>, n: string, column: string)
    ensures FewToIndex(views, n, column) && n in views && ColumnIndex(views[n].schema, column).Some? ==>
      FewRows(views[n].items, ColumnIndex(views[n].schema, column).value)
  {
  }

  lemma StorableIn(views: map<string, TableView>, n: string)
    ensures StorableViews(views) && n in views ==> Storables(views[n].items)
  {
  }

  /** The lists of an index that is being built are short if there are few rows per key. */
  lemma StillFew(items: seq<Item>, c: nat, i: nat, rows: seq<(RowPointer, Row)>)
    requires Keyed(items, c) && DistinctPointers(items) && rows == LiveRows(items) && i <= |rows|
    ensures KeyedRows(rows[..i], c)
    ensures Storables(items) && FewRows(items, c) ==> FewPointers(Built(rows[..i], c), 6)
  {
    if Storables(items) && FewRows(items, c) {
      BuildingFew(items, c, i);
    } else {
      LiveRowsKeyed(items, c);
    }
  }

  lemma BuiltIs(rows: seq<(RowPointer, Row)>, c: nat, i: nat, m: map<int, seq<RowPointer>>)
    requires BuiltSoFar(rows, c, i, m)
    ensures i <= |rows| && KeyedRows(rows[..i], c) && m == Built(rows[..i], c)
  {
  }

  /** Table `n` got one more index; rows and other indexes are as before. */
  ghost predicate IndexCreated(views: map<string, TableView>, views': map<string, TableView>, n: string, column: string, count: nat) {
    && n in views && n in views' && views' == views[n := views'[n]]
    && views'[n].schema == views[n].schema && views'[n].items == views[n].items
    && views'[n].columns == views[n].columns + [column]
    && |views'[n].maps| == |views[n].maps| + 1 && views'[n].maps[..|views[n].maps|] == views[n].maps
    && count == |LiveRows(views[n].items)|
  }

  lemma CreatedMeans(views: map<string, TableView>, n: string, column: string, m: map<int, seq<RowPointer>>)
    requires n in views
    ensures var views' := views[n := views[n].(columns := views[n].columns + [column], maps := views[n].maps + [m])];
      IndexCreated(views, views', n, column, |LiveRows(views[n].items)|)
  {
  }

  // ---------- Queries and runs ----------

  lemma UsableMeans(columns: seq<string>, filter: Option<Where>)
    ensures Usable(columns, filter) <==>
      filter.Some? && filter.value.op == EQ && filter.value.value.IntValue? && filter.value.column in columns
  {
  }

  lemma Unfilterable(views: map<string, TableView>, n: string, filter: Option<Where>, e: WhereError)
    requires n in views && LiveRows(views[n].items) != [] && WhereFails(views[n].schema, filter) == Some(e)
    ensures CannotFilter(views, n, filter) && Fault(views, n, filter, e)
  {
  }

  /** Why a query or a deletion is refused: there is no such table; or there are rows and no column of the name, or they
      have another type in it than the condition. */
  ghost predicate Unanswerable(views: map<string, TableView>, n: string, filter: Option<Where>, error: SqlError) {
    if n !in views then error == NoSuchTable
    else
      && filter.Some? && LiveRows(views[n].items) != []
      && var schema, w := views[n].schema, filter.value;
         if forall i :: 0 <= i < |schema| ==> schema[i].name != w.column then error == BadWhere(UnknownColumn)
         else
           && error == BadWhere(TypeMismatch)
           && exists c: nat :: Names(schema, c, w.column) && (schema[c].columnType == IntType) == w.value.TextValue?
  }

  /** It is refused exactly if there is a reason. */
  lemma RefusedIff(views: map<string, TableView>, n: string, filter: Option<Where>)
    ensures CannotFilter(views, n, filter) <==> exists error :: Unanswerable(views, n, filter, error)
  {
    WhyRefused(views, n, filter);
    if CannotFilter(views, n, filter) && n in views {
      assert Fault(views, n, filter, WhereFails(views[n].schema, filter).value);
    }
    if error :| Unanswerable(views, n, filter, error) {
      if n in views && ColumnIndex(views[n].schema, filter.value.column).Some? {
        var c: nat :| Names(views[n].schema, c, filter.value.column)
                      && (views[n].schema[c].columnType == IntType) == filter.value.value.TextValue?;
        assert ColumnIndex(views[n].schema, filter.value.column) == Some(c);
      }
    }
  }

  lemma WhyRefused(views: map<string, TableView>, n: string, filter: Option<Where>)
    ensures n !in views ==> Unanswerable(views, n, filter, NoSuchTable)
    ensures forall e :: Fault(views, n, filter, e) ==> Unanswerable(views, n, filter, BadWhere(e))
  {
    if n in views && WhereFails(views[n].schema, filter).Some? {
      var c := ColumnIndex(views[n].schema, filter.value.column);
      assert c.Some? ==> Names(views[n].schema, c.value, filter.value.column);
    }
  }

  lemma NoRowsAt(items: seq<Item>, ps: seq<RowPointer>)
    ensures RowsAt(items, ps[..0]) == []
  {
  }

  lemma RowAtMeans(items: seq<Item>, p: RowPointer)
    requires FindItem(items, p).Some?
    ensures RowAt(items, p) == FindItem(items, p).value.row
  {
  }

  lemma SlotMeans(views: map<string, TableView>, n: string, p: RowPointer)
    requires n in views && FindItem(views[n].items, p).Some?
    ensures HasSlot(views, n, p)
  {
  }

  /** The row of an INSERT statement fits into an empty page, if it can be stored at all. */
  ghost predicate Short(statement: Statement) {
    statement.Insert? && RowStorable(statement.values) ==> |RowBytes(statement.values)| <= MAX_RECORD
  }

  lemma ShortMeans(statement: Statement, tables: map<string, TableMeta>)
    requires statement.Insert? && Short(statement)
    ensures ShortEnough(tables, statement.table, statement.values)
  {
  }

  /** The statement names a table and gives it a row it can store. */
  ghost predicate InsertAccepted(tables: map<string, TableMeta>, n: string, values: Row) {
    n in tables && RowMatches(tables[n].schema, values) && RowStorable(values)
  }

  /** A row is accepted exactly if it has one value of the right type for each column, integers of 64 bits, and texts of less
      than 2^32 bytes. */
  lemma InsertAcceptedIff(tables: map<string, TableMeta>, n: string, values: Row)
    ensures InsertAccepted(tables, n, values) <==>
      && n in tables && |values| == |tables[n].schema|
      && forall i :: 0 <= i < |values| ==>
         if tables[n].schema[i].columnType == IntType then
           values[i].IntValue? && -0x8000_0000_0000_0000 <= values[i].n < 0x8000_0000_0000_0000
         else values[i].TextValue? && |Utf8.Encode(values[i].text)| < 0x1_0000_0000
  {
  }

  /** Why an insertion is refused: there is no such table, or the row cannot be encoded for it. */
  ghost predicate Uninsertable(tables: map<string, TableMeta>, n: string, values: Row, error: SqlError) {
    if n !in tables then error == NoSuchTable
    else error.BadInsert? && error.cause.BadRow? && Unencodable(tables[n].schema, values, error.cause.error)
  }

  lemma CannotInsert(tables: map<string, TableMeta>, n: string, values: Row, cause: HeapError)
    requires n in tables && cause.BadRow? && Unencodable(tables[n].schema, values, cause.error)
    ensures Uninsertable(tables, n, values, BadInsert(cause))
  {
  }

  lemma NoTableToInsert(tables: map<string, TableMeta>, n: string, values: Row)
    requires n !in tables
    ensures Uninsertable(tables, n, values, NoSuchTable)
  {
  }

  /** The encoded row fits into an empty page; otherwise insertion would not come to an end. */
  ghost predicate ShortEnough(tables: map<string, TableMeta>, n: string, values: Row) {
    InsertAccepted(tables, n, values) ==> |RowBytes(values)| <= MAX_RECORD
  }

  lemma AcceptMeans(tables: map<string, TableMeta>, n: string, values: Row)
    ensures InsertAccepted(tables, n, values) <==> n in tables && RowMatches(tables[n].schema, values) && RowStorable(values)
    ensures ShortEnough(tables, n, values) && InsertAccepted(tables, n, values) ==> |RowBytes(values)| <= MAX_RECORD
  {
  }

  lemma RowEnters(views: map<string, TableView>, views1: map<string, TableView>, tables: map<string, TableMeta>, n: string, p: RowPointer, row: Row)
    requires AllGood(views) && RowAdded(views, views1, n, p, row) && InsertAccepted(tables, n, row) && tables[n].schema == views[n].schema
    ensures EnteringIn(views1, n, views[n].items, row, p)
  {
    InsertStarts(views, views1, n, p, row);
  }

  /** The same tables with the same schemas and index columns; only root pages may differ. */
  ghost predicate SameCatalog(tables: map<string, TableMeta>, tables': map<string, TableMeta>) {
    tables'.Keys == tables.Keys && forall n :: n in tables ==>
      && tables'[n].schema == tables[n].schema && tables'[n].firstPage == tables[n].firstPage
      && ColumnsOf(tables'[n].indexes) == ColumnsOf(tables[n].indexes) && NamesOf(tables'[n].indexes) == NamesOf(tables[n].indexes)
  }

  /** The catalog has one more table, without indexes. */
  ghost predicate TableNamed(tables: map<string, TableMeta>, tables': map<string, TableMeta>, n: string, columns: Schema) {
    n in tables' && tables' == tables[n := tables'[n]] && tables'[n].schema == columns && tables'[n].indexes == []
  }

  /** The catalog has one more index. */
  ghost predicate IndexNamed(tables: map<string, TableMeta>, tables': map<string, TableMeta>, n: string, name: string, column: string) {
    && n in tables && n in tables' && tables' == tables[n := tables'[n]]
    && tables'[n].schema == tables[n].schema && tables'[n].firstPage == tables[n].firstPage
    && NamesOf(tables'[n].indexes) == NamesOf(tables[n].indexes) + [name]
    && ColumnsOf(tables'[n].indexes) == ColumnsOf(tables[n].indexes) + [column]
  }

  lemma IndexIsNamed(tables: map<string, TableMeta>, n: string, name: string, column: string, root: PageId)
    requires n in tables
    ensures IndexNamed(tables, tables[n := tables[n].(indexes := tables[n].indexes + [IndexMeta(name, column, root)])], n, name, column)
  {
  }

  lemma TableIsNamed(tables: map<string, TableMeta>, n: string, columns: Schema, first: PageId)
    ensures TableNamed(tables, tables[n := TableMeta(columns, first, [])], n, columns)
  {
  }

  /** What each statement does to the names in the catalog. */
  ghost predicate CatalogStep(tables: map<string, TableMeta>, statement: Statement, r: Response, tables': map<string, TableMeta>) {
    if r.Rejected? then SameCatalog(tables, tables')
    else match statement
      case CreateTable(n, columns) => TableNamed(tables, tables', n, columns)
      case CreateIndex(name, n, column) => IndexNamed(tables, tables', n, name, column)
      case _ => SameCatalog(tables, tables')
  }

  /** A slot of a table lies on one of its pages. */
  lemma KnownPage(schema: Schema, first: PageId, hs: seq<HeapPage>, s: seq<PageData>, p: RowPointer)
    requires HeapInv(s, schema, first, hs) && FindItem(Items(schema, hs), p).Some?
    ensures p.pageId in HeapIds(hs)
  {
    ItemPointers(schema, hs);
    var i :| 0 <= i < |Items(schema, hs)| && Items(schema, hs)[i] == FindItem(Items(schema, hs), p).value;
  }
}
