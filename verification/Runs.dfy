/** Theorems about whole runs of SQL statements. */
module Runs {
  import opened Storage
  import opened HeapModel
  import opened HeapFiles
  import opened Parts
  import opened Statements
  import opened Agreement
  import opened Engine

  /** The statement closes a transaction. */
  predicate Closes(statement: Statement) {
    statement == Transaction(Commit) || statement == Transaction(Rollback)
  }

  /** Statement `i` opened a transaction that no statement before `j` closed. */
  ghost predicate OpenedAt(trace: seq<Snapshot>, statements: seq<Statement>, responses: seq<Response>, i: nat, j: nat) {
    && Run(trace, statements, responses) && i < j <= |statements|
    && statements[i] == Transaction(Begin) && responses[i].Started?
    && forall k :: i < k < j ==> !Closes(statements[k])
  }

  /** Until it is closed, a transaction keeps its id, and the rows at its start are remembered. */
  lemma {:induction false} StaysOpen(trace: seq<Snapshot>, statements: seq<Statement>, responses: seq<Response>, i: nat, j: nat)
    requires OpenedAt(trace, statements, responses, i, j)
    ensures trace[j].active == Some(responses[i].txid) && trace[j].base == LiveOf(trace[i].view)
    decreases j
  {
    hide AllGood, LiveOf, SlotsKept, IndexAccepted, InsertAccepted, IndexCreated, RowInserted, RowsDeleted, SelectedRows, CannotFilter;
    var k := j - 1;
    assert Step(trace[k], statements[k], responses[k], trace[k + 1]);
    if k > i {
      StaysOpen(trace, statements, responses, i, k);
    }
  }

  /** ROLLBACK gives every table exactly the live rows, in the same scan order, that it had before BEGIN, whatever
      statements were executed in between; a table created in between is left empty. */
  lemma RollbackRestores(trace: seq<Snapshot>, statements: seq<Statement>, responses: seq<Response>, i: nat, j: nat)
    requires OpenedAt(trace, statements, responses, i, j) && j < |statements| && statements[j] == Transaction(Rollback)
    ensures responses[j] == RolledBack
    ensures forall n :: n in trace[j + 1].view ==>
      LiveRows(trace[j + 1].view[n].items) == if n in trace[i].view then LiveRows(trace[i].view[n].items) else []
  {
    hide AllGood, SlotsKept;
    StaysOpen(trace, statements, responses, i, j);
    assert Step(trace[j], statements[j], responses[j], trace[j + 1]);
  }

  /** A pointer names the same row for the rest of the run, through any deletions and rollbacks. */
  lemma {:induction false} PointersStay(trace: seq<Snapshot>, statements: seq<Statement>, responses: seq<Response>, i: nat, j: nat)
    requires Run(trace, statements, responses) && i <= j < |trace|
    ensures SlotsKept(trace[i].view, trace[j].view)
    decreases j
  {
    hide Effect, AllGood, SlotsKept;
    if i == j {
      SlotsKeptSame(trace[i].view);
    } else {
      PointersStay(trace, statements, responses, i, j - 1);
      assert Step(trace[j - 1], statements[j - 1], responses[j - 1], trace[j]);
      SlotsKeptTrans(trace[i].view, trace[j - 1].view, trace[j].view);
    }
  }

  /** No two insertions into a table are given the same pointer, even if the first of them was rolled back. */
  lemma PointersAreNew(trace: seq<Snapshot>, statements: seq<Statement>, responses: seq<Response>, i: nat, j: nat)
    requires Run(trace, statements, responses) && i < j < |statements|
    requires statements[i].Insert? && responses[i].RowMade? && statements[j].Insert? && responses[j].RowMade?
    requires statements[i].table == statements[j].table
    ensures responses[i].pointer != responses[j].pointer
  {
    hide AllGood, InsertAccepted;
    var n, p := statements[i].table, responses[i].pointer;
    PointersStay(trace, statements, responses, i + 1, j);
    assert Step(trace[i], statements[i], responses[i], trace[i + 1]);
    assert Step(trace[j], statements[j], responses[j], trace[j + 1]);
    InsertedThere(trace[i].view[n].items, trace[i + 1].view[n].items, Item(p, statements[i].values, true));
    assert HasSlot(trace[i + 1].view, n, p);
    assert HasSlot(trace[j].view, n, p);
  }

  lemma InsertedThere(a: seq<Item>, b: seq<Item>, item: Item)
    requires ItemAdded(a, b, item)
    ensures FindItem(b, item.pointer).Some?
  {
    var k :| 0 <= k <= |a| && b == InsertItem(a, k, item);
    assert b[k] == item;
  }

  /** Indexes change no answer: the same query on the same rows finds the same rows, with whatever indexes. */
  lemma IndexesAreTransparent(a: Snapshot, b: Snapshot, n: string, filter: Option<Where>, x: Response, y: Response)
    requires Step(a, Select(n, filter), x, a) && Step(b, Select(n, filter), y, b)
    requires n in a.view && n in b.view && a.view[n].items == b.view[n].items && a.view[n].schema == b.view[n].schema
    ensures x.RowsFound? <==> y.RowsFound?
    ensures x.RowsFound? ==> multiset(x.rows) == multiset(y.rows)
  {
    hide SlotsKept, TableGood, Usable;
  }

  /** COMMIT keeps what was done: the rows stay as they are, and until the next BEGIN there is nothing that ROLLBACK could
      undo. */
  lemma {:induction false} CommitIsFinal(trace: seq<Snapshot>, statements: seq<Statement>, responses: seq<Response>, i: nat, j: nat)
    requires Run(trace, statements, responses) && i < j < |trace| && statements[i] == Transaction(Commit)
    requires forall k :: i < k < j ==> statements[k] != Transaction(Begin)
    ensures trace[i + 1].view == trace[i].view && (responses[i] == Committed <==> trace[i].active.Some?)
    ensures trace[j].active == None
    ensures j < |statements| && statements[j] == Transaction(Rollback) ==>
      responses[j] == Rejected(NoTransaction) && trace[j + 1].view == trace[j].view
    decreases j
  {
    hide AllGood, LiveOf, SlotsKept, CatalogStep, IndexAccepted, InsertAccepted, IndexCreated, RowInserted, RowsDeleted, SelectedRows, CannotFilter;
    assert Step(trace[i], statements[i], responses[i], trace[i + 1]);
    if j > i + 1 {
      CommitIsFinal(trace, statements, responses, i, j - 1);
      assert Step(trace[j - 1], statements[j - 1], responses[j - 1], trace[j]);
    }
    if j < |statements| {
      assert Step(trace[j], statements[j], responses[j], trace[j + 1]);
    }
  }

  /** The catalog never forgets: tables keep their schema, and indexes keep their names, columns and order. */
  ghost predicate CatalogGrown(tables: map<string, TableMeta>, tables': map<string, TableMeta>) {
    forall n :: n in tables ==>
      && n in tables' && tables'[n].schema == tables[n].schema
      && NamesOf(tables[n].indexes) <= NamesOf(tables'[n].indexes) && ColumnsOf(tables[n].indexes) <= ColumnsOf(tables'[n].indexes)
  }

  lemma StepGrows(tables: map<string, TableMeta>, statement: Statement, r: Response, tables': map<string, TableMeta>)
    requires CatalogStep(tables, statement, r, tables')
    requires statement.CreateTable? && !r.Rejected? ==> statement.table !in tables
    ensures CatalogGrown(tables, tables')
  {
  }

  lemma GrownSame(a: map<string, TableMeta>)
    ensures CatalogGrown(a, a)
  {
  }

  lemma GrownTrans(a: map<string, TableMeta>, b: map<string, TableMeta>, c: map<string, TableMeta>)
    requires CatalogGrown(a, b) && CatalogGrown(b, c)
    ensures CatalogGrown(a, c)
  {
  }

  lemma {:induction false} CatalogGrows(trace: seq<Snapshot>, statements: seq<Statement>, responses: seq<Response>, i: nat, j: nat)
    requires Run(trace, statements, responses) && i <= j < |trace|
    ensures CatalogGrown(trace[i].tables, trace[j].tables)
    decreases j
  {
    hide AllGood, SlotsKept, SchemaOk, IndexAccepted, InsertAccepted, IndexCreated, RowInserted, RowsDeleted, SelectedRows, CannotFilter,
      CatalogStep, CatalogGrown;
    if i < j {
      CatalogGrows(trace, statements, responses, i, j - 1);
      assert Step(trace[j - 1], statements[j - 1], responses[j - 1], trace[j]);
      StepGrows(trace[j - 1].tables, statements[j - 1], responses[j - 1], trace[j].tables);
      GrownTrans(trace[i].tables, trace[j - 1].tables, trace[j].tables);
    } else {
      GrownSame(trace[i].tables);
    }
  }

  /** The name of a table is given once: after a CREATE TABLE that succeeded, another one for the same name is refused, even
      when a ROLLBACK lies between. */
  lemma TableNamesTaken(trace: seq<Snapshot>, statements: seq<Statement>, responses: seq<Response>, i: nat, j: nat)
    requires Run(trace, statements, responses) && i < j < |statements|
    requires statements[i].CreateTable? && responses[i].TableMade? && statements[j].CreateTable?
    requires statements[j].table == statements[i].table
    ensures responses[j].Rejected?
  {
    hide AllGood, SlotsKept, SchemaOk;
    CatalogGrows(trace, statements, responses, i + 1, j);
    assert Step(trace[i], statements[i], responses[i], trace[i + 1]);
    assert Step(trace[j], statements[j], responses[j], trace[j + 1]);
  }

  /** So is the name of an index, for each table. */
  lemma IndexNamesTaken(trace: seq<Snapshot>, statements: seq<Statement>, responses: seq<Response>, i: nat, j: nat)
    requires Run(trace, statements, responses) && i < j < |statements|
    requires statements[i].CreateIndex? && responses[i].IndexMade? && statements[j].CreateIndex?
    requires statements[j].table == statements[i].table && statements[j].index == statements[i].index
    ensures responses[j].Rejected?
  {
    hide AllGood, SlotsKept, IndexCreated;
    CatalogGrows(trace, statements, responses, i + 1, j);
    assert Step(trace[i], statements[i], responses[i], trace[i + 1]);
    assert Step(trace[j], statements[j], responses[j], trace[j + 1]);
    var n := statements[i].table;
    var names, names' := NamesOf(trace[i + 1].tables[n].indexes), NamesOf(trace[j].tables[n].indexes);
    var k := |names| - 1;
    assert names[k] == statements[i].index && names'[k] == names[k];
  }
}
