/** When no index node can become too large for its page: no key is carried by more than six live rows. */
module Sparseness {
  import opened Storage
  import opened EntryList
  import opened NodeFit
  import opened HeapModel
  import opened HeapFiles
  import opened Records
  import opened Statements
  import opened Tables
  import opened TxnLog
  import opened Parts
  import opened Agreement

  // ---------- One table ----------

  /** Different pointers, each of a live row with key `k` in column `c`. */
  ghost predicate Listing(items: seq<Item>, c: nat, k: int, ps: seq<RowPointer>) {
    && (forall i :: 0 <= i < |ps| ==> Carries(items, c, k, ps[i]))
    && (forall i, j :: 0 <= i < j < |ps| ==> ps[i] != ps[j])
  }

  /** No key of column `c` is carried by more than six live rows. */
  ghost predicate FewRows(items: seq<Item>, c: nat) {
    forall k, ps :: Listing(items, c, k, ps) ==> |ps| <= 6
  }

  /** The same for every column that has an index. */
  ghost predicate FewPerKey(schema: Schema, columns: seq<string>, items: seq<Item>) {
    forall i :: 0 <= i < |columns| && ColumnIndex(schema, columns[i]).Some? ==> FewRows(items, ColumnIndex(schema, columns[i]).value)
  }

  ghost predicate Storables(items: seq<Item>) {
    forall i :: 0 <= i < |items| ==> StorablePointer(items[i].pointer)
  }

  /** Fewer live rows, fewer rows per key. */
  lemma FewerRows(a: seq<Item>, b: seq<Item>, c: nat)
    requires FewRows(a, c) && forall k, p :: Carries(b, c, k, p) ==> Carries(a, c, k, p)
    ensures FewRows(b, c)
  {
    forall k, ps | Listing(b, c, k, ps) ensures |ps| <= 6 {
      assert Listing(a, c, k, ps);
    }
  }

  lemma HidingKeepsFew(schema: Schema, columns: seq<string>, items: seq<Item>, p: RowPointer)
    requires FewPerKey(schema, columns, items)
    ensures FewPerKey(schema, columns, Marked(items, p, false))
  {
    var after := Marked(items, p, false);
    forall i | 0 <= i < |columns| && ColumnIndex(schema, columns[i]).Some? ensures FewRows(after, ColumnIndex(schema, columns[i]).value) {
      var c := ColumnIndex(schema, columns[i]).value;
      forall k, q | Carries(after, c, k, q) ensures Carries(items, c, k, q) {
        FindMarked(items, p, false, q);
      }
      FewerRows(items, after, c);
    }
  }

  /** An index that agrees with its table lists as few pointers as there are rows. */
  lemma FewListed(items: seq<Item>, c: nat, m: map<int, seq<RowPointer>>)
    requires IndexAgrees(items, c, m) && Storables(items) && FewRows(items, c)
    ensures FewPointers(m, 6)
  {
    forall k | k in m ensures |m[k]| <= 6 && forall p :: p in m[k] ==> StorablePointer(p) {
      var ps := Lookup(m, k);
      forall i | 0 <= i < |ps| ensures Carries(items, c, k, ps[i]) && StorablePointer(ps[i]) {
        assert multiset(ps)[ps[i]] > 0;
        CarrierStored(items, c, k, ps[i]);
      }
      forall i, j | 0 <= i < j < |ps| ensures ps[i] != ps[j] {
        if ps[i] == ps[j] {
          CountedTwice(ps, i, j);
        }
      }
      assert Listing(items, c, k, ps);
    }
  }

  lemma CarrierStored(items: seq<Item>, c: nat, k: int, p: RowPointer)
    requires Carries(items, c, k, p) && Storables(items)
    ensures StorablePointer(p)
  {
    var i :| 0 <= i < |items| && items[i] == FindItem(items, p).value;
  }

  lemma CountedTwice(ps: seq<RowPointer>, i: nat, j: nat)
    requires i < j < |ps| && ps[i] == ps[j]
    ensures multiset(ps)[ps[i]] >= 2
  {
    assert ps == ps[..j] + [ps[j]] + ps[j + 1..];
    assert ps[..j] == ps[..i] + [ps[i]] + ps[i + 1..j];
  }

  // ---------- Inside a statement ----------

  ghost predicate FewIn(views: map<string, TableView>, n: string) {
    n in views ==> FewPerKey(views[n].schema, views[n].columns, views[n].items)
  }

  ghost predicate StorableViews(views: map<string, TableView>) {
    forall n :: n in views ==> Storables(views[n].items)
  }

  /** Were `items` the rows of table `n`, its index nodes would be small enough. */
  ghost predicate Sparse(views: map<string, TableView>, n: string, items: seq<Item>) {
    n in views ==> Storables(items) && FewPerKey(views[n].schema, views[n].columns, items)
  }

  lemma SparseMeans(views: map<string, TableView>, n: string)
    requires n in views
    ensures StorableViews(views) && FewIn(views, n) ==> Sparse(views, n, views[n].items)
  {
    hide FewPerKey, Storables;
  }

  /** Once a row is hidden, there are fewer. */
  lemma HiddenFew(views: map<string, TableView>, views': map<string, TableView>, n: string, p: RowPointer)
    requires Remarked(views, views', n, p, false)
    ensures FewIn(views, n) ==> FewIn(views', n)
  {
    if FewIn(views, n) {
      HidingKeepsFew(views[n].schema, views[n].columns, views[n].items, p);
    }
  }

  /** A pointer that a table has given out names one of at most 816 slots of a page with a 32-bit number. */
  lemma SlotStorable(s: seq<PageData>, schema: Schema, first: PageId, hs: seq<HeapPage>, p: RowPointer)
    requires HeapInv(s, schema, first, hs) && |s| <= NO_PAGE && FindItem(Items(schema, hs), p).Some?
    ensures StorablePointer(p) && p.pageId < 0x1_0000_0000 && p.slotId < 816
  {
    ItemPointers(schema, hs);
    var j :| 0 <= j < |Items(schema, hs)| && Items(schema, hs)[j] == FindItem(Items(schema, hs), p).value;
    var k := PagePosition(hs, p.pageId);
    assert PageRep(s, hs, k);
    SlotFound(schema, hs, p, k);
  }

  /** So do all pointers of a stored heap. */
  lemma HeapStorable(s: seq<PageData>, schema: Schema, first: PageId, hs: seq<HeapPage>)
    requires HeapInv(s, schema, first, hs) && |s| <= NO_PAGE
    ensures Storables(Items(schema, hs))
  {
    var items := Items(schema, hs);
    forall i | 0 <= i < |items| ensures StorablePointer(items[i].pointer) {
      SlotStorable(s, schema, first, hs, items[i].pointer);
    }
  }

  /** Marking a slot changes neither the schema nor the indexes. */
  lemma MarkedSparse(views: map<string, TableView>, n: string, p: RowPointer, live: bool)
    ensures forall items :: Sparse(MarkedIn(views, n, p, live), n, items) <==> Sparse(views, n, items)
  {
    hide FewPerKey, Storables;
  }

  /** Nor does bringing the indexes up to date. */
  lemma SparseKept(views: map<string, TableView>, views': map<string, TableView>, n: string)
    requires Reindexed(views, views', n)
    ensures n in views && n in views' && (Sparse(views', n, views'[n].items) <==> Sparse(views, n, views[n].items))
  {
    hide FewPerKey, Storables;
  }

  /** The list that has just been taken up to date is short. */
  lemma NewMapFew(views: map<string, TableView>, views': map<string, TableView>, n: string, i: nat)
    requires Reindexing(views, views', n, i + 1)
    ensures n in views && n in views' && i < |views'[n].maps|
    ensures Sparse(views, n, views[n].items) ==> FewPointers(views'[n].maps[i], 6)
  {
    if Sparse(views, n, views[n].items) {
      var v := views[n];
      assert ColumnAgrees(v.schema, v.columns[i], v.items, views'[n].maps[i]);
      FewListed(v.items, ColumnIndex(v.schema, v.columns[i]).value, views'[n].maps[i]);
    }
  }

  /** A list that is yet to be taken up to date is short if there were few rows before. */
  lemma OldMapFew(views: map<string, TableView>, views': map<string, TableView>, n: string, i: nat, items0: seq<Item>, row: Row, p: RowPointer)
    requires LeavingIn(views, n, items0, row, p) && Reindexing(views, views', n, i) && n in views' && i < |views'[n].maps|
    ensures Sparse(views, n, items0) ==> FewPointers(views'[n].maps[i], 6)
  {
    if Sparse(views, n, items0) {
      var v := views[n];
      assert ColumnAgrees(v.schema, v.columns[i], items0, v.maps[i]);
      FewListed(items0, ColumnIndex(v.schema, v.columns[i]).value, v.maps[i]);
    }
  }

  // ---------- Undoing a transaction ----------

  /** Whichever of the records have been undone, no key is carried by more than six live rows. */
  ghost predicate FewWhileUndoing(views: map<string, TableView>, rs: seq<LogRecord>) {
    forall n, j :: n in views && 0 <= j <= |rs| ==> FewPerKey(views[n].schema, views[n].columns, UndoItems(views[n].items, n, rs[j..]))
  }

  /** From `views` to `views'` the records were undone. */
  ghost predicate UndoneSince(views: map<string, TableView>, views': map<string, TableView>, rs: seq<LogRecord>) {
    views'.Keys == views.Keys && forall n :: n in views ==>
      && views'[n].schema == views[n].schema && views'[n].columns == views[n].columns
      && views'[n].items == UndoItems(views[n].items, n, rs)
  }

  /** The record undone last is the first one of those undone. */
  lemma {:induction false} UndoFirst(items: seq<Item>, name: string, rs: seq<LogRecord>)
    requires rs != []
    ensures UndoItems(items, name, rs) == UndoMark(UndoItems(items, name, rs[1..]), name, rs[0])
    decreases |rs|
  {
    var n := |rs| - 1;
    if n == 0 {
      assert rs[..0] == [] && rs[1..] == [];
    } else {
      UndoFirst(UndoMark(items, name, rs[n]), name, rs[..n]);
      assert rs[..n][1..] == rs[1..][..n - 1] && rs[1..][n - 1] == rs[n];
    }
  }

  lemma UndoneSinceStarts(views: map<string, TableView>)
    ensures UndoneSince(views, views, [])
  {
  }

  lemma UndoneSinceGrows(views: map<string, TableView>, views1: map<string, TableView>, views2: map<string, TableView>, rs: seq<LogRecord>, j: nat)
    requires j < |rs| && UndoneSince(views, views1, rs[j + 1..]) && UndoneOnce(views1, views2, rs[j])
    ensures UndoneSince(views, views2, rs[j..])
  {
    forall n | n in views ensures views2[n].items == UndoItems(views[n].items, n, rs[j..]) {
      assert rs[j..][1..] == rs[j + 1..];
      UndoFirst(views[n].items, n, rs[j..]);
    }
  }

  lemma {:induction false} UndoStorable(items: seq<Item>, name: string, rs: seq<LogRecord>)
    requires Storables(items)
    ensures Storables(UndoItems(items, name, rs))
    decreases |rs|
  {
    if rs != [] {
      UndoStorable(UndoMark(items, name, rs[|rs| - 1]), name, rs[..|rs| - 1]);
    }
  }

  ghost predicate AllSparse(views: map<string, TableView>) {
    forall n :: n in views ==> Sparse(views, n, views[n].items)
  }

  lemma AllSparseMeans(views: map<string, TableView>)
    ensures forall n :: AllSparse(views) && n in views ==> Sparse(views, n, views[n].items)
  {
  }

  /** At any point of an undo the index nodes are small enough. */
  lemma SparseWhileUndoing(views: map<string, TableView>, views': map<string, TableView>, rs: seq<LogRecord>, j: nat)
    requires j <= |rs| && UndoneSince(views, views', rs[j..])
    ensures StorableViews(views) && FewWhileUndoing(views, rs) ==> AllSparse(views')
  {
    if StorableViews(views) && FewWhileUndoing(views, rs) {
      forall n | n in views' ensures Sparse(views', n, views'[n].items) {
        UndoStorable(views[n].items, n, rs[j..]);
      }
    }
  }

  // ---------- Building an index ----------

  lemma FewBefore(m: map<int, seq<RowPointer>>, k: int, p: RowPointer)
    requires FewPointers(Added(m, k, p), 6)
    ensures FewPointers(m, 6)
  {
    var m' := Added(m, k, p);
    forall k' | k' in m ensures |m[k']| <= 6 && forall q :: q in m[k'] ==> StorablePointer(q) {
      assert k' in m' && m'[k'] == if k' == k then m[k] + [p] else m[k'];
      assert forall q :: q in m[k'] ==> q in m'[k'];
    }
  }

  /** While an index is built its lists only grow. */
  lemma {:induction false} BuiltFew(rows: seq<(RowPointer, Row)>, c: nat, i: nat)
    requires KeyedRows(rows, c) && i <= |rows| && FewPointers(Built(rows, c), 6)
    ensures KeyedRows(rows[..i], c) && FewPointers(Built(rows[..i], c), 6)
    decreases |rows|
  {
    if i == |rows| {
      assert rows[..i] == rows;
    } else {
      var n := |rows| - 1;
      FewBefore(Built(rows[..n], c), rows[n].1[c].n, rows[n].0);
      BuiltFew(rows[..n], c, i);
      assert rows[..n][..i] == rows[..i];
    }
  }

  /** An index built on a table with few rows per key has short lists from beginning to end. */
  lemma BuildingFew(items: seq<Item>, c: nat, i: nat)
    requires Keyed(items, c) && DistinctPointers(items) && Storables(items) && FewRows(items, c) && i <= |LiveRows(items)|
    ensures KeyedRows(LiveRows(items), c) && KeyedRows(LiveRows(items)[..i], c) && FewPointers(Built(LiveRows(items)[..i], c), 6)
  {
    BuiltAgrees(items, c);
    FewListed(items, c, Built(LiveRows(items), c));
    BuiltFew(LiveRows(items), c, i);
  }
}
