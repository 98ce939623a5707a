/** What SELECT answers through an index whose root page was given up by a deletion. */
module StaleAnswers {
  import opened Storage
  import opened EntryList
  import opened TreeModel
  import opened TreePath
  import opened HeapModel
  import opened HeapFiles
  import opened Records
  import opened Statements
  import opened Tables
  import opened Descents
  import opened StaleRoots

  /** The rows read for a list of pointers: what is not there, dead or does not match is skipped. */
  ghost function ReadRows(schema: Schema, items: seq<Item>, ps: seq<RowPointer>, w: Where): seq<Row>
    requires AllMatch(schema, items)
  {
    if ps == [] then []
    else
      var n := |ps| - 1;
      ReadRows(schema, items, ps[..n], w) + if Selected(schema, items, Some(w), ps[n]) then [RowAt(items, ps[n])] else []
  }

  lemma RowsAtLast(items: seq<Item>, ps: seq<RowPointer>)
    requires ps != []
    ensures RowsAt(items, ps) == RowsAt(items, ps[..|ps| - 1]) + [RowAt(items, ps[|ps| - 1])]
  {
    hide RowAt;
  }

  lemma {:induction false} ReadSelected(schema: Schema, items: seq<Item>, ps: seq<RowPointer>, w: Where)
    requires AllMatch(schema, items) && forall p :: p in ps ==> Selected(schema, items, Some(w), p)
    ensures ReadRows(schema, items, ps, w) == RowsAt(items, ps)
    decreases |ps|
  {
    if ps != [] {
      var n := |ps| - 1;
      hide Selected, RowAt, RowsAt, AllMatch;
      RowsAtLast(items, ps);
      assert ps[n] in ps;
      assert forall p :: p in ps[..n] ==> p in ps;
      ReadSelected(schema, items, ps[..n], w);
    }
  }

  /** A list that an index should have gives the answer of the scan. */
  lemma ReadAgreed(schema: Schema, items: seq<Item>, c: nat, m: map<int, seq<RowPointer>>, w: Where)
    requires AllMatch(schema, items) && DistinctPointers(items) && IndexAgrees(items, c, m)
    requires ColumnIndex(schema, w.column) == Some(c) && w.op == EQ && w.value.IntValue?
    ensures multiset(ReadRows(schema, items, Lookup(m, w.value.n), w)) == multiset(RowsOf(Answer(schema, items, Some(w))))
  {
    var ps := Lookup(m, w.value.n);
    hide ReadRows, RowsAt, Answer, Lookup, AllMatch;
    forall p | p in ps ensures Selected(schema, items, Some(w), p) {
      assert multiset(ps)[p] > 0;
      assert Carries(items, c, w.value.n, p);
      CarriesSelected(schema, items, c, w, p);
    }
    ReadSelected(schema, items, ps, w);
    IndexedAnswer(schema, items, c, m, w);
  }

  lemma MarkedMatches(schema: Schema, items: seq<Item>, p: RowPointer, live: bool)
    requires AllMatch(schema, items) && DistinctPointers(items)
    ensures AllMatch(schema, Marked(items, p, live)) && DistinctPointers(Marked(items, p, live))
  {
  }

  /** An index and its table before a deletion of the row under `p`, which the index lists under `key`. */
  ghost predicate Before(schema: Schema, items: seq<Item>, column: string, c: nat, t: Tree, key: int, p: RowPointer) {
    && AllMatch(schema, items) && DistinctPointers(items) && IndexAgrees(items, c, Contents(Entries(t)))
    && ColumnIndex(schema, column) == Some(c) && Carries(items, c, key, p)
  }

  lemma RowDeleted(schema: Schema, items: seq<Item>, column: string, c: nat, t: Tree, key: int, p: RowPointer)
    requires Before(schema, items, column, c, t, key, p)
    ensures IndexAgrees(Marked(items, p, false), c, Removed(Contents(Entries(t)), key, p))
    ensures FindItem(items, p).Some? && !Carries(Marked(items, p, false), c, key, p)
  {
    var row := FindItem(items, p).value.row;
    DeleteLoses(items, p, row);
    FindMarked(items, p, false, p);
    hide Entries, Contents;
    LossAgrees(items, Marked(items, p, false), c, Contents(Entries(t)), p, row, key);
  }

  /** Right after the deletion every equality query still answers as the scan does, although the index is read from the root
      page that was given up: the pointer that may still be listed names a dead row, which is skipped. */
  lemma AnswersAfterDeletion(s: seq<PageData>, s': seq<PageData>, root: PageId, root': PageId, t: Tree, t': Tree,
                             h: nat, lo: int, hi: int, h': nat, lo': int, hi': int, key: int, p: RowPointer,
                             schema: Schema, items: seq<Item>, column: string, c: nat, k: int)
    requires RootMoved(s, s', root, root', t, t', h, lo, hi, h', lo', hi', key, p)
    requires Before(schema, items, column, c, t, key, p)
    ensures var after, w := Marked(items, p, false), KeyQuery(column, k);
      && AllMatch(schema, after) && Arrives(s', root, k, h)
      && multiset(ReadRows(schema, after, SearchFrom(s', root, k, h), w)) == multiset(RowsOf(Answer(schema, after, Some(w))))
  {
    hide *;
    var after, w, m := Marked(items, p, false), KeyQuery(column, k), Removed(Contents(Entries(t)), key, p);
    BeforeMeans(schema, items, column, c, t, key, p, k);
    MarkedMatches(schema, items, p, false);
    RowDeleted(schema, items, column, c, t, key, p);
    StaleSearch(s, s', root, root', t, t', h, lo, hi, h', lo', hi', key, p, k);
    ReadAgreed(schema, after, c, m, w);
    if k == key && RightOfAll(t, key) {
      OnlyPointer(s, s', root, root', t, t', h, lo, hi, h', lo', hi', key, p);
      CarriesSelected(schema, after, c, w, p);
      DeadSkipped(schema, after, p, w);
    }
  }

  lemma BeforeMeans(schema: Schema, items: seq<Item>, column: string, c: nat, t: Tree, key: int, p: RowPointer, k: int)
    requires Before(schema, items, column, c, t, key, p)
    ensures AllMatch(schema, items) && DistinctPointers(items) && IndexAgrees(items, c, Contents(Entries(t))) && Carries(items, c, key, p)
    ensures var w := KeyQuery(column, k); ColumnIndex(schema, w.column) == Some(c) && w.op == EQ && w.value == IntValue(k)
  {
  }

  /** A pointer to a row that does not qualify is as good as none. */
  lemma DeadSkipped(schema: Schema, items: seq<Item>, p: RowPointer, w: Where)
    requires AllMatch(schema, items) && !Selected(schema, items, Some(w), p)
    ensures ReadRows(schema, items, [p], w) == ReadRows(schema, items, [], w)
  {
    hide Selected, AllMatch;
    assert [p][..0] == [];
  }

  /** After ROLLBACK has put the row and its pointer back, the queries answer as the scan does, except the one for the key of
      that row: if the key lay to the right at every branch on its path, that one returns the row twice. */
  lemma AnswersAfterRollback(s: seq<PageData>, s': seq<PageData>, root: PageId, root': PageId, t: Tree, t': Tree,
                             h: nat, lo: int, hi: int, h': nat, lo': int, hi': int, key: int, p: RowPointer,
                             schema: Schema, items: seq<Item>, column: string, c: nat, k: int)
    requires RootMoved(s, s', root, root', t, t', h, lo, hi, h', lo', hi', key, p)
    requires Before(schema, items, column, c, t, key, p)
    ensures Marked(Marked(items, p, false), p, true) == items && InsertFrom(s', root, key, p, h).Some?
    ensures Arrives(InsertFrom(s', root, key, p, h).value, root, k, h)
    ensures var pages, w := InsertFrom(s', root, key, p, h).value, KeyQuery(column, k);
      multiset(ReadRows(schema, items, SearchFrom(pages, root, k, h), w)) == multiset(RowsOf(Answer(schema, items, Some(w))))
      <==> !(k == key && RightOfAll(t, key))
  {
    hide *;
    var w := KeyQuery(column, k);
    BeforeMeans(schema, items, column, c, t, key, p, k);
    RestoredSame(items, c, key, p);
    StaleRollback(s, s', root, root', t, t', h, lo, hi, h', lo', hi', key, p, k);
    ReadAgreed(schema, items, c, Contents(Entries(t)), w);
    if k == key && RightOfAll(t, key) {
      OnlyPointer(s, s', root, root', t, t', h, lo, hi, h', lo', hi', key, p);
      CarriesSelected(schema, items, c, w, p);
      assert multiset(ReadRows(schema, items, [p], w)) == multiset(RowsOf(Answer(schema, items, Some(w))));
      ReadOnce(schema, items, p, w);
    }
  }

  lemma ReadOnce(schema: Schema, items: seq<Item>, p: RowPointer, w: Where)
    requires AllMatch(schema, items) && Selected(schema, items, Some(w), p)
    ensures ReadRows(schema, items, [p], w) == [RowAt(items, p)]
    ensures ReadRows(schema, items, [p, p], w) == [RowAt(items, p), RowAt(items, p)]
    ensures multiset([RowAt(items, p)]) != multiset([RowAt(items, p), RowAt(items, p)])
  {
    hide Selected, RowAt;
    assert [p][..0] == [] && [p, p][..1] == [p];
    assert |multiset([RowAt(items, p)])| == 1 && |multiset([RowAt(items, p), RowAt(items, p)])| == 2;
  }

  lemma RestoredSame(items: seq<Item>, c: nat, key: int, p: RowPointer)
    requires DistinctPointers(items) && Carries(items, c, key, p)
    ensures Marked(Marked(items, p, false), p, true) == items
  {
    MarkedTwice(items, p, false, true);
    MarkedSame(items, p);
  }
}
