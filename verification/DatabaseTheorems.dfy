/** Facts about every state that statements lead to. */
module DatabaseTheorems {
  import opened Storage
  import opened EntryList
  import opened TreeModel
  import opened NodeFit
  import opened HeapModel
  import opened HeapFiles
  import opened Statements
  import opened Tables
  import opened Parts
  import opened Agreement
  import opened Sparseness

  /** An index lists as many pointers for a key as there are live rows with that key. */
  lemma ListLengthIsCount(v: TableView, i: nat, key: int)
    requires TableGood(v) && i < |v.maps|
    ensures |Lookup(v.maps[i], key)| == |AnswerOf(v, Some(KeyQuery(v.columns[i], key)))|
  {
    var w := KeyQuery(v.columns[i], key);
    RowsThroughIndex(v, i, w);
    assert |multiset(RowsAt(v.items, Lookup(v.maps[i], key)))| == |multiset(RowsOf(AnswerOf(v, Some(w))))|;
  }

  /** The condition of the operations under which no node grows too large, seen through queries. */
  lemma FewRowsIff(v: TableView, i: nat)
    requires TableGood(v) && i < |v.maps|
    ensures ColumnIndex(v.schema, v.columns[i]).Some?
    ensures FewRows(v.items, ColumnIndex(v.schema, v.columns[i]).value) <==> forall key :: |AnswerOf(v, Some(KeyQuery(v.columns[i], key)))| <= 6
  {
    assert ColumnAgrees(v.schema, v.columns[i], v.items, v.maps[i]);
    var c := ColumnIndex(v.schema, v.columns[i]).value;
    hide TableGood, AnswerOf, KeyQuery, Carries;
    if FewRows(v.items, c) {
      forall key ensures |AnswerOf(v, Some(KeyQuery(v.columns[i], key)))| <= 6 {
        ListLengthIsCount(v, i, key);
        ListIsListing(v.items, c, v.maps[i], key);
      }
    }
    if forall key :: |AnswerOf(v, Some(KeyQuery(v.columns[i], key)))| <= 6 {
      forall k, ps | Listing(v.items, c, k, ps) ensures |ps| <= 6 {
        ListLengthIsCount(v, i, k);
        ListingIsShort(v.items, c, v.maps[i], k, ps);
      }
    }
  }

  lemma ListIsListing(items: seq<Item>, c: nat, m: map<int, seq<RowPointer>>, k: int)
    requires IndexAgrees(items, c, m)
    ensures Listing(items, c, k, Lookup(m, k))
  {
    var ps := Lookup(m, k);
    forall i | 0 <= i < |ps| ensures Carries(items, c, k, ps[i]) {
      assert multiset(ps)[ps[i]] > 0;
    }
    forall i, j | 0 <= i < j < |ps| ensures ps[i] != ps[j] {
      if ps[i] == ps[j] {
        CountedTwice(ps, i, j);
      }
    }
  }

  lemma ListingIsShort(items: seq<Item>, c: nat, m: map<int, seq<RowPointer>>, k: int, ps: seq<RowPointer>)
    requires IndexAgrees(items, c, m) && Listing(items, c, k, ps)
    ensures |ps| <= |Lookup(m, k)|
  {
    forall p ensures multiset(ps)[p] <= multiset(Lookup(m, k))[p] {
      if p in ps {
        var i :| 0 <= i < |ps| && ps[i] == p;
        CountedOnce(ps, p);
      }
    }
    assert multiset(ps) <= multiset(Lookup(m, k));
    SmallerMultiset(multiset(ps), multiset(Lookup(m, k)));
  }

  lemma SmallerMultiset(a: multiset<RowPointer>, b: multiset<RowPointer>)
    requires a <= b
    ensures |a| <= |b|
  {
    assert b == a + (b - a);
  }

  lemma {:induction false} CountedOnce(ps: seq<RowPointer>, p: RowPointer)
    requires forall i, j :: 0 <= i < j < |ps| ==> ps[i] != ps[j]
    ensures multiset(ps)[p] <= 1
    decreases |ps|
  {
    if ps != [] {
      var n := |ps| - 1;
      assert ps == ps[..n] + [ps[n]];
      CountedOnce(ps[..n], p);
      assert ps[n] !in ps[..n];
    }
  }

  /** While no key of an indexed column is carried by more than six live rows, every node of the index fits into its
      page. What is written on the way from one such state to another fits too: see the operations of the engine. */
  lemma IndexNodesFit(s: seq<PageData>, tables: map<string, TableMeta>, parts: map<PartKey, Part>, n: string, i: nat)
    requires PartsInv(s, parts) && Linked(tables, parts) && AllGood(Views(tables, parts)) && |s| <= NO_PAGE
    requires n in tables && i < |tables[n].indexes| && i < |Views(tables, parts)[n].maps|
    requires forall key :: |AnswerOf(Views(tables, parts)[n], Some(KeyQuery(tables[n].indexes[i].column, key)))| <= 6
    ensures TreeKey(n, i) in parts
    ensures forall x :: x in PartIds(parts[TreeKey(n, i)]) ==> x < |s| && s[x].NodePage? && FitsPage(s[x].node)
  {
    var v := Views(tables, parts)[n];
    assert TableLinked(tables[n], n, parts);
    assert IndexLinked(tables[n].indexes[i], n, i, parts);
    var part, heap := parts[TreeKey(n, i)], parts[HeapKey(n)];
    assert PartInv(s, part) && PartInv(s, heap);
    assert ColumnAgrees(v.schema, v.columns[i], v.items, v.maps[i]);
    hide PartsInv, Linked, Views, FitsPage;
    FewRowsIff(v, i);
    HeapStorable(s, heap.schema, heap.first, heap.chain);
    FewListed(v.items, ColumnIndex(v.schema, v.columns[i]).value, v.maps[i]);
    TreeNodesFit(s, part.root, part.tree, part.height, part.lo, part.hi);
  }

  /** No two structures share a page: a page reached from the root of an index belongs to no heap, to no other index,
      and occurs once in its own tree. */
  lemma PagesSeparate(s: seq<PageData>, parts: map<PartKey, Part>, j: PartKey, k: PartKey, x: PageId)
    requires PartsInv(s, parts) && j in parts && k in parts && x in PartIds(parts[j]) && x in PartIds(parts[k])
    ensures j == k && x < |s|
    ensures parts[j].TreePart? ==> Ids(parts[j].tree)[x] == 1
    ensures parts[j].HeapPart? <==> s[x].Bytes?
  {
    PartAllocated(s, parts[j]);
    match parts[j]
    case HeapPart(_, _, hs) =>
      var i := PagePosition(hs, x);
      assert PageRep(s, hs, i);
    case TreePart(root, t, h, lo, hi) =>
      assert Distinct(Ids(t)) && Ids(t)[x] >= 1;
      TreePagesAreNodes(s, t, x);
  }

  lemma {:induction false} TreePagesAreNodes(s: seq<PageData>, t: Tree, x: PageId)
    requires Rep(s, t) && x in Ids(t)
    ensures x < |s| && s[x].NodePage?
    decreases t, 1
  {
    if x != t.Id() {
      KidPagesAreNodes(s, t.kids, x);
    }
  }

  lemma {:induction false} KidPagesAreNodes(s: seq<PageData>, ts: seq<Tree>, x: PageId)
    requires RepAll(s, ts) && x in IdsOf(ts)
    ensures x < |s| && s[x].NodePage?
    decreases ts, 0
  {
    if x in Ids(ts[0]) {
      TreePagesAreNodes(s, ts[0], x);
    } else {
      forall i | 0 <= i < |ts[1..]| ensures Rep(s, ts[1..][i]) {
        assert ts[1..][i] == ts[i + 1];
      }
      KidPagesAreNodes(s, ts[1..], x);
    }
  }
}
