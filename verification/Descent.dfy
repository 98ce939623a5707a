/** What a search and an insertion do to the pages they come across, whether or not these form a B+ tree. */
module Descents {
  import opened Storage
  import opened EntryList
  import opened TreeModel
  import opened TreeGrowth
  import opened TreeShrink
  import opened TreeRepair
  import opened TreeDelete
  import opened NodeFit

  // ---------- Following the pages ----------

  /** The leaf page that the descent from page `id` towards `key` comes to within `fuel` steps. */
  ghost function LeafReached(s: seq<PageData>, id: PageId, key: int, fuel: nat): (leaf: Option<PageId>)
    ensures leaf.Some? ==> leaf.value < |s| && s[leaf.value].NodePage? && s[leaf.value].node.isLeaf
    decreases fuel
  {
    if id >= |s| || !s[id].NodePage? then None
    else
      var n := s[id].node;
      if n.isLeaf then Some(id)
      else if fuel == 0 || !Increasing(n.keys) || |n.children| != |n.keys| + 1 then None
      else LeafReached(s, n.children[BisectRight(n.keys, key)], key, fuel - 1)
  }

  /** The descent ends at a leaf page whose keys are in order, with a list for each. */
  ghost predicate Arrives(s: seq<PageData>, root: PageId, key: int, fuel: nat) {
    var leaf := LeafReached(s, root, key, fuel);
    leaf.Some? && var n := s[leaf.value].node; Increasing(n.keys) && |n.values| == |n.keys|
  }

  /** The pointers that a leaf page lists for `key`. */
  ghost function ListOn(n: Node, key: int): seq<RowPointer> {
    if !Increasing(n.keys) || |n.values| != |n.keys| then []
    else var i := BisectLeft(n.keys, key); if i < |n.keys| && n.keys[i] == key then n.values[i] else []
  }

  /** The answer of a search for `key` that starts at page `root`. */
  ghost function SearchFrom(s: seq<PageData>, root: PageId, key: int, fuel: nat): seq<RowPointer> {
    var leaf := LeafReached(s, root, key, fuel);
    if leaf.None? then [] else ListOn(s[leaf.value].node, key)
  }

  /** A leaf page that got one more pointer. */
  ghost function WithPointer(n: Node, key: int, p: RowPointer): Node
    requires Increasing(n.keys) && |n.values| == |n.keys|
  {
    var i := BisectLeft(n.keys, key);
    if i < |n.keys| && n.keys[i] == key then n.(values := n.values[i := n.values[i] + [p]])
    else n.(keys := n.keys[..i] + [key] + n.keys[i..], values := n.values[..i] + [[p]] + n.values[i..])
  }

  /** The pages after an insertion that starts at page `root`, if it need not split the leaf it comes to. */
  ghost function InsertFrom(s: seq<PageData>, root: PageId, key: int, p: RowPointer, fuel: nat): Option<seq<PageData>> {
    var leaf := LeafReached(s, root, key, fuel);
    if leaf.None? then None
    else
      var n := s[leaf.value].node;
      if !Increasing(n.keys) || |n.values| != |n.keys| || |WithPointer(n, key, p).keys| > MAX_KEYS then None
      else Some(s[leaf.value := NodePage(WithPointer(n, key, p))])
  }

  /** The leaf page `n` fits into its page, or both its halves do when it must be split; the upper half goes to page `newId`. */
  ghost predicate StoredFits(n: Node, newId: PageId) {
    if |n.keys| <= MAX_KEYS || |n.values| != |n.keys| then FitsPage(n)
    else
      var m := |n.keys| / 2;
      && FitsPage(Node(true, n.keys[..m], n.values[..m], [], newId))
      && FitsPage(Node(true, n.keys[m..], n.values[m..], [], n.nextLeaf))
  }

  /** An insertion that starts at page `root` writes no leaf page that is too large. */
  ghost predicate InsertFits(s: seq<PageData>, root: PageId, key: int, p: RowPointer, fuel: nat) {
    Arrives(s, root, key, fuel) ==> StoredFits(WithPointer(s[LeafReached(s, root, key, fuel).value].node, key, p), |s|)
  }

  lemma ReachStep(s: seq<PageData>, t: Tree, key: int, fuel: nat)
    requires t.Branch? && t.bid < |s| && s[t.bid] == NodePage(NodeOf(t)) && Increasing(t.seps) && |t.kids| == |t.seps| + 1 && fuel > 0
    ensures LeafReached(s, t.bid, key, fuel) == LeafReached(s, t.kids[BisectRight(t.seps, key)].Id(), key, fuel - 1)
  {
  }

  lemma ReachEnd(s: seq<PageData>, l: LeafPage, key: int, fuel: nat)
    requires l.id < |s| && s[l.id] == NodePage(NodeOf(Leaf(l)))
    ensures LeafReached(s, l.id, key, fuel) == Some(l.id)
  {
  }

  // ---------- Lookups are local ----------

  lemma LookupMiddle(a: seq<Entry>, es: seq<Entry>, b: seq<Entry>, k: int)
    requires AllBelow(a, k) && AllAbove(b, k)
    ensures Lookup(Contents(a + es + b), k) == Lookup(Contents(es), k)
  {
    ContentsConcat(a + es, b);
    ContentsConcat(a, es);
    ContentsKey(a, k);
    ContentsKey(b, k);
  }

  /** What a row of children stores for `k` is what the child in whose range `k` lies stores for it. */
  lemma RowLookup(ks: seq<int>, ts: seq<Tree>, n: nat, h: nat, lo: int, hi: int, k: int)
    requires WFKids(ks, ts, h, lo, hi) && n < |ts| == |ks| + 1 && LowBound(ks, lo, n) <= k < HighBound(ks, hi, n)
    ensures Lookup(Contents(EntriesOf(LeavesOf(ts))), k) == Lookup(Contents(Entries(ts[n])), k)
  {
    hide *;
    EntriesBefore(ks, ts, n, h, lo, hi, k);
    EntriesAfter(ks, ts, n, h, lo, hi, k);
    KidLeaves(ts, n);
    EntriesThree(LeavesOf(ts[..n]), Leaves(ts[n]), LeavesOf(ts[n + 1..]));
    LookupMiddle(EntriesOf(LeavesOf(ts[..n])), Entries(ts[n]), EntriesOf(LeavesOf(ts[n + 1..])), k);
    EntriesMeaning(ts[n]);
  }

  lemma EntriesBefore(ks: seq<int>, ts: seq<Tree>, n: nat, h: nat, lo: int, hi: int, k: int)
    requires WFKids(ks, ts, h, lo, hi) && n < |ts| == |ks| + 1 && LowBound(ks, lo, n) <= k
    ensures AllBelow(EntriesOf(LeavesOf(ts[..n])), k)
  {
    hide WFKids;
    if n > 0 {
      RunsDivide(ks, ts, n - 1, h, lo, hi);
      EntriesKidsWF(ks[..n - 1], ts[..n], h, lo, ks[n - 1]);
    }
  }

  lemma EntriesAfter(ks: seq<int>, ts: seq<Tree>, n: nat, h: nat, lo: int, hi: int, k: int)
    requires WFKids(ks, ts, h, lo, hi) && n < |ts| == |ks| + 1 && k < HighBound(ks, hi, n)
    ensures AllAbove(EntriesOf(LeavesOf(ts[n + 1..])), k)
  {
    hide WFKids;
    if n < |ks| {
      RunsDivide(ks, ts, n, h, lo, hi);
      EntriesKidsWF(ks[n + 1..], ts[n + 1..], h, ks[n], hi);
    }
  }

  /** A leaf page lists what its entries store. */
  lemma ListStored(es: seq<Entry>, n: Node, k: int)
    requires Sorted(es) && n.keys == Keys(es) && n.values == Vals(es)
    ensures ListOn(n, k) == Lookup(Contents(es), k)
  {
    hide *;
    KeysIncrease(es);
    ListMeans(n, k);
    LookupAlone(es, k);
  }

  lemma ListMeans(n: Node, k: int)
    requires Increasing(n.keys) && |n.values| == |n.keys|
    ensures var i := BisectLeft(n.keys, k); ListOn(n, k) == if i < |n.keys| && n.keys[i] == k then n.values[i] else []
  {
  }

  lemma LookupAlone(es: seq<Entry>, k: int)
    requires Sorted(es)
    ensures Increasing(Keys(es))
    ensures var i := BisectLeft(Keys(es), k); Lookup(Contents(es), k) == if i < |es| && es[i].key == k then es[i].ptrs else []
  {
    KeysIncrease(es);
    hide Contents, Lookup, BisectLeft, Increasing, Sorted;
    LookupInLeaf([], es, [], k);
    assert [] + es + [] == es;
  }

  lemma KeysIncrease(es: seq<Entry>)
    requires Sorted(es)
    ensures Increasing(Keys(es))
  {
  }

  /** In a B+ tree the pages lead to the leaf for `k`, and the search finds what the whole tree stores. */
  lemma {:induction false} SearchTree(s: seq<PageData>, t: Tree, h: nat, lo: int, hi: int, k: int)
    requires Cell(t, h, lo, hi) && Rep(s, t) && lo <= k < hi
    ensures Arrives(s, t.Id(), k, h) && SearchFrom(s, t.Id(), k, h) == Lookup(Contents(Entries(t)), k)
    decreases h
  {
    CellShape(t, h, lo, hi);
    EntriesMeaning(t);
    hide Contents, Entries, Lookup, RepAll, WFKids, ListOn;
    if t.Leaf? {
      LeafSearch(s, t.leaf, lo, hi, k);
    } else {
      assert WF(t, h, lo, hi);
      Routed(t, h, lo, hi, k);
      var i := BisectRight(t.seps, k);
      var c := t.kids[i];
      KidInRange(t, i, h, lo, hi);
      KidRep(s, t, c);
      SearchTree(s, c, h - 1, LowBound(t.seps, lo, i), HighBound(t.seps, hi, i), k);
      ReachStep(s, t, k, h);
      RowLookup(t.seps, t.kids, i, h - 1, lo, hi, k);
    }
  }

  lemma KidInRange(t: Tree, i: nat, h: nat, lo: int, hi: int)
    requires t.Branch? && Cell(t, h, lo, hi) && i < |t.kids| == |t.seps| + 1
    ensures h > 0 && Cell(t.kids[i], h - 1, LowBound(t.seps, lo, i), HighBound(t.seps, hi, i))
  {
    CellShape(t, h, lo, hi);
  }

  lemma LeafSearch(s: seq<PageData>, l: LeafPage, lo: int, hi: int, k: int)
    requires Cell(Leaf(l), 0, lo, hi) && Rep(s, Leaf(l))
    ensures LeafReached(s, l.id, k, 0) == Some(l.id) && Arrives(s, l.id, k, 0) && SearchFrom(s, l.id, k, 0) == Lookup(Contents(l.es), k)
  {
    assert WF(Leaf(l), 0, lo, hi);
    ListStored(l.es, NodeOf(Leaf(l)), k);
  }

  /** An insertion goes on in the child of a branch, and ends in a leaf. */
  lemma PlainInsert(s: seq<PageData>, t: Tree, h: nat, lo: int, hi: int, key: int, p: RowPointer)
    requires Cell(t, h, lo, hi) && Rep(s, t) && lo <= key < hi
    ensures t.Branch? ==> h > 0 && Increasing(t.seps) && |t.kids| == |t.seps| + 1
    ensures t.Branch? ==> var c := t.kids[BisectRight(t.seps, key)].Id();
      && InsertFrom(s, t.Id(), key, p, h) == InsertFrom(s, c, key, p, h - 1)
      && (InsertFits(s, t.Id(), key, p, h) <==> InsertFits(s, c, key, p, h - 1))
    ensures t.Leaf? ==> var n := NodeOf(t);
      && Increasing(n.keys) && |n.values| == |n.keys| && var n' := WithPointer(n, key, p);
      && InsertFrom(s, t.Id(), key, p, h) == (if |n'.keys| > MAX_KEYS then None else Some(s[t.Id() := NodePage(n')]))
      && (InsertFits(s, t.Id(), key, p, h) <==> StoredFits(n', |s|))
  {
    hide StoredFits;
    CellShape(t, h, lo, hi);
    assert WF(t, h, lo, hi);
    if t.Leaf? {
      ReachEnd(s, t.leaf, key, h);
    } else {
      Routed(t, h, lo, hi, key);
      ReachStep(s, t, key, h);
    }
  }

  // ---------- An insertion, seen by later searches ----------

  lemma {:induction false} SameDescent(s: seq<PageData>, s': seq<PageData>, x: PageId, n: Node, id: PageId, k: int, fuel: nat)
    requires x < |s| && s[x].NodePage? && s[x].node.isLeaf && n.isLeaf && s' == s[x := NodePage(n)]
    ensures LeafReached(s', id, k, fuel) == LeafReached(s, id, k, fuel)
    decreases fuel
  {
    if id < |s| && s[id].NodePage? && !s[id].node.isLeaf && fuel > 0 {
      var m := s[id].node;
      if Increasing(m.keys) && |m.children| == |m.keys| + 1 {
        SameDescent(s, s', x, n, m.children[BisectRight(m.keys, k)], k, fuel - 1);
      }
    }
  }

  lemma ListIs(n: Node, i: nat, k: int)
    requires Increasing(n.keys) && |n.values| == |n.keys|
    ensures i < |n.keys| && n.keys[i] == k ==> ListOn(n, k) == n.values[i]
    ensures (forall j :: 0 <= j < |n.keys| ==> n.keys[j] != k) ==> ListOn(n, k) == []
  {
  }

  /** The pointer is listed under its key; the lists of all other keys stay. */
  lemma WithPointerLists(n: Node, key: int, p: RowPointer, k: int)
    requires Increasing(n.keys) && |n.values| == |n.keys|
    ensures var n' := WithPointer(n, key, p);
      && Increasing(n'.keys) && |n'.values| == |n'.keys|
      && ListOn(n', k) == if k == key then ListOn(n, key) + [p] else ListOn(n, k)
  {
    var i, n' := BisectLeft(n.keys, key), WithPointer(n, key, p);
    if i < |n.keys| && n.keys[i] == key {
      SameKeysLists(n, n', i, k);
    } else {
      OneMoreKey(n, n', i, key, p);
      NewKeyLists(n, n', i, key, p, k);
    }
  }

  lemma SameKeysLists(n: Node, n': Node, i: nat, k: int)
    requires Increasing(n.keys) && |n.values| == |n.keys| && i < |n.keys|
    requires n'.keys == n.keys && |n'.values| == |n.values| && forall j :: 0 <= j < |n.values| && j != i ==> n'.values[j] == n.values[j]
    ensures ListOn(n, n.keys[i]) == n.values[i] && ListOn(n', n.keys[i]) == n'.values[i]
    ensures k != n.keys[i] ==> ListOn(n', k) == ListOn(n, k)
  {
    ListIs(n, i, n.keys[i]);
    ListIs(n', i, n.keys[i]);
  }

  lemma OneMoreKey(n: Node, n': Node, i: nat, key: int, p: RowPointer)
    requires Increasing(n.keys) && |n.values| == |n.keys| && i <= |n.keys|
    requires (forall j :: 0 <= j < i ==> n.keys[j] < key) && (forall j :: i <= j < |n.keys| ==> key < n.keys[j])
    requires n'.keys == n.keys[..i] + [key] + n.keys[i..]
    ensures Increasing(n'.keys)
  {
  }

  lemma NewKeyLists(n: Node, n': Node, i: nat, key: int, p: RowPointer, k: int)
    requires Increasing(n.keys) && |n.values| == |n.keys| && i <= |n.keys| && Increasing(n'.keys)
    requires (forall j :: 0 <= j < i ==> n.keys[j] < key) && (forall j :: i <= j < |n.keys| ==> key < n.keys[j])
    requires n'.keys == n.keys[..i] + [key] + n.keys[i..] && n'.values == n.values[..i] + [[p]] + n.values[i..]
    ensures ListOn(n', k) == if k == key then ListOn(n, key) + [p] else ListOn(n, k)
  {
    hide ListOn, Increasing;
    if k == key {
      ListIs(n, 0, key);
      ListIs(n', i, key);
      assert [] + [p] == [p];
    } else if exists j :: 0 <= j < |n.keys| && n.keys[j] == k {
      var j :| 0 <= j < |n.keys| && n.keys[j] == k;
      ListIs(n, j, k);
      ListIs(n', if j < i then j else j + 1, k);
    } else {
      ListIs(n, 0, k);
      ListIs(n', 0, k);
    }
  }

  /** Every later search from the same page finds the new pointer behind the old ones of its key, and all else as before. */
  lemma InsertSeen(s: seq<PageData>, root: PageId, key: int, p: RowPointer, fuel: nat, s': seq<PageData>, k: int)
    requires InsertFrom(s, root, key, p, fuel) == Some(s')
    ensures SearchFrom(s', root, k, fuel) == if k == key then SearchFrom(s, root, key, fuel) + [p] else SearchFrom(s, root, k, fuel)
    ensures Arrives(s', root, k, fuel) <==> Arrives(s, root, k, fuel)
  {
    var x := LeafReached(s, root, key, fuel).value;
    var n := s[x].node;
    SameDescent(s, s', x, WithPointer(n, key, p), root, k, fuel);
    hide LeafReached, WithPointer, ListOn;
    WithPointerLists(n, key, p, k);
  }
}
