/** An insertion writes no node that is too large for its page, as long as no list grows too long. */
module NarrowGrowth {
  import opened Storage
  import opened BigEndian
  import opened EntryList
  import opened TreeModel
  import opened TreePath
  import opened TreeGrowth
  import opened TreeRepair
  import opened NodeFit
  import opened Descents

  /** A node of the right shape with narrow contents fits. */
  lemma NarrowFits(n: Node)
    ensures Writable(n) && Narrow(n, 6) ==> FitsPage(n)
  {
    hide Writable, Narrow, FitsPage;
    if Writable(n) && Narrow(n, 6) {
      NodeFits(n);
    }
  }

  // ---------- Insertion ----------

  /** The list of `key` can take one more pointer. */
  ghost predicate RoomFor(es: seq<Entry>, key: int) {
    forall e :: e in es && e.key == key ==> |e.ptrs| < 6
  }

  /** Inserting `p` under `key` into `t` makes no node too large. */
  ghost predicate Light(t: Tree, key: int, p: RowPointer) {
    AllNarrow(t) && Int64(key) && StorablePointer(p) && RoomFor(Entries(t), key)
  }

  lemma LightLeaf(l: LeafPage, key: int, p: RowPointer)
    requires Light(Leaf(l), key, p)
    ensures Narrow(NodeOf(Leaf(l)), 6) && Int64(key) && StorablePointer(p)
    ensures forall i :: 0 <= i < |l.es| && l.es[i].key == key ==> |NodeOf(Leaf(l)).values[i]| < 6
  {
    EntriesLeaf(l);
  }

  lemma LightKid(t: Tree, i: nat, key: int, p: RowPointer)
    requires t.Branch? && i < |t.kids| && Light(t, key, p)
    ensures Light(t.kids[i], key, p) && Narrow(NodeOf(t), 6)
  {
    assert t.kids[i] in t.kids;
    hide AllNarrow, Narrow;
    AllNarrowMeans(t);
    LeavesOfKids(t);
    KidLeaves(t.kids, i);
    hide Entries, Leaves, LeavesOf;
    RoomBelow(LeavesOf(t.kids[..i]), Leaves(t.kids[i]), LeavesOf(t.kids[i + 1..]), key);
    EntriesMeaning(t.kids[i]);
  }

  lemma RoomBelow(a: seq<LeafPage>, b: seq<LeafPage>, c: seq<LeafPage>, key: int)
    requires RoomFor(EntriesOf(a + b + c), key)
    ensures RoomFor(EntriesOf(b), key)
  {
    EntriesThree(a, b, c);
  }

  lemma LongerList(n: Node, i: nat, p: RowPointer)
    requires Narrow(n, 6) && i < |n.values| && |n.values[i]| < 6 && StorablePointer(p)
    ensures Narrow(n.(values := n.values[i := n.values[i] + [p]]), 6)
  {
  }

  lemma NewList(n: Node, i: nat, key: int, p: RowPointer)
    requires Narrow(n, 6) && i <= |n.keys| == |n.values| && Int64(key) && StorablePointer(p)
    ensures Narrow(n.(keys := n.keys[..i] + [key] + n.keys[i..], values := n.values[..i] + [[p]] + n.values[i..]), 6)
  {
    var vs := n.values[..i] + [[p]] + n.values[i..];
    assert forall j :: 0 <= j < |vs| ==> vs[j] == [p] || vs[j] in n.values;
  }

  lemma NewChild(n: Node, i: nat, key: int, id: PageId)
    requires Narrow(n, 6) && i <= |n.keys| && i + 1 <= |n.children| && Int64(key) && Unsigned32(id)
    ensures Narrow(n.(keys := n.keys[..i] + [key] + n.keys[i..], children := n.children[..i + 1] + [id] + n.children[i + 1..]), 6)
  {
  }

  lemma LeafHalvesNarrow(n: Node, m: nat, id: PageId)
    requires Narrow(n, 6) && m < |n.keys| == |n.values| && n.children == [] && Unsigned32(id)
    ensures Int64(n.keys[m])
    ensures Narrow(Node(true, n.keys[m..], n.values[m..], [], n.nextLeaf), 6)
    ensures Narrow(Node(true, n.keys[..m], n.values[..m], [], id), 6)
  {
  }

  lemma BranchHalvesNarrow(n: Node, m: nat)
    requires Narrow(n, 6) && m < |n.keys| && |n.children| == |n.keys| + 1
    ensures Int64(n.keys[m])
    ensures Narrow(Node(false, n.keys[..m], [], n.children[..m + 1], NO_PAGE), 6)
    ensures Narrow(Node(false, n.keys[m + 1..], [], n.children[m + 1..], NO_PAGE), 6)
  {
  }

  /** An insertion after which no key has more than six pointers was light. */
  lemma LightInsertion(s: seq<PageData>, root: PageId, t: Tree, h: nat, lo: int, hi: int, key: int, p: RowPointer)
    requires TreeInv(s, root, t, h, lo, hi) && |s| <= NO_PAGE && KeyRange(lo, hi) && Int64(key)
    requires FewPointers(Added(Contents(Entries(t)), key, p), 6)
    ensures Light(t, key, p)
  {
    var m := Contents(Entries(t));
    var m' := Added(m, key, p);
    assert forall k :: k in m && k != key ==> m'[k] == m[k];
    assert m'[key] == Lookup(m, key) + [p];
    assert forall q :: q in Lookup(m, key) ==> q in m'[key];
    assert p in m'[key];
    TreeNarrow(s, root, t, h, lo, hi);
    EntriesWF(t, h, lo, hi);
    forall e | e in Entries(t) && e.key == key ensures |e.ptrs| < 6 {
      EntryInMap(Entries(t), e);
    }
  }

  /** A light insertion writes no leaf page that is too large. */
  lemma {:induction false} LightFits(s: seq<PageData>, t: Tree, h: nat, lo: int, hi: int, key: int, p: RowPointer)
    requires Cell(t, h, lo, hi) && Rep(s, t) && lo <= key < hi && Light(t, key, p) && |s| <= NO_PAGE
    ensures InsertFits(s, t.Id(), key, p, h)
    decreases h
  {
    hide Cell, WF, WFKids, Light, InsertFits, StoredFits, InsertFrom, WithPointer, Narrow, RepAll, Entries;
    PlainInsert(s, t, h, lo, hi, key, p);
    CellShape(t, h, lo, hi);
    if t.Leaf? {
      LightLeafFits(t.leaf, key, p, |s|, lo, hi);
    } else {
      var i := BisectRight(t.seps, key);
      KidInRange(t, i, h, lo, hi);
      KidRep(s, t, t.kids[i]);
      LightKid(t, i, key, p);
      BranchRoute(t, h, lo, hi, key);
      LightFits(s, t.kids[i], h - 1, LowBound(t.seps, lo, i), HighBound(t.seps, hi, i), key, p);
    }
  }

  lemma BranchRoute(t: Tree, h: nat, lo: int, hi: int, key: int)
    requires t.Branch? && Cell(t, h, lo, hi) && lo <= key < hi
    ensures Increasing(t.seps) && |t.kids| == |t.seps| + 1
    ensures var i := BisectRight(t.seps, key); i < |t.kids| && LowBound(t.seps, lo, i) <= key < HighBound(t.seps, hi, i)
  {
    assert WF(t, h, lo, hi);
    Routed(t, h, lo, hi, key);
  }

  lemma LightLeafFits(l: LeafPage, key: int, p: RowPointer, newId: PageId, lo: int, hi: int)
    requires Cell(Leaf(l), 0, lo, hi) && Light(Leaf(l), key, p) && newId <= NO_PAGE
    requires var n := NodeOf(Leaf(l)); Increasing(n.keys) && |n.values| == |n.keys|
    ensures StoredFits(WithPointer(NodeOf(Leaf(l)), key, p), newId)
  {
    var n := NodeOf(Leaf(l));
    var n' := WithPointer(n, key, p);
    var i := BisectLeft(n.keys, key);
    assert |n.keys| <= MAX_KEYS by { CellShape(Leaf(l), 0, lo, hi); }
    LightLeaf(l, key, p);
    hide Light, Cell, Narrow, FitsPage;
    if i < |n.keys| && n.keys[i] == key {
      LongerList(n, i, p);
    } else {
      NewList(n, i, key, p);
    }
    NarrowFits(n');
    if |n'.keys| > MAX_KEYS {
      var m := |n'.keys| / 2;
      LeafHalvesNarrow(n', m, newId);
      NarrowFits(Node(true, n'.keys[..m], n'.values[..m], [], newId));
      NarrowFits(Node(true, n'.keys[m..], n'.values[m..], [], n'.nextLeaf));
    }
  }
}
