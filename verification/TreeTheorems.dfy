/** Facts about any valid B+ tree: its pages determine it, it is shallow, and its leaves form one list. */
module TreeTheorems {
  import opened Storage
  import opened EntryList
  import opened TreeModel
  import opened TreePath
  import opened TreeShrink
  import opened TreeRepair

  // ---------- The pages determine the tree ----------

  lemma SameLeafNode(a: LeafPage, b: LeafPage)
    requires a.id == b.id && NodeOf(Leaf(a)) == NodeOf(Leaf(b))
    ensures a == b
  {
    assert |a.es| == |Keys(a.es)| == |Keys(b.es)| == |b.es|;
    forall i | 0 <= i < |a.es| ensures a.es[i] == b.es[i] {
      assert Keys(a.es)[i] == Keys(b.es)[i] && Vals(a.es)[i] == Vals(b.es)[i];
    }
  }

  /** Two trees stored under the same root page are the same tree. */
  lemma {:induction false} RepUnique(s: seq<PageData>, t: Tree, u: Tree)
    requires Rep(s, t) && Rep(s, u) && t.Id() == u.Id()
    ensures t == u
    decreases t
  {
    assert NodeOf(t) == NodeOf(u);
    if t.Leaf? {
      SameLeafNode(t.leaf, u.leaf);
    } else {
      assert |t.kids| == |TreeIds(t.kids)| == |TreeIds(u.kids)| == |u.kids|;
      forall i | 0 <= i < |t.kids| ensures t.kids[i] == u.kids[i] {
        assert TreeIds(t.kids)[i] == TreeIds(u.kids)[i];
        RepUnique(s, t.kids[i], u.kids[i]);
      }
    }
  }

  // ---------- Height ----------

  /** How many keys the nodes of a tree hold: at most 32, and at least 16 except for the root. */
  lemma NodeSizes(t: Tree, h: nat, lo: int, hi: int)
    requires WF(t, h, lo, hi)
    ensures t.Size() <= 32
    ensures t.Branch? ==> |t.kids| == |t.seps| + 1 && forall i :: 0 <= i < |t.kids| ==> 16 <= t.kids[i].Size() <= 32
  {
    if t.Branch? {
      forall i | 0 <= i < |t.kids| ensures 16 <= t.kids[i].Size() <= 32 {
        var l, u := LowBound(t.seps, lo, i), HighBound(t.seps, hi, i);
        assert Cell(t.kids[i], h - 1, l, u);
        assert WF(t.kids[i], h - 1, l, u);
      }
    }
  }

  function Pow17(n: nat): nat {
    if n == 0 then 1 else 17 * Pow17(n - 1)
  }

  /** A fully occupied subtree with `h` levels of branches holds at least 16 * 17^h entries. */
  lemma {:induction false} FullEntries(t: Tree, h: nat, lo: int, hi: int)
    requires Cell(t, h, lo, hi) && t.Full()
    ensures |Entries(t)| >= 16 * Pow17(h)
    decreases h, 1
  {
    CellShape(t, h, lo, hi);
    if t.Leaf? {
      EntriesLeaf(t.leaf);
    } else {
      KidsEntries(t.seps, t.kids, h - 1, lo, hi);
      TimesMonotone(17, |t.kids|, 16 * Pow17(h - 1));
    }
  }

  lemma {:induction false} KidsEntries(ks: seq<int>, ts: seq<Tree>, h: nat, lo: int, hi: int)
    requires WFKids(ks, ts, h, lo, hi) && AllFull(ts)
    ensures |EntriesOf(LeavesOf(ts))| >= |ts| * (16 * Pow17(h))
    decreases h, 2, |ts|
  {
    var n := 16 * Pow17(h);
    assert Cell(ts[0], h, LowBound(ks, lo, 0), HighBound(ks, hi, 0));
    FullEntries(ts[0], h, lo, HighBound(ks, hi, 0));
    if ks == [] {
      assert ts == [ts[0]];
      LeavesSingle(ts[0]);
    } else {
      RunsDivide(ks, ts, 0, h, lo, hi);
      KidsEntries(ks[1..], ts[1..], h, ks[0], hi);
      EntriesConcat(Leaves(ts[0]), LeavesOf(ts[1..]));
      OneMore(|ts|, n);
    }
  }

  lemma OneMore(k: nat, n: nat)
    requires k > 0
    ensures n + (k - 1) * n == k * n
  {
  }

  lemma TimesMonotone(a: nat, b: nat, n: nat)
    requires a <= b
    ensures a * n <= b * n
  {
  }

  /** Distinct keys, counted by the map. */
  lemma {:induction false} KeyCount(es: seq<Entry>)
    requires Sorted(es)
    ensures |Contents(es)| == |es|
  {
    if es != [] {
      KeyCount(es[1..]);
      ContentsKey(es[1..], es[0].key);
      var m := Contents(es[1..]);
      assert m[es[0].key := es[0].ptrs].Keys == m.Keys + {es[0].key};
    }
  }

  /** A tree of height `h` above the leaves holds at least 32 * 17^(h - 1) keys. */
  lemma HeightBound(s: seq<PageData>, root: PageId, t: Tree, h: nat, lo: int, hi: int)
    requires TreeInv(s, root, t, h, lo, hi) && h >= 1
    ensures |Contents(Entries(t))| >= 32 * Pow17(h - 1)
    ensures Pow17(0) == 1 && Pow17(h) == 17 * Pow17(h - 1)
  {
    CellShape(t, h, lo, hi);
    KidsEntries(t.seps, t.kids, h - 1, lo, hi);
    TimesMonotone(2, |t.kids|, 16 * Pow17(h - 1));
    EntriesWF(t, h, lo, hi);
    KeyCount(Entries(t));
  }

  // ---------- The list of leaves ----------

  /** Follows the leaf links from page `id`, at most `fuel` steps. */
  function Walk(s: seq<PageData>, id: PageId, fuel: nat): seq<PageId>
    decreases fuel
  {
    if fuel == 0 || id == NO_PAGE || id >= |s| || !s[id].NodePage? then []
    else [id] + Walk(s, s[id].node.nextLeaf, fuel - 1)
  }

  /** Goes down the first children from page `id`, at most `fuel` steps. */
  function Leftmost(s: seq<PageData>, id: PageId, fuel: nat): PageId
    decreases fuel
  {
    if fuel == 0 || id >= |s| || !s[id].NodePage? || s[id].node.children == [] then id
    else Leftmost(s, s[id].node.children[0], fuel - 1)
  }

  /** The keys stored on the pages `ids`, in that order. */
  function KeysOn(s: seq<PageData>, ids: seq<PageId>): seq<int> {
    if ids == [] then []
    else (if ids[0] < |s| && s[ids[0]].NodePage? then s[ids[0]].node.keys else []) + KeysOn(s, ids[1..])
  }

  function LeafIds(ls: seq<LeafPage>): seq<PageId> {
    if ls == [] then [] else [ls[0].id] + LeafIds(ls[1..])
  }

  ghost predicate Stored(s: seq<PageData>, ls: seq<LeafPage>) {
    forall l :: l in ls ==> l.id < |s| && s[l.id] == NodePage(NodeOf(Leaf(l)))
  }

  lemma {:induction false} LeavesStored(s: seq<PageData>, t: Tree)
    requires Rep(s, t)
    ensures Stored(s, Leaves(t))
    decreases t, 1
  {
    if t.Branch? {
      LeavesOfStored(s, t.kids);
    }
  }

  lemma {:induction false} LeavesOfStored(s: seq<PageData>, ts: seq<Tree>)
    requires RepAll(s, ts)
    ensures Stored(s, LeavesOf(ts))
    decreases ts, 0
  {
    if ts != [] {
      LeavesStored(s, ts[0]);
      forall i | 0 <= i < |ts[1..]| ensures Rep(s, ts[1..][i]) {
        assert ts[1..][i] == ts[i + 1];
      }
      LeavesOfStored(s, ts[1..]);
    }
  }

  lemma {:induction false} WalkLeaves(s: seq<PageData>, ls: seq<LeafPage>, fuel: nat)
    requires ls != [] && Stored(s, ls) && Chain(ls, NO_PAGE) && |s| <= NO_PAGE && fuel >= |ls|
    ensures Walk(s, ls[0].id, fuel) == LeafIds(ls)
    decreases |ls|
  {
    assert ls[0] in ls && ChainedAt(ls, 0, NO_PAGE);
    if |ls| == 1 {
      assert LeafIds(ls[1..]) == [];
    } else {
      forall i | 0 <= i < |ls[1..]| ensures ChainedAt(ls[1..], i, NO_PAGE) {
        assert ChainedAt(ls, i + 1, NO_PAGE);
      }
      WalkLeaves(s, ls[1..], fuel - 1);
    }
  }

  lemma {:induction false} KeysOnLeaves(s: seq<PageData>, ls: seq<LeafPage>)
    requires Stored(s, ls)
    ensures KeysOn(s, LeafIds(ls)) == Keys(EntriesOf(ls))
    decreases |ls|
  {
    if ls != [] {
      assert ls[0] in ls;
      KeysOnLeaves(s, ls[1..]);
      assert LeafIds(ls)[1..] == LeafIds(ls[1..]);
      KeysPair(ls[0].es, EntriesOf(ls[1..]));
    }
  }

  lemma KeysPair(a: seq<Entry>, b: seq<Entry>)
    ensures Keys(a + b) == Keys(a) + Keys(b)
  {
  }

  lemma {:induction false} LeftmostLeaf(s: seq<PageData>, t: Tree, h: nat, lo: int, hi: int, fuel: nat)
    requires Cell(t, h, lo, hi) && Rep(s, t) && fuel >= h
    ensures Leaves(t) != [] && Leftmost(s, t.Id(), fuel) == Leaves(t)[0].id
    decreases h
  {
    CellShape(t, h, lo, hi);
    if t.Branch? {
      assert Cell(t.kids[0], h - 1, LowBound(t.seps, lo, 0), HighBound(t.seps, hi, 0));
      assert NodeOf(t).children[0] == t.kids[0].Id();
      LeftmostLeaf(s, t.kids[0], h - 1, lo, HighBound(t.seps, hi, 0), fuel - 1);
    }
  }

  /** From the leftmost leaf, the links pass through every leaf once, left to right, and stop;
      the keys met on the way are all stored keys in increasing order. */
  lemma LeafChain(s: seq<PageData>, root: PageId, t: Tree, h: nat, lo: int, hi: int, fuel: nat)
    requires TreeInv(s, root, t, h, lo, hi) && |s| <= NO_PAGE && fuel >= |Leaves(t)|
    ensures var ids := Walk(s, Leftmost(s, root, h), fuel);
      && ids == LeafIds(Leaves(t))
      && KeysOn(s, ids) == Keys(Entries(t)) && Increasing(KeysOn(s, ids))
      && (forall k :: k in KeysOn(s, ids) <==> k in Contents(Entries(t)))
  {
    LeftmostLeaf(s, t, h, lo, hi, h);
    LeavesStored(s, t);
    WalkLeaves(s, Leaves(t), fuel);
    KeysOnLeaves(s, Leaves(t));
    EntriesWF(t, h, lo, hi);
    var es := Entries(t);
    forall k ensures k in Keys(es) <==> k in Contents(es) {
      ContentsKey(es, k);
      if k in Keys(es) {
        var i :| 0 <= i < |es| && Keys(es)[i] == k;
        assert es[i].key == k;
      }
      if i :| 0 <= i < |es| && es[i].key == k {
        assert Keys(es)[i] == k;
      }
    }
  }
}
