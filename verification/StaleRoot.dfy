/** What is left of a B+ tree for whoever keeps the root page that a deletion gave up. */
module StaleRoots {
  import opened Storage
  import opened EntryList
  import opened TreeModel
  import opened TreePath
  import opened TreeShrink
  import opened TreeRepair
  import opened TreeGrowth
  import opened TreeDelete
  import opened NodeFit
  import opened TreeTheorems
  import opened Descents
  import opened BPlusTrees

  // ---------- A root page that a deletion gave up ----------

  /** Page `root` is the root of some B+ tree. */
  ghost predicate IsTreeRoot(s: seq<PageData>, root: PageId) {
    exists t, h: nat, lo, hi :: TreeInv(s, root, t, h, lo, hi)
  }

  /** Whoever keeps using the old root page after a deletion that moved the root
      (as `_remove_index_entries` does in the executor and in the transaction manager)
      no longer uses a B+ tree. */
  lemma StaleRootIsNoTree(s: seq<PageData>, s': seq<PageData>, root: PageId, root': PageId, t: Tree, h: nat, lo: int, hi: int,
                          t': Tree, h': nat, lo': int, hi': int, key: int, p: RowPointer)
    requires TreeInv(s, root, t, h, lo, hi) && TreeInv(s', root', t', h', lo', hi')
    requires StaleRoot(s, s', root, root')
    requires Contents(Entries(t')) == Removed(Contents(Entries(t)), key, p)
    ensures !IsTreeRoot(s', root)
  {
    if u, hu: nat, lu, gu :| TreeInv(s', root, u, hu, lu, gu) {
      var k := KeyBeyond(t, h, lo, hi, key);
      StaleBounds(s, s', root, root', t, u, hu, lu, gu, t', k);
      ContentsKey(Entries(t'), k);
    }
  }

  /** Read through the old root page, the new tree would have to lie below the old first separator. */
  lemma StaleBounds(s: seq<PageData>, s': seq<PageData>, root: PageId, root': PageId, t: Tree, u: Tree, h: nat, lo: int, hi: int,
                    t': Tree, k: int)
    requires Rep(s, t) && t.Id() == root && u.Id() == root && Rep(s', u) && Cell(u, h, lo, hi)
    requires Rep(s', t') && t'.Id() == root' && StaleRoot(s, s', root, root')
    requires t.Branch? && t.seps != [] && k >= t.seps[0]
    ensures forall i :: 0 <= i < |Entries(t')| ==> Entries(t')[i].key != k
  {
    assert NodeOf(u) == NodeOf(t);
    CellShape(u, h, lo, hi);
    var c := u.kids[0];
    assert NodeOf(u).children[0] == c.Id();
    assert Rep(s', c);
    RepUnique(s', c, t');
    assert Cell(c, h - 1, LowBound(u.seps, lo, 0), HighBound(u.seps, hi, 0));
    EntriesWF(c, h - 1, lo, t.seps[0]);
  }

  /** To the right of the first separator there are keys other than `key`. */
  lemma KeyBeyond(t: Tree, h: nat, lo: int, hi: int, key: int) returns (k: int)
    requires Cell(t, h, lo, hi) && t.Branch? && t.seps != []
    ensures k in Contents(Entries(t)) && k >= t.seps[0] && k != key
  {
    CellShape(t, h, lo, hi);
    var left, right := Entries(t.kids[0]), EntriesOf(LeavesOf(t.kids[1..]));
    RightPart(t.seps, t.kids, h - 1, lo, hi);
    EntriesConcat(Leaves(t.kids[0]), LeavesOf(t.kids[1..]));
    assert LeavesOf(t.kids) == Leaves(t.kids[0]) + LeavesOf(t.kids[1..]);
    assert Entries(t) == left + right;
    var i := if right[0].key == key then 1 else 0;
    k := right[i].key;
    hide *;
    assert (left + right)[|left| + i] == right[i];
    ContentsKey(left + right, k);
  }

  lemma RightPart(ks: seq<int>, ts: seq<Tree>, h: nat, lo: int, hi: int)
    requires WFKids(ks, ts, h, lo, hi) && AllFull(ts) && ks != []
    ensures var es := EntriesOf(LeavesOf(ts[1..])); |es| >= 2 && es[0].key != es[1].key && es[0].key >= ks[0] && es[1].key >= ks[0]
  {
    RunsDivide(ks, ts, 0, h, lo, hi);
    KidsEntries(ks[1..], ts[1..], h, ks[0], hi);
    EntriesKidsWF(ks[1..], ts[1..], h, ks[0], hi);
    PowPositive(h);
    TimesMonotone(1, |ts[1..]|, 16 * Pow17(h));
  }

  lemma PowPositive(n: nat)
    ensures Pow17(n) >= 1
  {
  }

  // ---------- What is below the root that was given up ----------

  /** All pages of a tree but its top one. */
  function Below(t: Tree): multiset<PageId> {
    if t.Leaf? then multiset{} else IdsOf(t.kids)
  }

  lemma IdsBelow(t: Tree)
    ensures Ids(t) == multiset{t.Id()} + Below(t)
  {
    assert multiset{t.Id()} + multiset{} == multiset{t.Id()};
  }

  /** The branch `t` with children `a` and `a + 1` pooled into `c`. */
  function OneKidLess(t: Tree, a: nat, c: Tree): Tree
    requires t.Branch? && a < |t.seps| && |t.kids| == |t.seps| + 1
  {
    Branch(t.bid, t.seps[..a] + t.seps[a + 1..], t.kids[..a] + [c] + t.kids[a + 2..])
  }

  /** A deletion at child `i` pools `l` and `r`, in the places of children `a` and `a + 1`. */
  ghost predicate PoolPair(t: Tree, i: nat, a: nat, l: Tree, r: Tree, key: int, p: RowPointer)
    requires t.Branch? && |t.kids| == |t.seps| + 1
  {
    && a < |t.seps| && i < |t.kids|
    && if i > 0 then i == a + 1 && l == t.kids[a] && r == Melt(t.kids[i], key, p)
       else a == 0 && l == Melt(t.kids[0], key, p) && r == t.kids[1]
  }

  lemma MeltShape(t: Tree, key: int, p: RowPointer) returns (i: nat, a: nat, l: Tree, r: Tree)
    requires t.Branch? && Increasing(t.seps) && |t.kids| == |t.seps| + 1 && t.seps != []
    ensures i == BisectRight(t.seps, key) && a < |t.seps| && PoolPair(t, i, a, l, r, key, p)
    ensures Melt(t, key, p) == OneKidLess(t, a, Fuse(l, t.seps[a], r))
  {
    i := BisectRight(t.seps, key);
    var f, m := FrameAt(t, i), Melt(t.kids[i], key, p);
    a := if i > 0 then i - 1 else 0;
    l, r := if i > 0 then t.kids[a] else m, if i > 0 then m else t.kids[1];
    assert Melt(t, key, p) == Pooled(f, m);
    hide Melt, Fuse;
    if i > 0 {
      assert Last(f.l) == t.kids[a] && Last(f.kl) == t.seps[a];
      PooledLeft(t, i, m, Fuse(l, t.seps[a], r));
    } else {
      PooledRight(t, m, Fuse(l, t.seps[a], r));
    }
  }

  lemma PooledLeft(t: Tree, i: nat, m: Tree, c: Tree)
    requires t.Branch? && |t.kids| == |t.seps| + 1 && 0 < i < |t.kids|
    ensures Replaced(FrameAt(t, i), m, 1, 0, [], [c]) == OneKidLess(t, i - 1, c)
  {
  }

  lemma PooledRight(t: Tree, m: Tree, c: Tree)
    requires t.Branch? && |t.kids| == |t.seps| + 1 && t.seps != []
    ensures Replaced(FrameAt(t, 0), m, 0, 1, [], [c]) == OneKidLess(t, 0, c)
  {
  }

  lemma FuseIds(a: Tree, m: int, b: Tree)
    requires a.Leaf? <==> b.Leaf?
    ensures Fuse(a, m, b).Id() == a.Id() && (Fuse(a, m, b).Leaf? <==> a.Leaf?)
    ensures Below(Fuse(a, m, b)) == Below(a) + Below(b)
  {
    if a.Branch? {
      IdsConcat(a.kids, b.kids);
    }
  }

  /** The pages of a branch, counted around its children `a` and `a + 1`. */
  lemma AroundPair(ts: seq<Tree>, a: nat)
    requires a + 1 < |ts|
    ensures IdsOf(ts) == IdsOf(ts[..a]) + IdsOf(ts[a + 2..]) + (Ids(ts[a]) + Ids(ts[a + 1]))
  {
    hide *;
    assert ts == ts[..a] + ([ts[a]] + [ts[a + 1]]) + ts[a + 2..];
    IdsThree(ts[..a], [ts[a]] + [ts[a + 1]], ts[a + 2..]);
    IdsConcat([ts[a]], [ts[a + 1]]);
    IdsSingle(ts[a]);
    IdsSingle(ts[a + 1]);
  }

  lemma MeltedLeaf(l: LeafPage, key: int, p: RowPointer, lo: int, hi: int)
    requires Cell(Leaf(l), 0, lo, hi) && RunsShort(l, key, p)
    ensures var m := Melt(Leaf(l), key, p);
      m.Leaf? && m.leaf.id == l.id && |m.leaf.es| == MIN_KEYS - 1 && Cell(m, 0, lo, hi)
      && Lookup(Contents(l.es), key) == [p] && forall k :: k != key ==> Lookup(Contents(m.leaf.es), k) == Lookup(Contents(l.es), k)
  {
    assert WF(Leaf(l), 0, lo, hi);
    var i := BisectLeft(Keys(l.es), key);
    assert i < |l.es| && l.es[i] == Entry(key, [p]);
    ThinnedCell(l, i, p, lo, hi);
    hide *;
    MeltLeafIs(l, i, key, p);
    assert l.es == l.es[..i] + [l.es[i]] + l.es[i + 1..];
    SortedAround(l.es, i);
    LookupAt(l.es[..i], l.es[i], l.es[i + 1..]);
    RemovedAt(l.es[..i], l.es[i], l.es[i + 1..], p);
    OtherKeys(Contents(l.es), key, p);
  }

  lemma MeltLeafIs(l: LeafPage, i: nat, key: int, p: RowPointer)
    requires Increasing(Keys(l.es)) && i == BisectLeft(Keys(l.es), key) && i < |l.es| && l.es[i] == Entry(key, [p])
    requires |l.es| == MIN_KEYS
    ensures Melt(Leaf(l), key, p) == Leaf(LeafPage(l.id, l.es[..i] + Shrunk(l.es[i], p) + l.es[i + 1..], l.next))
    ensures |l.es[..i] + Shrunk(l.es[i], p) + l.es[i + 1..]| == MIN_KEYS - 1
    ensures p in l.es[i].ptrs && l.es[i].ptrs == [p] && l.es[i].key == key
    ensures Melt(Leaf(l), key, p) == Leaf(Thinned(l, i, p))
  {
  }

  lemma SortedAround(es: seq<Entry>, i: nat)
    requires Sorted(es) && i < |es|
    ensures AllBelow(es[..i], es[i].key) && AllAbove(es[i + 1..], es[i].key)
  {
  }

  lemma OtherKeys(m: map<int, seq<RowPointer>>, key: int, p: RowPointer)
    ensures forall k :: k != key ==> Lookup(Removed(m, key, p), k) == Lookup(m, k)
  {
  }

  ghost predicate Aligned(t: Tree) {
    t.Branch? ==> |t.kids| == |t.seps| + 1
  }

  lemma CellAligned(t: Tree, h: nat, lo: int, hi: int)
    requires Cell(t, h, lo, hi)
    ensures Aligned(t) && (t.Leaf? <==> h == 0)
  {
    CellShape(t, h, lo, hi);
  }

  /** Pooling uses no new page, and what was the top page is still the top page. */
  lemma {:induction false} MeltIds(t: Tree, h: nat, lo: int, hi: int, key: int, p: RowPointer, top: bool)
    requires Cell(t, h, lo, hi) && lo <= key < hi && OnTheBrink(t, key, p, top)
    ensures Melt(t, key, p).Id() == t.Id() && (Melt(t, key, p).Leaf? <==> t.Leaf?) && Below(Melt(t, key, p)) <= Below(t)
    ensures Aligned(Melt(t, key, p)) && (t.Leaf? ==> Melt(t, key, p).Size() == MIN_KEYS - 1 && Cell(Melt(t, key, p), 0, lo, hi))
    decreases h, 1
  {
    CellShape(t, h, lo, hi);
    if t.Branch? {
      hide *;
      var i, a, l, r := PoolParts(t, h, lo, hi, key, p, top);
      AroundPair(t.kids, a);
      PooledIds(t, a, l, r);
      BelowMeans(t);
    } else {
      MeltedLeaf(t.leaf, key, p, lo, hi);
    }
  }

  lemma BelowMeans(t: Tree)
    ensures Below(t) == if t.Leaf? then multiset{} else IdsOf(t.kids)
  {
  }

  /** The pages below a branch after its children `a` and `a + 1` were pooled. */
  lemma PooledIds(t: Tree, a: nat, l: Tree, r: Tree)
    requires t.Branch? && a < |t.seps| && |t.kids| == |t.seps| + 1 && (l.Leaf? <==> r.Leaf?)
    requires l.Id() == t.kids[a].Id() && Below(l) <= Below(t.kids[a]) && Below(r) <= Below(t.kids[a + 1])
    ensures var c := Fuse(l, t.seps[a], r); var m := OneKidLess(t, a, c);
      && c.Id() == l.Id() && m.Branch? && m.Id() == t.Id() && Aligned(m)
      && Below(m) == IdsOf(t.kids[..a]) + IdsOf(t.kids[a + 2..]) + (multiset{l.Id()} + (Below(l) + Below(r)))
      && Ids(t.kids[a]) == multiset{l.Id()} + Below(t.kids[a])
      && Ids(t.kids[a + 1]) == multiset{t.kids[a + 1].Id()} + Below(t.kids[a + 1])
      && Below(m) <= IdsOf(t.kids[..a]) + IdsOf(t.kids[a + 2..]) + (Ids(t.kids[a]) + Ids(t.kids[a + 1]))
  {
    var c := Fuse(l, t.seps[a], r);
    hide Fuse, Ids, IdsOf, Below;
    FuseIds(l, t.seps[a], r);
    IdsBelow(c);
    IdsBelow(t.kids[a]);
    IdsBelow(t.kids[a + 1]);
    BelowMeans(OneKidLess(t, a, c));
    hide *;
    OneKidLessIs(t, a, c);
    IdsThree(t.kids[..a], [c], t.kids[a + 2..]);
    IdsSingle(c);
    PooledSum(IdsOf(t.kids[..a]) + IdsOf(t.kids[a + 2..]), l.Id(), t.kids[a + 1].Id(), Below(l), Below(r), Below(t.kids[a]), Below(t.kids[a + 1]));
  }

  lemma PooledSum(others: multiset<PageId>, x: PageId, y: PageId, l: multiset<PageId>, r: multiset<PageId>, a: multiset<PageId>, b: multiset<PageId>)
    requires l <= a && r <= b
    ensures others + (multiset{x} + (l + r)) <= others + ((multiset{x} + a) + (multiset{y} + b))
  {
  }

  /** A branch on the brink and the two nodes that are pooled below it. */
  lemma {:induction false} PoolParts(t: Tree, h: nat, lo: int, hi: int, key: int, p: RowPointer, top: bool)
    returns (i: nat, a: nat, l: Tree, r: Tree)
    requires t.Branch? && Cell(t, h, lo, hi) && lo <= key < hi && OnTheBrink(t, key, p, top)
    ensures h > 0 && Increasing(t.seps) && |t.kids| == |t.seps| + 1 && |t.seps| == if top then 1 else MIN_KEYS
    ensures i == BisectRight(t.seps, key) && i < |t.kids| && a < |t.seps| && PoolPair(t, i, a, l, r, key, p)
    ensures LowBound(t.seps, lo, i) <= key < HighBound(t.seps, hi, i) && OnTheBrink(t.kids[i], key, p, false)
    ensures Melt(t, key, p) == OneKidLess(t, a, Fuse(l, t.seps[a], r))
    ensures Cell(t.kids[a], h - 1, LowBound(t.seps, lo, a), t.seps[a])
    ensures Cell(t.kids[a + 1], h - 1, t.seps[a], HighBound(t.seps, hi, a + 1))
    ensures (l.Leaf? <==> h == 1) && (r.Leaf? <==> h == 1) && (t.kids[a].Leaf? <==> h == 1) && (t.kids[a + 1].Leaf? <==> h == 1)
    ensures l.Id() == t.kids[a].Id() && r.Id() == t.kids[a + 1].Id()
    ensures Below(l) <= Below(t.kids[a]) && Below(r) <= Below(t.kids[a + 1]) && Aligned(l) && Aligned(r)
    ensures h == 1 ==> l.Size() + r.Size() == MAX_KEYS - 1 && Cell(l, 0, LowBound(t.seps, lo, a), t.seps[a])
    decreases h, 0
  {
    hide WF, WFKids, Cell, Melt, OnTheBrink, Fuse, OneKidLess, PoolPair, Below, Ids, IdsOf, Increasing, Aligned;
    BranchView(t, h, lo, hi, key);
    BrinkMeans(t, key, p, top);
    i, a, l, r := MeltShape(t, key, p);
    PairMeans(t, i, a, l, r, key, p);
    KidInRange(t, a, h, lo, hi);
    KidInRange(t, a + 1, h, lo, hi);
    KidInRange(t, i, h, lo, hi);
    CellAligned(t.kids[a], h - 1, LowBound(t.seps, lo, a), t.seps[a]);
    CellAligned(t.kids[a + 1], h - 1, t.seps[a], HighBound(t.seps, hi, a + 1));
    MeltIds(t.kids[i], h - 1, LowBound(t.seps, lo, i), HighBound(t.seps, hi, i), key, p, false);
  }

  lemma PairMeans(t: Tree, i: nat, a: nat, l: Tree, r: Tree, key: int, p: RowPointer)
    requires t.Branch? && |t.kids| == |t.seps| + 1 && PoolPair(t, i, a, l, r, key, p)
    ensures a < |t.seps| && i < |t.kids| && (i > 0 ==> i == a + 1) && (i == 0 ==> a == 0)
    ensures i > 0 ==> l == t.kids[a] && r == Melt(t.kids[i], key, p)
    ensures i == 0 ==> l == Melt(t.kids[0], key, p) && r == t.kids[1]
  {
  }

  lemma BrinkMeans(t: Tree, key: int, p: RowPointer, top: bool)
    requires OnTheBrink(t, key, p, top)
    ensures t.Leaf? ==> RunsShort(t.leaf, key, p)
    ensures t.Branch? ==> Increasing(t.seps) && |t.kids| == |t.seps| + 1 && |t.seps| == (if top then 1 else MIN_KEYS)
    ensures t.Branch? ==> var i := BisectRight(t.seps, key);
      && OnTheBrink(t.kids[i], key, p, false)
      && (i > 0 ==> t.kids[i - 1].Size() == MIN_KEYS) && (i + 1 < |t.kids| ==> t.kids[i + 1].Size() == MIN_KEYS)
  {
  }

  // ---------- Searching from the root page that was given up ----------

  /** At every branch on the search path of `key` there is a child on the left of the path. */
  ghost predicate RightOfAll(t: Tree, key: int) {
    match t
    case Leaf(_) => true
    case Branch(_, seps, kids) =>
      && Increasing(seps) && |kids| == |seps| + 1
      && var i := BisectRight(seps, key); i > 0 && RightOfAll(kids[i], key)
  }

  lemma BisectRightIs(ks: seq<int>, k: int, n: nat)
    requires Increasing(ks) && n <= |ks|
    requires (n > 0 ==> ks[n - 1] <= k) && (n < |ks| ==> k < ks[n])
    ensures BisectRight(ks, k) == n
  {
  }

  /** The pages below the pooled node `m` are stored. */
  ghost predicate PooledStored(s: seq<PageData>, m: Tree, h: nat, lo: int, hi: int) {
    m.Branch? ==> h > 0 && WFKids(m.seps, m.kids, h - 1, lo, hi) && RepAll(s, m.kids)
  }

  /** A child of a pooled branch, found by its position. */
  lemma PooledKid(s: seq<PageData>, m: Tree, n: nat, h: nat, lo: int, hi: int)
    requires m.Branch? && PooledStored(s, m, h, lo, hi) && n < |m.kids|
    ensures h > 0 && |m.kids| == |m.seps| + 1 && Increasing(m.seps) && lo < hi
    ensures Rep(s, m.kids[n]) && Cell(m.kids[n], h - 1, LowBound(m.seps, lo, n), HighBound(m.seps, hi, n))
  {
    SepsSorted(m.seps, m.kids, h - 1, lo, hi);
  }

  /** What is stored below two pooled branches is stored below each of them. */
  lemma FuseStored(s: seq<PageData>, l: Tree, m: int, r: Tree, h: nat, lo: int, hi: int)
    requires l.Branch? && r.Branch? && |l.kids| == |l.seps| + 1
    requires Cell(Fuse(l, m, r), h, lo, hi) && Rep(s, Fuse(l, m, r))
    ensures PooledStored(s, l, h, lo, m) && PooledStored(s, r, h, m, hi)
  {
    var c := Fuse(l, m, r);
    CellShape(c, h, lo, hi);
    RunsDivide(c.seps, c.kids, |l.seps|, h - 1, lo, hi);
    assert c.seps[..|l.seps|] == l.seps && c.seps[|l.seps| + 1..] == r.seps;
    assert c.kids[..|l.kids|] == l.kids && c.kids[|l.kids|..] == r.kids;
    RepParts(s, l.kids, r.kids);
  }

  lemma RepParts(s: seq<PageData>, a: seq<Tree>, b: seq<Tree>)
    requires RepAll(s, a + b)
    ensures RepAll(s, a) && RepAll(s, b)
  {
    forall i | 0 <= i < |a| ensures Rep(s, a[i]) {
      assert (a + b)[i] == a[i];
    }
    forall i | 0 <= i < |b| ensures Rep(s, b[i]) {
      assert (a + b)[|a| + i] == b[i];
    }
  }

  /** The bounds around the child that `k` selects, before and after children `a` and `a + 1` were pooled. */
  lemma OneLessRange(ks: seq<int>, a: nat, lo: int, hi: int, k: int)
    requires Increasing(ks) && a < |ks| && lo <= k < hi
    ensures var j, ks' := BisectRight(ks, k), ks[..a] + ks[a + 1..]; var n: nat := if j <= a then j else j - 1;
      && n <= |ks'| && LowBound(ks', lo, n) <= k < HighBound(ks', hi, n)
      && LowBound(ks, lo, j) <= k < HighBound(ks, hi, j)
      && |ks'| == |ks| - 1 && n <= |ks'| && (j <= a ==> n == j) && (j > a ==> n + 1 == j)
      && LowBound(ks', lo, a) == LowBound(ks, lo, a) && HighBound(ks', hi, a) == HighBound(ks, hi, a + 1)
      && (j == a + 1 ==> ks[a] <= k)
  {
  }

  /** A leaf page with room for one more key. */
  ghost predicate RoomOn(s: seq<PageData>, leaf: Option<PageId>) {
    leaf.Some? && leaf.value < |s| && s[leaf.value].NodePage? && s[leaf.value].node.isLeaf
    && var n := s[leaf.value].node; Increasing(n.keys) && |n.values| == |n.keys| < MAX_KEYS
  }

  /** In two pooled branches a key takes the way it takes in the one on its side of the separator. */
  lemma FusedRoute(l: Tree, m: int, r: Tree, k: int)
    requires l.Branch? && r.Branch? && Aligned(l) && Aligned(r) && Increasing(l.seps + [m] + r.seps)
    ensures Increasing(l.seps) && Increasing(r.seps)
    ensures var c := Fuse(l, m, r);
      && c.Branch? && |c.kids| == |c.seps| + 1 && Increasing(c.seps)
      && c.kids[BisectRight(c.seps, k)] == if m <= k then r.kids[BisectRight(r.seps, k)] else l.kids[BisectRight(l.seps, k)]
  {
    IncreasingParts(l.seps, m, r.seps);
    SideOf(l.seps, m, r.seps, k);
  }

  lemma SideOf(a: seq<int>, m: int, b: seq<int>, k: int)
    requires Increasing(a) && Increasing(b) && Increasing(a + [m] + b)
    ensures BisectRight(a + [m] + b, k) == if m <= k then |a| + 1 + BisectRight(b, k) else BisectRight(a, k)
  {
    hide Increasing;
    var ks := a + [m] + b;
    if m <= k {
      BisectRightIs(ks, k, |a| + 1 + BisectRight(b, k));
    } else {
      BisectRightIs(ks, k, BisectRight(a, k));
    }
  }

  lemma IncreasingParts(a: seq<int>, m: int, b: seq<int>)
    requires Increasing(a + [m] + b)
    ensures Increasing(a) && Increasing(b)
  {
    var ks := a + [m] + b;
    assert forall i :: 0 <= i < |a| ==> ks[i] == a[i];
    assert forall i :: 0 <= i < |b| ==> ks[|a| + 1 + i] == b[i];
  }

  /** The leaf that was pooled last has room for one more key. */
  lemma {:induction false} RoomAtKey(s: seq<PageData>, t: Tree, h: nat, lo: int, hi: int, key: int, p: RowPointer, top: bool)
    requires t.Branch? && Cell(t, h, lo, hi) && lo <= key < hi && OnTheBrink(t, key, p, top)
    requires PooledStored(s, Melt(t, key, p), h, lo, hi)
    ensures var m := Melt(t, key, p);
      && m.Branch? && |m.kids| == |m.seps| + 1 && Increasing(m.seps)
      && RoomOn(s, LeafReached(s, m.kids[BisectRight(m.seps, key)].Id(), key, h - 1))
    decreases h
  {
    hide WF, WFKids, Cell, Rep, RepAll, Melt, OnTheBrink, OneKidLess, LeafReached, RoomOn, PooledStored, Below, Fuse, Increasing;
    var i, a, l, r := PoolParts(t, h, lo, hi, key, p, top);
    var c := Fuse(l, t.seps[a], r);
    var m := OneKidLess(t, a, c);
    OneKidLessIs(t, a, c);
    PooledKid(s, m, a, h, lo, hi);
    PairMeans(t, i, a, l, r, key, p);
    OneLessRange(t.seps, a, lo, hi, key);
    BisectRightIs(m.seps, key, a);
    if h == 1 {
      PooledLeafRoom(s, l, t.seps[a], r, LowBound(m.seps, lo, a), HighBound(m.seps, hi, a), key);
    } else {
      var b, u := LowBound(t.seps, lo, i), HighBound(t.seps, hi, i);
      FuseStored(s, l, t.seps[a], r, h - 1, LowBound(m.seps, lo, a), HighBound(m.seps, hi, a));
      KidInRange(t, i, h, lo, hi);
      CellAligned(t.kids[i], h - 1, b, u);
      RoomAtKey(s, t.kids[i], h - 1, b, u, key, p, false);
      FusedReach(s, l, t.seps[a], r, h - 1, LowBound(m.seps, lo, a), HighBound(m.seps, hi, a), key);
      assert (if t.seps[a] <= key then r else l) == Melt(t.kids[i], key, p);
    }
  }

  lemma FusedReach(s: seq<PageData>, l: Tree, m: int, r: Tree, h: nat, lo: int, hi: int, k: int)
    requires h > 0 && l.Branch? && r.Branch? && Aligned(l) && Aligned(r)
    requires Cell(Fuse(l, m, r), h, lo, hi) && Rep(s, Fuse(l, m, r))
    ensures Increasing(l.seps) && Increasing(r.seps)
    ensures LeafReached(s, Fuse(l, m, r).Id(), k, h) ==
      LeafReached(s, (if m <= k then r.kids[BisectRight(r.seps, k)] else l.kids[BisectRight(l.seps, k)]).Id(), k, h - 1)
  {
    var c := Fuse(l, m, r);
    CellShape(c, h, lo, hi);
    SepsSorted(c.seps, c.kids, h - 1, lo, hi);
    FusedRoute(l, m, r, k);
    ReachStep(s, c, k, h);
  }

  lemma PooledLeafRoom(s: seq<PageData>, l: Tree, m: int, r: Tree, lo: int, hi: int, key: int)
    requires l.Leaf? && r.Leaf? && l.Size() + r.Size() < MAX_KEYS && Rep(s, Fuse(l, m, r)) && Cell(Fuse(l, m, r), 0, lo, hi)
    ensures RoomOn(s, LeafReached(s, Fuse(l, m, r).Id(), key, 0))
  {
    assert WF(Fuse(l, m, r), 0, lo, hi);
    ReachEnd(s, Fuse(l, m, r).leaf, key, 0);
  }

  lemma OneKidLessIs(t: Tree, a: nat, c: Tree)
    requires t.Branch? && a < |t.seps| && |t.kids| == |t.seps| + 1
    ensures var m := OneKidLess(t, a, c);
      m.Branch? && m.bid == t.bid && m.seps == t.seps[..a] + t.seps[a + 1..] && m.kids == t.kids[..a] + [c] + t.kids[a + 2..]
      && |m.seps| == |t.seps| - 1 && |m.kids| == |t.kids| - 1 && m.kids[a] == c
      && (forall j :: 0 <= j < a ==> m.kids[j] == t.kids[j]) && (forall j :: a < j < |m.kids| ==> m.kids[j] == t.kids[j + 1])
  {
  }

  /** No page of `t` that left the tree was written. */
  ghost predicate Abandoned(s: seq<PageData>, s': seq<PageData>, fin: multiset<PageId>, rest: multiset<PageId>, t: Tree, m: Tree) {
    && |s'| == |s| && Untouched(s, s', fin) && Distinct(rest + Ids(t))
    && (forall x :: x in fin ==> x in rest + Below(m))
  }

  /** The top page of a node that was pooled away keeps its old content. */
  lemma TopKept(s: seq<PageData>, s': seq<PageData>, fin: multiset<PageId>, rest: multiset<PageId>, t: Tree, m: Tree)
    requires Abandoned(s, s', fin, rest, t, m) && Below(m) <= Below(t) && Rep(s, t)
    ensures t.Id() < |s'| && s'[t.Id()] == NodePage(NodeOf(t))
  {
    IdsBelow(t);
    assert Rep(s, t) && t.Id() < |s|;
    hide Ids, Below, Rep;
    OnceOnly(rest, t.Id(), Below(t));
    assert Below(m)[t.Id()] <= Below(t)[t.Id()];
    assert t.Id() !in rest + Below(m);
    TopStored(s, t);
  }

  lemma TopStored(s: seq<PageData>, t: Tree)
    requires Rep(s, t)
    ensures t.Id() < |s| && s[t.Id()] == NodePage(NodeOf(t)) && (t.Branch? ==> RepAll(s, t.kids))
  {
  }

  lemma OnceOnly(rest: multiset<PageId>, x: PageId, below: multiset<PageId>)
    requires Distinct(rest + (multiset{x} + below))
    ensures x !in rest && x !in below
  {
    assert (rest + (multiset{x} + below))[x] <= 1;
  }

  /** What was pooled away at the right of the pair, seen as a subtree of its own. */
  lemma AbandonedRight(s: seq<PageData>, s': seq<PageData>, fin: multiset<PageId>, rest: multiset<PageId>, t: Tree, a: nat, l: Tree, r: Tree)
    requires t.Branch? && a < |t.seps| && |t.kids| == |t.seps| + 1 && (l.Leaf? <==> r.Leaf?)
    requires l.Id() == t.kids[a].Id() && Below(l) <= Below(t.kids[a]) && Below(r) <= Below(t.kids[a + 1])
    requires Abandoned(s, s', fin, rest, t, OneKidLess(t, a, Fuse(l, t.seps[a], r)))
    ensures Abandoned(s, s', fin, rest + (IdsOf(t.kids[..a]) + IdsOf(t.kids[a + 2..]) + Ids(t.kids[a])), t.kids[a + 1], r)
  {
    hide Ids, IdsOf, Below, Fuse, OneKidLess, Untouched, Distinct;
    PooledIds(t, a, l, r);
    AroundPair(t.kids, a);
    IdsBelow(t);
    BelowMeans(t);
    var m := OneKidLess(t, a, Fuse(l, t.seps[a], r));
    var others := IdsOf(t.kids[..a]) + IdsOf(t.kids[a + 2..]);
    RestDistinct(rest, multiset{t.Id()}, others, Ids(t.kids[a]), Ids(t.kids[a + 1]));
    forall x | x in fin ensures x in rest + (others + Ids(t.kids[a])) + Below(r) {
      assert x in rest + Below(m);
      assert Below(l)[x] <= Below(t.kids[a])[x];
    }
  }

  lemma RestDistinct(rest: multiset<PageId>, top: multiset<PageId>, others: multiset<PageId>, a: multiset<PageId>, b: multiset<PageId>)
    requires Distinct(rest + (top + (others + (a + b))))
    ensures Distinct(rest + (others + a) + b)
  {
    DistinctSub(rest + (others + a) + b, rest + (top + (others + (a + b))));
  }

  lemma FuseEntries(l: Tree, m: int, r: Tree)
    requires l.Leaf? <==> r.Leaf?
    ensures Entries(Fuse(l, m, r)) == Entries(l) + Entries(r)
  {
    EntriesMeaning(l);
    EntriesMeaning(r);
    EntriesMeaning(Fuse(l, m, r));
    if l.Branch? {
      LeavesConcat(l.kids, r.kids);
      EntriesConcat(LeavesOf(l.kids), LeavesOf(r.kids));
    }
  }

  /** In a pooled node, what is above the separator is found on the right. */
  lemma FuseLookup(s: seq<PageData>, l: Tree, m: int, r: Tree, h: nat, lo: int, hi: int, k: int)
    requires (l.Leaf? <==> h == 0) && (r.Leaf? <==> h == 0) && Aligned(l) && m <= k
    requires Cell(Fuse(l, m, r), h, lo, hi) && Rep(s, Fuse(l, m, r)) && (h == 0 ==> Cell(l, 0, lo, m))
    ensures Lookup(Contents(Entries(Fuse(l, m, r))), k) == Lookup(Contents(Entries(r)), k)
  {
    hide WF, WFKids, Cell, Rep, Contents, Lookup, Entries, Fuse, PooledStored;
    EntriesMeaning(l);
    if h == 0 {
      CellEntries(l, 0, lo, m);
    } else {
      FuseStored(s, l, m, r, h, lo, hi);
      StoredEntries(s, l, h, lo, m);
    }
    FuseEntries(l, m, r);
    assert Entries(l) + Entries(r) == Entries(l) + Entries(r) + [];
    LookupMiddle(Entries(l), Entries(r), [], k);
  }

  lemma CellEntries(t: Tree, h: nat, lo: int, hi: int)
    requires Cell(t, h, lo, hi)
    ensures forall k :: hi <= k ==> AllBelow(Entries(t), k)
  {
    EntriesWF(t, h, lo, hi);
    hide Entries, WF;
  }

  lemma StoredEntries(s: seq<PageData>, t: Tree, h: nat, lo: int, hi: int)
    requires t.Branch? && PooledStored(s, t, h, lo, hi)
    ensures forall k :: hi <= k ==> AllBelow(Entries(t), k)
  {
    EntriesMeaning(t);
    EntriesKidsWF(t.seps, t.kids, h - 1, lo, hi);
    hide Entries, WFKids;
  }

  /** A search through pages that were pooled away, one level at a time. */
  lemma {:induction false} StaleDown(s: seq<PageData>, s': seq<PageData>, fin: multiset<PageId>, rest: multiset<PageId>, t: Tree,
                                     h: nat, lo: int, hi: int, key: int, p: RowPointer, top: bool, k: int)
    requires Cell(t, h, lo, hi) && Rep(s, t) && lo <= key < hi && lo <= k < hi && OnTheBrink(t, key, p, top)
    requires var m := Melt(t, key, p); Abandoned(s, s', fin, rest, t, m) && PooledStored(s', m, h, lo, hi)
    ensures Arrives(s', t.Id(), k, h)
    ensures SearchFrom(s', t.Id(), k, h) ==
      if k == key && RightOfAll(t, key) then [p] else Lookup(Contents(Entries(Melt(t, key, p))), k)
    ensures k == key ==> RoomOn(s', LeafReached(s', t.Id(), k, h))
    decreases h, 2
  {
    hide WF, WFKids, Cell, Rep, RepAll, Melt, OnTheBrink, LeafReached, Arrives, SearchFrom, ListOn, RoomOn, Abandoned, PooledStored, RightOfAll,
      Contents, Entries, Lookup, Increasing, Ids, Below, NodeOf;
    CellAligned(t, h, lo, hi);
    MeltIds(t, h, lo, hi, key, p, top);
    TopKept(s, s', fin, rest, t, Melt(t, key, p));
    if t.Leaf? {
      StaleLeaf(s', t.leaf, lo, hi, key, p, top, k);
    } else {
      BrinkMeans(t, key, p, top);
      ReachStep(s', t, k, h);
      StaleKid(s, s', fin, rest, t, h, lo, hi, key, p, top, k, BisectRight(t.seps, k));
      SearchMeans(s', t.Id(), k, h);
      SearchMeans(s', t.kids[BisectRight(t.seps, k)].Id(), k, h - 1);
    }
  }

  lemma SearchMeans(s: seq<PageData>, root: PageId, key: int, fuel: nat)
    ensures var leaf := LeafReached(s, root, key, fuel);
      && SearchFrom(s, root, key, fuel) == (if leaf.None? then [] else ListOn(s[leaf.value].node, key))
      && (Arrives(s, root, key, fuel) <==> leaf.Some? && var n := s[leaf.value].node; Increasing(n.keys) && |n.values| == |n.keys|)
  {
  }

  lemma StaleLeaf(s: seq<PageData>, l: LeafPage, lo: int, hi: int, key: int, p: RowPointer, top: bool, k: int)
    requires Cell(Leaf(l), 0, lo, hi) && OnTheBrink(Leaf(l), key, p, top)
    requires l.id < |s| && s[l.id] == NodePage(NodeOf(Leaf(l)))
    ensures RightOfAll(Leaf(l), key) && RoomOn(s, LeafReached(s, l.id, k, 0))
    ensures Arrives(s, l.id, k, 0)
    ensures SearchFrom(s, l.id, k, 0) == if k == key then [p] else Lookup(Contents(Entries(Melt(Leaf(l), key, p))), k)
  {
    BrinkMeans(Leaf(l), key, p, top);
    MeltedLeaf(l, key, p, lo, hi);
    EntriesMeaning(Melt(Leaf(l), key, p));
    assert WF(Leaf(l), 0, lo, hi);
    LeafSearch(s, l, lo, hi, k);
  }

  /** The child that the old branch selects for `k`, after children `a` and `a + 1` were pooled. */
  lemma {:induction false} StaleKid(s: seq<PageData>, s': seq<PageData>, fin: multiset<PageId>, rest: multiset<PageId>, t: Tree,
                                    h: nat, lo: int, hi: int, key: int, p: RowPointer, top: bool, k: int, j: nat)
    requires t.Branch? && Cell(t, h, lo, hi) && Rep(s, t) && lo <= key < hi && lo <= k < hi && OnTheBrink(t, key, p, top)
    requires h > 0 && Increasing(t.seps) && |t.kids| == |t.seps| + 1 && j == BisectRight(t.seps, k)
    requires var m := Melt(t, key, p); Abandoned(s, s', fin, rest, t, m) && PooledStored(s', m, h, lo, hi)
    ensures Arrives(s', t.kids[j].Id(), k, h - 1)
    ensures SearchFrom(s', t.kids[j].Id(), k, h - 1) ==
      if k == key && RightOfAll(t, key) then [p] else Lookup(Contents(Entries(Melt(t, key, p))), k)
    ensures k == key ==> RoomOn(s', LeafReached(s', t.kids[j].Id(), k, h - 1))
    decreases h, 1
  {
    hide WF, WFKids, Cell, Rep, RepAll, Melt, OnTheBrink, OneKidLess, LeafReached, Arrives, SearchFrom, RoomOn, Abandoned, PooledStored, RightOfAll,
      Contents, Entries, Lookup, Fuse, Increasing, PoolPair, Ids, Below, LowBound, HighBound, BisectRight, Aligned;
    var i, a, l, r := PoolParts(t, h, lo, hi, key, p, top);
    PairMeans(t, i, a, l, r, key, p);
    RightMeans(t, key);
    var c := Fuse(l, t.seps[a], r);
    var m := OneKidLess(t, a, c);
    OneKidLessIs(t, a, c);
    OneLessRange(t.seps, a, lo, hi, k);
    var n: nat := if j <= a then j else j - 1;
    var b, u := LowBound(m.seps, lo, n), HighBound(m.seps, hi, n);
    PooledKid(s', m, n, h, lo, hi);
    PooledLookup(s', m, n, h, lo, hi, k);
    if n != a {
      SearchTree(s', t.kids[j], h - 1, b, u, k);
    } else if j == a {
      FuseIds(l, t.seps[a], r);
      SearchTree(s', c, h - 1, b, u, k);
      if k == key {
        RoomAtKey(s', t, h, lo, hi, key, p, top);
        PathAt(m.seps, a, lo, hi, key);
      }
    } else {
      StaleRight(s, s', fin, rest, t, h, lo, hi, key, p, top, k, i, a, l, r, b, u);
    }
  }

  lemma PathAt(ks: seq<int>, n: nat, lo: int, hi: int, k: int)
    requires Increasing(ks) && n <= |ks| && LowBound(ks, lo, n) <= k < HighBound(ks, hi, n)
    ensures BisectRight(ks, k) == n
  {
    BisectRightIs(ks, k, n);
  }

  lemma RightMeans(t: Tree, key: int)
    requires t.Branch? && Increasing(t.seps) && |t.kids| == |t.seps| + 1
    ensures var i := BisectRight(t.seps, key); RightOfAll(t, key) <==> i > 0 && RightOfAll(t.kids[i], key)
  {
  }

  lemma PooledLookup(s: seq<PageData>, m: Tree, n: nat, h: nat, lo: int, hi: int, k: int)
    requires m.Branch? && PooledStored(s, m, h, lo, hi) && n < |m.kids| == |m.seps| + 1
    requires LowBound(m.seps, lo, n) <= k < HighBound(m.seps, hi, n)
    ensures Lookup(Contents(Entries(m)), k) == Lookup(Contents(Entries(m.kids[n])), k)
  {
    EntriesMeaning(m);
    hide Entries, Contents, Lookup, WFKids;
    RowLookup(m.seps, m.kids, n, h - 1, lo, hi, k);
  }

  /** The right one of the pair is read from its old page. */
  lemma {:induction false} StaleRight(s: seq<PageData>, s': seq<PageData>, fin: multiset<PageId>, rest: multiset<PageId>, t: Tree,
                                      h: nat, lo: int, hi: int, key: int, p: RowPointer, top: bool, k: int,
                                      i: nat, a: nat, l: Tree, r: Tree, b: int, u: int)
    requires t.Branch? && Cell(t, h, lo, hi) && Rep(s, t) && lo <= key < hi && OnTheBrink(t, key, p, top)
    requires h > 0 && |t.kids| == |t.seps| + 1 && a < |t.seps| && i < |t.kids|
    requires if i > 0 then i == a + 1 && l == t.kids[a] && r == Melt(t.kids[i], key, p) else a == 0 && l == Melt(t.kids[0], key, p) && r == t.kids[1]
    requires i > 0 ==> t.seps[a] <= key < HighBound(t.seps, hi, a + 1) && OnTheBrink(t.kids[i], key, p, false)
    requires l.Id() == t.kids[a].Id() && Below(l) <= Below(t.kids[a]) && Below(r) <= Below(t.kids[a + 1]) && Aligned(l)
    requires (l.Leaf? <==> h == 1) && (r.Leaf? <==> h == 1) && (h == 1 ==> Cell(l, 0, b, t.seps[a]))
    requires var c := Fuse(l, t.seps[a], r);
      && Abandoned(s, s', fin, rest, t, OneKidLess(t, a, c)) && Cell(c, h - 1, b, u) && Rep(s', c)
    requires b == LowBound(t.seps, lo, a) && u == HighBound(t.seps, hi, a + 1) && t.seps[a] <= k < u
    ensures Arrives(s', t.kids[a + 1].Id(), k, h - 1)
    ensures SearchFrom(s', t.kids[a + 1].Id(), k, h - 1) ==
      if k == key && i > 0 && RightOfAll(t.kids[i], key) then [p] else Lookup(Contents(Entries(Fuse(l, t.seps[a], r))), k)
    ensures k == key && i > 0 ==> RoomOn(s', LeafReached(s', t.kids[a + 1].Id(), k, h - 1))
    decreases h, 0
  {
    hide WF, WFKids, Cell, Rep, RepAll, Melt, OnTheBrink, OneKidLess, LeafReached, Arrives, SearchFrom, RoomOn, Abandoned, PooledStored, RightOfAll,
      Contents, Entries, Lookup, Fuse, Ids, IdsOf, Below, NodeOf, Increasing;
    var kid := t.kids[a + 1];
    AbandonedRight(s, s', fin, rest, t, a, l, r);
    ghost var others := rest + (IdsOf(t.kids[..a]) + IdsOf(t.kids[a + 2..]) + Ids(t.kids[a]));
    KidInRange(t, a + 1, h, lo, hi);
    KidRep(s, t, kid);
    RightStored(s', l, t.seps[a], r, h - 1, b, u);
    FuseLookup(s', l, t.seps[a], r, h - 1, b, u, k);
    if i > 0 {
      StaleDown(s, s', fin, others, kid, h - 1, t.seps[a], u, key, p, false, k);
    } else {
      TopKept(s, s', fin, others, kid, r);
      WholeStored(s', kid, h - 1, t.seps[a], u);
      SearchTree(s', kid, h - 1, t.seps[a], u, k);
    }
  }

  lemma RightStored(s: seq<PageData>, l: Tree, m: int, r: Tree, h: nat, lo: int, hi: int)
    requires (l.Leaf? <==> h == 0) && (r.Leaf? <==> h == 0) && Aligned(l)
    requires Cell(Fuse(l, m, r), h, lo, hi) && Rep(s, Fuse(l, m, r))
    ensures PooledStored(s, r, h, m, hi)
  {
    if h > 0 {
      hide WFKids, RepAll, Fuse;
      FuseStored(s, l, m, r, h, lo, hi);
    }
  }

  lemma WholeStored(s: seq<PageData>, t: Tree, h: nat, lo: int, hi: int)
    requires t.Id() < |s| && s[t.Id()] == NodePage(NodeOf(t)) && PooledStored(s, t, h, lo, hi)
    ensures Rep(s, t)
  {
  }

  // ---------- The whole deletion ----------

  lemma {:induction false} SameHeight(t: Tree, h: nat, lo: int, hi: int, h': nat, lo': int, hi': int)
    requires Cell(t, h, lo, hi) && Cell(t, h', lo', hi')
    ensures h' == h
    decreases h
  {
    CellShape(t, h, lo, hi);
    CellShape(t, h', lo', hi');
    if t.Branch? {
      KidInRange(t, 0, h, lo, hi);
      KidInRange(t, 0, h', lo', hi');
      SameHeight(t.kids[0], h - 1, lo, HighBound(t.seps, hi, 0), h' - 1, lo', HighBound(t.seps, hi', 0));
    }
  }

  /** The pages `s'` are what a deletion of `p` under `key` made of the tree `t` in `s` when it moved the root. */
  ghost predicate RootMoved(s: seq<PageData>, s': seq<PageData>, root: PageId, root': PageId, t: Tree, t': Tree,
                           h: nat, lo: int, hi: int, h': nat, lo': int, hi': int, key: int, p: RowPointer)
  {
    && TreeInv(s, root, t, h, lo, hi) && TreeInv(s', root', t', h', lo', hi')
    && RootShrinks(t, key, p) && t' == MeltedRoot(t, key, p)
    && |s'| == |s| && Untouched(s, s', Ids(t'))
    && Contents(Entries(t')) == Removed(Contents(Entries(t)), key, p)
  }

  lemma MeltedTop(t: Tree, h: nat, lo: int, hi: int, t': Tree, h': nat, key: int, p: RowPointer)
    requires Cell(t, h, lo, hi) && Cell(t', h', lo, hi) && lo <= key < hi
    requires RootShrinks(t, key, p) && t' == MeltedRoot(t, key, p)
    ensures h > 0 && h' == h - 1 && Melt(t, key, p) == Branch(t.bid, [], [t'])
  {
    hide WF, WFKids, Cell, Melt, OnTheBrink, PoolPair, Below, Ids;
    var i, a, l, r := PoolParts(t, h, lo, hi, key, p, true);
    PairMeans(t, i, a, l, r, key, p);
    OneKidLessIs(t, a, Fuse(l, t.seps[a], r));
    FuseIds(l, t.seps[a], r);
    CellAligned(t', h', lo, hi);
    if h > 1 {
      var n := if i > 0 then 0 else |t'.kids| - 1;
      KidInRange(t', n, h', lo, hi);
      var old_, m := if i > 0 then t.kids[0] else t.kids[1], if i > 0 then 0 else |t.kids[1].kids| - 1;
      var b, u := if i > 0 then LowBound(t.seps, lo, a) else t.seps[a], if i > 0 then t.seps[a] else HighBound(t.seps, hi, a + 1);
      CellAligned(old_, h - 1, b, u);
      KidInRange(old_, m, h - 1, b, u);
      assert t'.kids[n] == old_.kids[m];
      SameHeight(t'.kids[n], h' - 1, LowBound(t'.seps, lo, n), HighBound(t'.seps, hi, n),
                 h - 2, LowBound(old_.seps, b, m), HighBound(old_.seps, u, m));
    }
  }

  lemma OnlyKid(s: seq<PageData>, id: PageId, t: Tree, h: nat, lo: int, hi: int)
    requires Cell(t, h, lo, hi) && Rep(s, t)
    ensures var m := Branch(id, [], [t]);
      PooledStored(s, m, h + 1, lo, hi) && Below(m) == Ids(t) && Entries(m) == Entries(t)
  {
    OnlyChild(t, h, lo, hi);
    IdsSingle(t);
    LeavesSingle(t);
  }

  /** What a search finds that starts at the root page that was given up: what the new tree stores, except that it may still
      find the pointer that was deleted. It does if the key lies to the right at every branch on its path. */
  lemma StaleSearch(s: seq<PageData>, s': seq<PageData>, root: PageId, root': PageId, t: Tree, t': Tree,
                    h: nat, lo: int, hi: int, h': nat, lo': int, hi': int, key: int, p: RowPointer, k: int)
    requires RootMoved(s, s', root, root', t, t', h, lo, hi, h', lo', hi', key, p)
    ensures Arrives(s', root, k, h)
    ensures SearchFrom(s', root, k, h) ==
      if k == key && RightOfAll(t, key) then [p] else Lookup(Removed(Contents(Entries(t)), key, p), k)
    ensures k == key ==> RoomOn(s', LeafReached(s', root, k, h))
  {
    var l, u := Both(t, h, lo, hi, t', h', lo', hi', key, k);
    hide WF, WFKids, Cell, Melt, MeltedRoot, OnTheBrink, Below, Ids, Rep, Entries, Contents, Removed, Chain, PooledStored,
      SearchFrom, LeafReached, Arrives, RoomOn, RightOfAll;
    MeltedTop(t, h, l, u, t', h', key, p);
    OnlyKid(s', t.bid, t', h', l, u);
    assert multiset{} + Ids(t) == Ids(t);
    StaleDown(s, s', Ids(t'), multiset{}, t, h, l, u, key, p, true, k);
  }

  /** A key range for two trees and two keys. */
  lemma Both(t: Tree, h: nat, lo: int, hi: int, t': Tree, h': nat, lo': int, hi': int, k: int, k': int) returns (l: int, u: int)
    requires Cell(t, h, lo, hi) && Cell(t', h', lo', hi')
    ensures Cell(t, h, l, u) && Cell(t', h', l, u) && l <= k < u && l <= k' < u
  {
    var ends := (if lo < lo' then lo else lo', if hi < hi' then hi' else hi);
    var keys := (if k < k' then k else k', if k < k' then k' + 1 else k + 1);
    l := if ends.0 < keys.0 then ends.0 else keys.0;
    u := if ends.1 < keys.1 then keys.1 else ends.1;
    Widen(t, h, lo, hi, l, u);
    Widen(t', h', lo', hi', l, u);
  }

  /** On the brink, the pointer is the only one of its key. */
  lemma {:induction false} BrinkList(t: Tree, h: nat, lo: int, hi: int, key: int, p: RowPointer, top: bool)
    requires Cell(t, h, lo, hi) && lo <= key < hi && OnTheBrink(t, key, p, top)
    ensures Lookup(Contents(Entries(t)), key) == [p]
    decreases h
  {
    hide WF, WFKids, Cell, Melt, OnTheBrink, Entries, Contents, Lookup;
    CellAligned(t, h, lo, hi);
    BrinkMeans(t, key, p, top);
    EntriesMeaning(t);
    if t.Leaf? {
      MeltedLeaf(t.leaf, key, p, lo, hi);
    } else {
      BranchView(t, h, lo, hi, key);
      var i := BisectRight(t.seps, key);
      KidInRange(t, i, h, lo, hi);
      BrinkList(t.kids[i], h - 1, LowBound(t.seps, lo, i), HighBound(t.seps, hi, i), key, p, false);
      CellShape(t, h, lo, hi);
      RowLookup(t.seps, t.kids, i, h - 1, lo, hi, key);
    }
  }

  /** Putting the pointer back by way of the old root page: the searches from there find all lists as they were before the
      deletion if the key does not lie to the right all the way; otherwise the pointer is listed twice. */
  lemma StaleRollback(s: seq<PageData>, s': seq<PageData>, root: PageId, root': PageId, t: Tree, t': Tree,
                      h: nat, lo: int, hi: int, h': nat, lo': int, hi': int, key: int, p: RowPointer, k: int)
    requires RootMoved(s, s', root, root', t, t', h, lo, hi, h', lo', hi', key, p)
    ensures InsertFrom(s', root, key, p, h).Some?
    ensures Arrives(InsertFrom(s', root, key, p, h).value, root, k, h)
    ensures SearchFrom(InsertFrom(s', root, key, p, h).value, root, k, h) ==
      if k == key && RightOfAll(t, key) then [p, p] else Lookup(Contents(Entries(t)), k)
  {
    hide *;
    StaleSearch(s, s', root, root', t, t', h, lo, hi, h', lo', hi', key, p, key);
    StaleSearch(s, s', root, root', t, t', h, lo, hi, h', lo', hi', key, p, k);
    OnlyPointer(s, s', root, root', t, t', h, lo, hi, h', lo', hi', key, p);
    HasRoom(s', root, key, p, h);
    OtherKeys(Contents(Entries(t)), key, p);
    assert [p] + [p] == [p, p] && [] + [p] == [p];
    InsertSeen(s', root, key, p, h, InsertFrom(s', root, key, p, h).value, k);
  }

  lemma OnlyPointer(s: seq<PageData>, s': seq<PageData>, root: PageId, root': PageId, t: Tree, t': Tree,
                    h: nat, lo: int, hi: int, h': nat, lo': int, hi': int, key: int, p: RowPointer)
    requires RootMoved(s, s', root, root', t, t', h, lo, hi, h', lo', hi', key, p)
    ensures Lookup(Contents(Entries(t)), key) == [p] && Lookup(Removed(Contents(Entries(t)), key, p), key) == []
  {
    hide Contents, Entries, Removed, Lookup;
    var l, u := Both(t, h, lo, hi, t', h', lo', hi', key, key);
    BrinkList(t, h, l, u, key, p, true);
    LastGone(Contents(Entries(t)), key, p);
  }

  lemma HasRoom(s: seq<PageData>, root: PageId, key: int, p: RowPointer, fuel: nat)
    requires RoomOn(s, LeafReached(s, root, key, fuel))
    ensures InsertFrom(s, root, key, p, fuel).Some?
  {
  }

  lemma LastGone(m: map<int, seq<RowPointer>>, key: int, p: RowPointer)
    requires Lookup(m, key) == [p]
    ensures Lookup(Removed(m, key, p), key) == []
  {
    assert RemoveFirst([p], p) == [];
  }

  // ---------- A tree that loses its root ----------

  /** Sixteen entries with one pointer each. */
  function SampleEntries(from: nat): (es: seq<Entry>)
    ensures |es| == 16 && forall i :: 0 <= i < 16 ==> es[i] == Entry(from + i, [RowPointer(9, from + i)])
  {
    seq(16, i requires 0 <= i < 16 => Entry(from + i, [RowPointer(9, from + i)]))
  }

  function SampleLeaves(): (LeafPage, LeafPage) {
    (LeafPage(0, SampleEntries(0), 1), LeafPage(1, SampleEntries(16), NO_PAGE))
  }

  function SampleTree(): Tree {
    var (a, b) := SampleLeaves();
    Branch(2, [16], [Leaf(a), Leaf(b)])
  }

  function SamplePages(): seq<PageData> {
    var (a, b) := SampleLeaves();
    [NodePage(NodeOf(Leaf(a))), NodePage(NodeOf(Leaf(b))), NodePage(NodeOf(SampleTree()))]
  }

  lemma SampleInv()
    ensures TreeInv(SamplePages(), 2, SampleTree(), 1, 0, 100)
  {
    var (a, b) := SampleLeaves();
    var t, s := SampleTree(), SamplePages();
    TwoLeafRun(a, b);
    LeafRun(a);
    LeafRun(b);
    assert Cell(Leaf(a), 0, 0, 16) && Cell(Leaf(b), 0, 16, 100);
    assert WFKids([16], [Leaf(a), Leaf(b)], 0, 0, 100);
    assert Rep(s, Leaf(a)) && Rep(s, Leaf(b)) by { hide SampleEntries, NodeOf; }
    hide SampleEntries, NodeOf;
    assert Leaves(t) == [a, b];
    assert ChainedAt([a, b], 0, NO_PAGE) && ChainedAt([a, b], 1, NO_PAGE);
    assert Ids(t) == multiset{2} + multiset{0, 1};
  }

  /** 32 keys in two leaves under one root: deleting any of them takes the root away, and from the old root page the
      deleted pointer is still found exactly when it was in the right leaf. */
  lemma RootLossExample(k: nat)
    requires k < 32
    ensures TreeInv(SamplePages(), 2, SampleTree(), 1, 0, 100)
    ensures RootShrinks(SampleTree(), k, RowPointer(9, k)) && Lookup(Contents(Entries(SampleTree())), k) == [RowPointer(9, k)]
    ensures RightOfAll(SampleTree(), k) <==> k >= 16
  {
    SampleInv();
    SampleBrink(k);
    hide SampleTree, SamplePages, OnTheBrink, Contents, Entries;
    BrinkList(SampleTree(), 1, 0, 100, k, RowPointer(9, k), true);
  }

  lemma SampleBrink(k: nat)
    requires k < 32
    ensures SampleTree().Branch? && OnTheBrink(SampleTree(), k, RowPointer(9, k), true)
    ensures RightOfAll(SampleTree(), k) <==> k >= 16
  {
    var (a, b) := SampleLeaves();
    var n := if k < 16 then 0 else 1;
    BisectRightIs([16], k, n);
    var l := if k < 16 then a else b;
    assert l.es[k % 16] == Entry(k, [RowPointer(9, k)]);
    assert RunsShort(l, k, RowPointer(9, k));
  }
}
