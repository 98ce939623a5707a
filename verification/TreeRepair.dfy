/** Two neighbouring nodes share or pool their keys. */
module TreeRepair {
  import opened Storage
  import opened EntryList
  import opened TreeModel
  import opened TreePath
  import opened TreeGrowth
  import opened TreeShrink

  /** In `s'` the page `id` holds the top of `t`. */
  ghost predicate Holds(s: seq<PageData>, t: Tree) {
    t.Id() < |s| && s[t.Id()] == NodePage(NodeOf(t))
  }

  // ---------- Leaves ----------

  lemma LeafPairEntries(a: LeafPage, b: LeafPage, m: int, lo: int, hi: int)
    requires WFKids([m], [Leaf(a), Leaf(b)], 0, lo, hi)
    ensures lo < hi && Sorted(a.es + b.es) && Within(a.es + b.es, lo, hi) && NoneEmpty(a.es + b.es)
  {
    EntriesKidsWF([m], [Leaf(a), Leaf(b)], 0, lo, hi);
    SepsSorted([m], [Leaf(a), Leaf(b)], 0, lo, hi);
    TwoLeafRun(a, b);
  }

  lemma LeafPairLeaves(a: LeafPage, b: LeafPage, a': LeafPage, b': LeafPage)
    requires a'.id == a.id && b'.id == b.id && a'.next == a.next && b'.next == b.next
    requires a'.es + b'.es == a.es + b.es
    ensures SameLeaves(LeavesOf([Leaf(a), Leaf(b)]), LeavesOf([Leaf(a'), Leaf(b')]))
    ensures IdsOf([Leaf(a'), Leaf(b')]) == IdsOf([Leaf(a), Leaf(b)])
  {
    TwoLeafRun(a, b);
    TwoLeafRun(a', b');
    forall after | Chain([a, b], after) ensures Chain([a', b'], after) {
      assert ChainedAt([a, b], 0, after) && ChainedAt([a, b], 1, after);
    }
  }

  /** Two leaves share their entries anew. */
  lemma LeafShare(s: seq<PageData>, s': seq<PageData>, a: LeafPage, b: LeafPage, a': LeafPage, b': LeafPage, m: int, lo: int, hi: int)
    requires WFKids([m], [Leaf(a), Leaf(b)], 0, lo, hi)
    requires a'.id == a.id && b'.id == b.id && a'.next == a.next && b'.next == b.next
    requires a'.es + b'.es == a.es + b.es
    requires MIN_KEYS <= |a'.es| <= MAX_KEYS && MIN_KEYS <= |b'.es| <= MAX_KEYS
    requires Holds(s', Leaf(a')) && Holds(s', Leaf(b'))
    requires |s'| == |s| && Untouched(s, s', multiset{a.id, b.id})
    ensures Replaces(s, s', [m], [Leaf(a), Leaf(b)], [b'.es[0].key], [Leaf(a'), Leaf(b')], 0, lo, hi)
    ensures IdsOf([Leaf(a'), Leaf(b')]) == IdsOf([Leaf(a), Leaf(b)])
  {
    LeafPairEntries(a, b, m, lo, hi);
    LeafDivide(a', b', lo, hi);
    LeafPairLeaves(a, b, a', b');
    TwoLeafRun(a, b);
  }

  lemma LeafMergeLeaves(a: LeafPage, b: LeafPage)
    ensures var c := LeafPage(a.id, a.es + b.es, b.next);
      && SameLeaves(LeavesOf([Leaf(a), Leaf(b)]), LeavesOf([Leaf(c)]))
      && IdsOf([Leaf(c)]) <= IdsOf([Leaf(a), Leaf(b)])
  {
    var c := LeafPage(a.id, a.es + b.es, b.next);
    TwoLeafRun(a, b);
    LeafRun(c);
    forall after | Chain([a, b], after) ensures Chain([c], after) {
      assert ChainedAt([a, b], 1, after);
    }
  }

  /** Two leaves become one; the right page is given up. */
  lemma LeafMerge(s: seq<PageData>, s': seq<PageData>, a: LeafPage, b: LeafPage, m: int, lo: int, hi: int)
    requires WFKids([m], [Leaf(a), Leaf(b)], 0, lo, hi)
    requires MIN_KEYS <= |a.es| + |b.es| <= MAX_KEYS
    requires Holds(s', Leaf(LeafPage(a.id, a.es + b.es, b.next)))
    requires |s'| == |s| && Untouched(s, s', multiset{a.id, b.id})
    ensures Replaces(s, s', [m], [Leaf(a), Leaf(b)], [], [Leaf(LeafPage(a.id, a.es + b.es, b.next))], 0, lo, hi)
  {
    LeafPairEntries(a, b, m, lo, hi);
    LeafMergeLeaves(a, b);
    TwoLeafRun(a, b);
  }

  // ---------- Branches ----------

  lemma PairParts(a: Tree, b: Tree)
    requires a.Branch? && b.Branch?
    ensures LeavesOf([a, b]) == LeavesOf(a.kids + b.kids)
    ensures IdsOf([a, b]) == multiset{a.bid, b.bid} + IdsOf(a.kids + b.kids)
  {
    assert [a, b] == [a] + [b];
    LeavesConcat([a], [b]);
    LeavesSingle(a);
    LeavesSingle(b);
    LeavesConcat(a.kids, b.kids);
    SplitIds(a, b);
  }

  lemma PairRun(a: Tree, b: Tree, m: int, h: nat, lo: int, hi: int)
    requires a.Branch? && b.Branch? && h > 0
    requires WFKids([m], [a, b], h, lo, hi)
    ensures WFKids(a.seps + [m] + b.seps, a.kids + b.kids, h - 1, lo, hi)
    ensures AllFull(a.kids + b.kids)
  {
    assert Cell([a, b][0], h, LowBound([m], lo, 0), HighBound([m], hi, 0));
    assert Cell([a, b][1], h, LowBound([m], lo, 1), HighBound([m], hi, 1));
    assert WF(a, h, lo, m) && WF(b, h, m, hi);
    RunsMerge(a.seps, a.kids, m, b.seps, b.kids, h - 1, lo, hi);
  }

  lemma KidsKept(s: seq<PageData>, s': seq<PageData>, a: Tree, b: Tree)
    requires a.Branch? && b.Branch? && RepAll(s, a.kids) && RepAll(s, b.kids)
    requires Distinct(IdsOf([a, b]))
    requires |s'| == |s| && Untouched(s, s', multiset{a.bid, b.bid})
    ensures RepAll(s', a.kids + b.kids)
  {
    PairParts(a, b);
    RepAllOutside(s, s', a.kids + b.kids, multiset{a.bid, b.bid});
  }

  lemma PairUntouched(s: seq<PageData>, s': seq<PageData>, a: Tree, b: Tree)
    requires a.Branch? && b.Branch?
    requires Untouched(s, s', multiset{a.bid, b.bid})
    ensures Untouched(s, s', IdsOf([a, b]))
  {
    PairParts(a, b);
  }

  lemma KidLeavesNonEmpty(ks: seq<int>, ts: seq<Tree>, h: nat, lo: int, hi: int)
    requires WFKids(ks, ts, h, lo, hi)
    ensures LeavesOf(ts) != []
  {
    assert Cell(ts[0], h, LowBound(ks, lo, 0), HighBound(ks, hi, 0));
    LeavesNonEmpty(ts[0], h, lo, HighBound(ks, hi, 0));
  }

  /** Two branches that share the keys and children of `a` and `b`, cut at position `p`. */
  function Shared(a: Tree, b: Tree, m: int, p: nat): (Tree, Tree)
    requires a.Branch? && b.Branch? && p < |a.seps| + 1 + |b.seps|
    requires |a.kids| == |a.seps| + 1 && |b.kids| == |b.seps| + 1
  {
    BranchPair(a.bid, b.bid, a.seps + [m] + b.seps, a.kids + b.kids, p)
  }

  function BranchPair(ida: PageId, idb: PageId, kk: seq<int>, tt: seq<Tree>, p: nat): (Tree, Tree)
    requires p < |kk| && |tt| == |kk| + 1
  {
    (Branch(ida, kk[..p], tt[..p + 1]), Branch(idb, kk[p + 1..], tt[p + 1..]))
  }

  lemma BranchPairWF(s: seq<PageData>, ida: PageId, idb: PageId, kk: seq<int>, tt: seq<Tree>, p: nat, h: nat, lo: int, hi: int)
    requires h > 0 && WFKids(kk, tt, h - 1, lo, hi) && AllFull(tt) && RepAll(s, tt)
    requires MIN_KEYS <= p <= MAX_KEYS && MIN_KEYS <= |kk| - p - 1 <= MAX_KEYS
    requires var (a, b) := BranchPair(ida, idb, kk, tt, p); Holds(s, a) && Holds(s, b)
    ensures var (a, b) := BranchPair(ida, idb, kk, tt, p);
      WFKids([kk[p]], [a, b], h, lo, hi) && AllFull([a, b]) && RepAll(s, [a, b])
  {
    var (a, b) := BranchPair(ida, idb, kk, tt, p);
    RunsDivide(kk, tt, p, h - 1, lo, hi);
    SepsSorted(kk, tt, h - 1, lo, hi);
    assert Cell(a, h, lo, kk[p]) && Cell(b, h, kk[p], hi);
    assert Rep(s, a) && Rep(s, b);
  }

  lemma BranchPairParts(ida: PageId, idb: PageId, kk: seq<int>, tt: seq<Tree>, p: nat)
    requires p < |kk| && |tt| == |kk| + 1
    ensures var (a, b) := BranchPair(ida, idb, kk, tt, p);
      LeavesOf([a, b]) == LeavesOf(tt) && IdsOf([a, b]) == multiset{ida, idb} + IdsOf(tt)
  {
    var (a, b) := BranchPair(ida, idb, kk, tt, p);
    assert a.kids + b.kids == tt;
    PairParts(a, b);
  }

  /** Two branches share their children anew. */
  lemma BranchShare(s: seq<PageData>, s': seq<PageData>, a: Tree, b: Tree, m: int, p: nat, h: nat, lo: int, hi: int)
    requires a.Branch? && b.Branch? && h > 0
    requires WFKids([m], [a, b], h, lo, hi)
    requires |a.kids| == |a.seps| + 1 && |b.kids| == |b.seps| + 1
    requires MIN_KEYS <= p <= MAX_KEYS && MIN_KEYS <= |a.seps| + |b.seps| - p <= MAX_KEYS
    requires RepAll(s, a.kids) && RepAll(s, b.kids) && Distinct(IdsOf([a, b]))
    requires var (a', b') := Shared(a, b, m, p); Holds(s', a') && Holds(s', b')
    requires |s'| == |s| && Untouched(s, s', multiset{a.bid, b.bid})
    ensures var (a', b') := Shared(a, b, m, p);
      Replaces(s, s', [m], [a, b], [(a.seps + [m] + b.seps)[p]], [a', b'], h, lo, hi) && IdsOf([a', b']) == IdsOf([a, b])
  {
    hide Replaces, WFKids, RepAll, LeavesOf, Leaves, IdsOf, AllFull;
    var kk, tt := a.seps + [m] + b.seps, a.kids + b.kids;
    PairRun(a, b, m, h, lo, hi);
    KidsKept(s, s', a, b);
    BranchPairWF(s', a.bid, b.bid, kk, tt, p, h, lo, hi);
    PairUntouched(s, s', a, b);
    KidLeavesNonEmpty(kk, tt, h - 1, lo, hi);
    var (a', b') := Shared(a, b, m, p);
    PairParts(a, b);
    BranchPairParts(a.bid, b.bid, kk, tt, p);
    PairReplaces(s, s', [m], [a, b], [kk[p]], [a', b'], h, lo, hi);
  }

  lemma PairReplaces(s: seq<PageData>, s': seq<PageData>, ks: seq<int>, ts: seq<Tree>, ks': seq<int>, ts': seq<Tree>, h: nat, lo: int, hi: int)
    requires |s'| == |s| && Untouched(s, s', IdsOf(ts))
    requires WFKids(ks', ts', h, lo, hi) && AllFull(ts') && RepAll(s', ts')
    requires |ks| - 1 <= |ks'| <= |ks|
    requires LeavesOf(ts') == LeavesOf(ts) != [] && IdsOf(ts') <= IdsOf(ts)
    ensures Replaces(s, s', ks, ts, ks', ts', h, lo, hi)
  {
  }

  /** Two branches become one; the right page is given up. */
  lemma BranchMerge(s: seq<PageData>, s': seq<PageData>, a: Tree, b: Tree, c: Tree, m: int, h: nat, lo: int, hi: int)
    requires a.Branch? && b.Branch? && h > 0
    requires WFKids([m], [a, b], h, lo, hi)
    requires MIN_KEYS <= |a.seps| + 1 + |b.seps| <= MAX_KEYS
    requires c == Branch(a.bid, a.seps + [m] + b.seps, a.kids + b.kids)
    requires RepAll(s, a.kids) && RepAll(s, b.kids) && Distinct(IdsOf([a, b]))
    requires Holds(s', c)
    requires |s'| == |s| && Untouched(s, s', multiset{a.bid, b.bid})
    ensures Replaces(s, s', [m], [a, b], [], [c], h, lo, hi)
  {
    hide Replaces, WFKids, RepAll, LeavesOf, Leaves, IdsOf, AllFull;
    BranchMergeWF(s, s', a, b, c, m, h, lo, hi);
    PairParts(a, b);
    PairUntouched(s, s', a, b);
    BranchRun(c);
    KidLeavesNonEmpty(c.seps, c.kids, h - 1, lo, hi);
    PairReplaces(s, s', [m], [a, b], [], [c], h, lo, hi);
  }

  lemma BranchRun(c: Tree)
    requires c.Branch?
    ensures LeavesOf([c]) == LeavesOf(c.kids) && IdsOf([c]) == multiset{c.bid} + IdsOf(c.kids)
  {
    LeavesSingle(c);
    IdsSingle(c);
  }

  lemma BranchMergeWF(s: seq<PageData>, s': seq<PageData>, a: Tree, b: Tree, c: Tree, m: int, h: nat, lo: int, hi: int)
    requires a.Branch? && b.Branch? && h > 0
    requires WFKids([m], [a, b], h, lo, hi)
    requires MIN_KEYS <= |a.seps| + 1 + |b.seps| <= MAX_KEYS
    requires c == Branch(a.bid, a.seps + [m] + b.seps, a.kids + b.kids)
    requires RepAll(s, a.kids) && RepAll(s, b.kids) && Distinct(IdsOf([a, b]))
    requires Holds(s', c)
    requires |s'| == |s| && Untouched(s, s', multiset{a.bid, b.bid})
    ensures WFKids(c.seps, c.kids, h - 1, lo, hi)
    ensures WFKids([], [c], h, lo, hi) && AllFull([c]) && RepAll(s', [c])
  {
    PairRun(a, b, m, h, lo, hi);
    SepsSorted(c.seps, c.kids, h - 1, lo, hi);
    KidsKept(s, s', a, b);
    assert Cell(c, h, lo, hi) && Rep(s', c);
  }

  // ---------- The hole and one neighbour ----------

  function Last<T>(s: seq<T>): T
    requires s != []
  {
    s[|s| - 1]
  }

  lemma CellShape(t: Tree, h: nat, lo: int, hi: int)
    requires Cell(t, h, lo, hi)
    ensures t.Size() <= MAX_KEYS && (t.Leaf? <==> h == 0)
    ensures t.Branch? ==> h > 0 && AllFull(t.kids) && WFKids(t.seps, t.kids, h - 1, lo, hi)
  {
    assert WF(t, h, lo, hi);
  }

  lemma LeftPairCells(f: Frame, t: Tree, h: nat, lo: int, hi: int)
    requires CellsLeft(f.kl, f.l, h, lo) && CellsRight(f.kr, f.r, h, hi)
    requires Cell(t, h, GapLow(f.kl, lo), GapHigh(f.kr, hi))
    requires AllFull(f.l) && AllFull(f.r) && f.l != []
    ensures var a, g := Last(f.l), GroupsOf(f, t, 1, 0);
      && g.ks == [Last(f.kl)] && g.ts == [a, t]
      && WFKids(g.ks, g.ts, h, GapLow(g.kl, lo), GapHigh(g.kr, hi))
    ensures Last(f.l).Full() && Last(f.l).Size() <= MAX_KEYS && (Last(f.l).Leaf? <==> h == 0) && (t.Leaf? <==> h == 0)
  {
    GroupsCells(f, t, 1, 0, h, lo, hi);
    LeftPairGroups(f, t);
    var n := |f.l| - 1;
    CellShape(f.l[n], h, LowBound(f.kl, lo, n), f.kl[n]);
    CellShape(t, h, GapLow(f.kl, lo), GapHigh(f.kr, hi));
  }

  lemma LeftPairGroups(f: Frame, t: Tree)
    requires |f.kl| == |f.l| && |f.kr| == |f.r| && f.l != []
    ensures GroupsOf(f, t, 1, 0).ks == [Last(f.kl)] && GroupsOf(f, t, 1, 0).ts == [Last(f.l), t]
  {
  }

  lemma RightPairGroups(f: Frame, t: Tree)
    requires |f.kl| == |f.l| && |f.kr| == |f.r| && f.r != []
    ensures GroupsOf(f, t, 0, 1).ks == [f.kr[0]] && GroupsOf(f, t, 0, 1).ts == [t, f.r[0]]
  {
  }

  lemma RightPairCells(f: Frame, t: Tree, h: nat, lo: int, hi: int)
    requires CellsLeft(f.kl, f.l, h, lo) && CellsRight(f.kr, f.r, h, hi)
    requires Cell(t, h, GapLow(f.kl, lo), GapHigh(f.kr, hi))
    requires AllFull(f.l) && AllFull(f.r) && f.r != []
    ensures var b, g := f.r[0], GroupsOf(f, t, 0, 1);
      && g.ks == [f.kr[0]] && g.ts == [t, b]
      && WFKids(g.ks, g.ts, h, GapLow(g.kl, lo), GapHigh(g.kr, hi))
    ensures f.r[0].Full() && f.r[0].Size() <= MAX_KEYS && (f.r[0].Leaf? <==> h == 0) && (t.Leaf? <==> h == 0)
  {
    GroupsCells(f, t, 0, 1, h, lo, hi);
    RightPairGroups(f, t);
    CellShape(f.r[0], h, f.kr[0], HighBound(f.kr, hi, 1));
    CellShape(t, h, GapLow(f.kl, lo), GapHigh(f.kr, hi));
  }

  /** The hole and its left neighbour. */
  lemma LeftPair(s: seq<PageData>, root: PageId, fs: Ctx, t: Tree, h: nat, lo: int, hi: int)
    requires fs.In? && Open(s, root, fs, t, h, lo, hi) && fs.f.l != []
    ensures |fs.f.kl| == |fs.f.l| && |fs.f.kr| == |fs.f.r|
    ensures var a, g := Last(fs.f.l), GroupsOf(fs.f, t, 1, 0);
      && g.ks == [Last(fs.f.kl)] && g.ts == [a, t]
      && WFKids(g.ks, g.ts, h, GapLow(g.kl, HoleLow(fs.up, lo)), GapHigh(g.kr, HoleHigh(fs.up, hi)))
      && a.Full() && a.Size() <= MAX_KEYS && (a.Leaf? <==> h == 0) && (t.Leaf? <==> h == 0)
      && Rep(s, a) && Distinct(IdsOf([a, t])) && a.Id() != t.Id()
      && FrameNode(fs.f, t.Id()).children[|fs.f.l| - 1] == a.Id()
  {
    LeftPairCells(fs.f, t, h, HoleLow(fs.up, lo), HoleHigh(fs.up, hi));
    PairDistinct(fs, t, 1, 0, Last(fs.f.l), t);
  }

  /** The hole and its right neighbour. */
  lemma RightPair(s: seq<PageData>, root: PageId, fs: Ctx, t: Tree, h: nat, lo: int, hi: int)
    requires fs.In? && Open(s, root, fs, t, h, lo, hi) && fs.f.r != []
    ensures |fs.f.kl| == |fs.f.l| && |fs.f.kr| == |fs.f.r|
    ensures var b, g := fs.f.r[0], GroupsOf(fs.f, t, 0, 1);
      && g.ks == [fs.f.kr[0]] && g.ts == [t, b]
      && WFKids(g.ks, g.ts, h, GapLow(g.kl, HoleLow(fs.up, lo)), GapHigh(g.kr, HoleHigh(fs.up, hi)))
      && b.Full() && b.Size() <= MAX_KEYS && (b.Leaf? <==> h == 0) && (t.Leaf? <==> h == 0)
      && Rep(s, b) && Distinct(IdsOf([t, b])) && b.Id() != t.Id()
      && FrameNode(fs.f, t.Id()).children[|fs.f.l| + 1] == b.Id()
  {
    RightPairCells(fs.f, t, h, HoleLow(fs.up, lo), HoleHigh(fs.up, hi));
    PairDistinct(fs, t, 0, 1, t, fs.f.r[0]);
  }

  /** The root page is neither in the hole nor next to it. */
  lemma RootElsewhere(s: seq<PageData>, root: PageId, fs: Ctx, t: Tree, h: nat, lo: int, hi: int)
    requires fs.In? && Open(s, root, fs, t, h, lo, hi)
    ensures t.Id() != root
    ensures fs.f.l != [] ==> Last(fs.f.l).Id() != root
    ensures fs.f.r != [] ==> fs.f.r[0].Id() != root
  {
    hide CtxWF, CtxRep, Cell, RepAll, Chain, AllLeaves, Distinct;
    RootApart(fs, t, root);
  }

  lemma RootApart(fs: Ctx, t: Tree, root: PageId)
    requires fs.In? && root == RootId(fs, t.Id()) && Distinct(CtxIds(fs) + Ids(t))
    ensures t.Id() != root
    ensures fs.f.l != [] ==> Last(fs.f.l).Id() != root
    ensures fs.f.r != [] ==> fs.f.r[0].Id() != root
  {
    var f := fs.f;
    var near, far := IdsOf(f.l) + IdsOf(f.r), CtxIds(fs.up) + multiset{f.id};
    assert CtxIds(fs) + Ids(t) == far + near + Ids(t);
    RootAbove(fs, t.Id());
    TopInIds(t);
    hide *;
    Apart(far, near, Ids(t), root);
    NearIds(f.l);
    NearIds(f.r);
  }

  lemma NearIds(ts: seq<Tree>)
    ensures ts != [] ==> Last(ts).Id() in IdsOf(ts) && ts[0].Id() in IdsOf(ts)
  {
    if ts != [] {
      KidIds(ts, |ts| - 1);
      TopInIds(Last(ts));
      TopInIds(ts[0]);
    }
  }

  lemma RootAbove(fs: Ctx, hole: PageId)
    requires fs.In?
    ensures RootId(fs, hole) in CtxIds(fs.up) + multiset{fs.f.id}
  {
    if fs.up.In? {
      RootInCtx(fs.up, fs.f.id);
    }
  }

  lemma FrameRoot(s: seq<PageData>, root: PageId, fs: Ctx, t: Tree, h: nat, lo: int, hi: int)
    requires fs.In? && Open(s, root, fs, t, h, lo, hi)
    ensures root < |s| && (fs.f.id == root <==> fs.up.Top?)
  {
    var f := fs.f;
    var rest := IdsOf(f.l) + IdsOf(f.r) + Ids(t);
    assert CtxIds(fs) + Ids(t) == CtxIds(fs.up) + (multiset{f.id} + rest);
    HoleAtRoot(fs.up, f.id, rest);
    RootStored(s, fs.up, f.id);
  }

  lemma {:induction false} RootStored(s: seq<PageData>, fs: Ctx, hole: PageId)
    requires CtxRep(s, fs, hole) && hole < |s|
    ensures RootId(fs, hole) < |s|
  {
    if fs.In? {
      RootStored(s, fs.up, fs.f.id);
    }
  }

  lemma Apart(a: multiset<PageId>, b: multiset<PageId>, c: multiset<PageId>, x: PageId)
    requires Distinct(a + b + c) && x in a
    ensures x !in b && x !in c
  {
    assert (a + b + c)[x] <= 1;
  }

  lemma PairDistinct(fs: Ctx, t: Tree, i: nat, j: nat, a: Tree, b: Tree)
    requires fs.In? && |fs.f.kl| == |fs.f.l| && |fs.f.kr| == |fs.f.r| && i <= |fs.f.l| && j <= |fs.f.r|
    requires GroupsOf(fs.f, t, i, j).ts == [a, b]
    requires Distinct(CtxIds(fs) + Ids(t))
    ensures Distinct(IdsOf([a, b])) && a.Id() != b.Id()
  {
    ReplaceIds(fs, t, i, j, [], []);
    DistinctSub(IdsOf([a, b]), CtxIds(fs) + Ids(t));
    TwoIds(a, b);
  }

  lemma TwoIds(a: Tree, b: Tree)
    requires Distinct(IdsOf([a, b]))
    ensures a.Id() != b.Id()
  {
    IdsConcat([a], [b]);
    assert [a] + [b] == [a, b];
    IdsSingle(a);
    IdsSingle(b);
    TopInIds(a);
    TopInIds(b);
    assert IdsOf([a, b])[a.Id()] <= 1;
  }

  // ---------- What the parent page sees ----------

  lemma ParentShare(f: Frame, t: Tree, i: nat, j: nat, m: int, a: Tree, b: Tree)
    requires |f.kl| == |f.l| && |f.kr| == |f.r| && i <= |f.l| && j <= |f.r| && i + j == 1
    requires var g := GroupsOf(f, t, i, j); a.Id() == g.ts[0].Id() && b.Id() == g.ts[1].Id()
    ensures var n := FrameNode(f, t.Id());
      NodeOf(Replaced(f, t, i, j, [m], [a, b])) == n.(keys := n.keys[|f.l| - i := m])
  {
    var g := GroupsOf(f, t, i, j);
    GroupsWhole(f, t, i, j);
    GroupIds(f, t, i, j);
    SameIds(g.l, g.ts, [a, b], g.r);
    ReplaceMid(g.kl, g.ks, m, g.kr);
  }

  lemma GroupIds(f: Frame, t: Tree, i: nat, j: nat)
    requires |f.kl| == |f.l| && |f.kr| == |f.r| && i <= |f.l| && j <= |f.r|
    ensures var g := GroupsOf(f, t, i, j); TreeIds(g.l + g.ts + g.r) == FrameNode(f, t.Id()).children
  {
    GroupsWhole(f, t, i, j);
    FillNode(f, t);
  }

  lemma SameIds(l: seq<Tree>, ts: seq<Tree>, ts': seq<Tree>, r: seq<Tree>)
    requires |ts'| == |ts| && forall i :: 0 <= i < |ts| ==> ts'[i].Id() == ts[i].Id()
    ensures TreeIds(l + ts' + r) == TreeIds(l + ts + r)
  {
  }

  lemma ReplaceMid(kl: seq<int>, ks: seq<int>, m: int, kr: seq<int>)
    requires |ks| == 1
    ensures kl + [m] + kr == (kl + ks + kr)[|kl| := m]
  {
  }

  lemma DropMid(kl: seq<int>, ks: seq<int>, kr: seq<int>)
    requires |ks| == 1
    ensures var kk := kl + ks + kr; kl + [] + kr == kk[..|kl|] + kk[|kl| + 1..]
  {
  }

  lemma DropId(l: seq<Tree>, ts: seq<Tree>, c: Tree, r: seq<Tree>)
    requires |ts| == 2 && c.Id() == ts[0].Id()
    ensures var ids := TreeIds(l + ts + r); TreeIds(l + [c] + r) == ids[..|l| + 1] + ids[|l| + 2..]
  {
  }

  lemma ParentMerge(f: Frame, t: Tree, i: nat, j: nat, c: Tree)
    requires |f.kl| == |f.l| && |f.kr| == |f.r| && i <= |f.l| && j <= |f.r| && i + j == 1
    requires c.Id() == GroupsOf(f, t, i, j).ts[0].Id()
    ensures var n, p := FrameNode(f, t.Id()), |f.l| - i;
      NodeOf(Replaced(f, t, i, j, [], [c])) ==
        n.(keys := n.keys[..p] + n.keys[p + 1..], children := n.children[..p + 1] + n.children[p + 2..])
    ensures var n, p := FrameNode(f, t.Id()), |f.l| - i; p < |n.keys| && p + 1 < |n.children|
  {
    var g := GroupsOf(f, t, i, j);
    GroupsWhole(f, t, i, j);
    GroupIds(f, t, i, j);
    DropMid(g.kl, g.ks, g.kr);
    DropId(g.l, g.ts, c, g.r);
  }

  // ---------- Closing after a share ----------

  lemma ShareSize(s: seq<PageData>, root: PageId, fs: Ctx, t: Tree, h: nat, lo: int, hi: int, t': Tree)
    requires fs.In? && Open(s, root, fs, t, h, lo, hi) && t'.Branch? && t'.Size() >= |fs.f.kl| + |fs.f.kr|
    ensures if fs.up.Top? then RootOK(t') else t'.Full()
  {
  }

  /** The two nodes `a` and `b` replaced the hole and its neighbour; the parent page got the new separator `m`. */
  ghost predicate Shares(s: seq<PageData>, s1: seq<PageData>, root: PageId, fs: Ctx, t: Tree, i: nat, j: nat,
                         m: int, a: Tree, b: Tree, h: nat, lo: int, hi: int)
  {
    && fs.In? && Open(s, root, fs, t, h, lo, hi)
    && i <= |fs.f.l| && j <= |fs.f.r| && i + j == 1
    && var g := GroupsOf(fs.f, t, i, j);
      && Replaces(s, s1, g.ks, g.ts, [m], [a, b], h, GapLow(g.kl, HoleLow(fs.up, lo)), GapHigh(g.kr, HoleHigh(fs.up, hi)))
      && a.Id() == g.ts[0].Id() && b.Id() == g.ts[1].Id() && IdsOf([a, b]) == IdsOf(g.ts)
  }

  /** The repair below is done; its effect is a new content `pt` for the parent page, yet to be written. */
  ghost predicate Lifted(s: seq<PageData>, s1: seq<PageData>, root: PageId, fs: Ctx, t: Tree, pt: Tree, h: nat, lo: int, hi: int) {
    && fs.In? && pt.Branch? && pt.bid == fs.f.id
    && Open(s1, root, fs.up, pt, h + 1, lo, hi)
    && EntriesOf(AllLeaves(fs.up, pt)) == EntriesOf(AllLeaves(fs, t))
    && CtxIds(fs.up) + Ids(pt) <= CtxIds(fs) + Ids(t)
    && |s1| == |s| && Untouched(s, s1, CtxIds(fs) + Ids(t))
  }

  lemma CloseLifted(s: seq<PageData>, s1: seq<PageData>, s2: seq<PageData>, root: PageId, fs: Ctx, t: Tree, pt: Tree, h: nat, lo: int, hi: int)
    requires Lifted(s, s1, root, fs, t, pt, h, lo, hi)
    requires if fs.up.Top? then RootOK(pt) else pt.Full()
    requires pt.bid < |s1| && s2 == s1[pt.bid := NodePage(NodeOf(pt))]
    ensures Closed(s, s2, root, Plug(fs.up, pt), h + 1 + fs.up.Depth(), lo, hi, EntriesOf(AllLeaves(fs, t)), CtxIds(fs) + Ids(t))
    ensures Ids(Plug(fs.up, pt)) == CtxIds(fs.up) + Ids(pt)
  {
    hide Open, Closed, Untouched, CtxIds, Ids, EntriesOf, AllLeaves;
    Close(s1, s2, root, fs.up, pt, h + 1, lo, hi);
    ClosedMore(s, s1, s2, root, Plug(fs.up, pt), h + 1 + fs.up.Depth(), lo, hi, EntriesOf(AllLeaves(fs, t)),
               CtxIds(fs.up) + Ids(pt), CtxIds(fs) + Ids(t));
  }

  lemma ShareOpens(s: seq<PageData>, s1: seq<PageData>, root: PageId, fs: Ctx, t: Tree, i: nat, j: nat,
                   m: int, a: Tree, b: Tree, h: nat, lo: int, hi: int)
    requires Shares(s, s1, root, fs, t, i, j, m, a, b, h, lo, hi)
    ensures var pt := Replaced(fs.f, t, i, j, [m], [a, b]);
      && Lifted(s, s1, root, fs, t, pt, h, lo, hi)
      && CtxIds(fs.up) + Ids(pt) == CtxIds(fs) + Ids(t)
      && if fs.up.Top? then RootOK(pt) else pt.Full()
  {
    var pt := Replaced(fs.f, t, i, j, [m], [a, b]);
    ReplaceOpen(s, s1, root, fs, t, i, j, [m], [a, b], h, lo, hi);
    ShareSize(s, root, fs, t, h, lo, hi, pt);
  }

  lemma FrameAligned(s: seq<PageData>, root: PageId, fs: Ctx, t: Tree, h: nat, lo: int, hi: int)
    requires fs.In? && Open(s, root, fs, t, h, lo, hi)
    ensures |fs.f.kl| == |fs.f.l| && |fs.f.kr| == |fs.f.r|
  {
  }

  lemma ShareNode(s: seq<PageData>, s1: seq<PageData>, root: PageId, fs: Ctx, t: Tree, i: nat, j: nat,
                  m: int, a: Tree, b: Tree, h: nat, lo: int, hi: int)
    requires Shares(s, s1, root, fs, t, i, j, m, a, b, h, lo, hi)
    ensures fs.In? && i <= |fs.f.l| && |fs.f.kl| == |fs.f.l| && |fs.f.kr| == |fs.f.r| && j <= |fs.f.r|
    ensures var n := FrameNode(fs.f, t.Id()); var pt := Replaced(fs.f, t, i, j, [m], [a, b]);
      && |fs.f.l| - i < |n.keys| && NodeOf(pt) == n.(keys := n.keys[|fs.f.l| - i := m])
      && pt.Branch? && pt.bid == fs.f.id
  {
    FrameAligned(s, root, fs, t, h, lo, hi);
    hide Open, Replaces;
    ParentShare(fs.f, t, i, j, m, a, b);
  }

  lemma ShareCloses(s: seq<PageData>, s1: seq<PageData>, s2: seq<PageData>, root: PageId, fs: Ctx, t: Tree, i: nat, j: nat,
                    m: int, a: Tree, b: Tree, h: nat, lo: int, hi: int)
    requires Shares(s, s1, root, fs, t, i, j, m, a, b, h, lo, hi)
    requires var n := FrameNode(fs.f, t.Id());
      fs.f.id < |s1| && s2 == s1[fs.f.id := NodePage(n.(keys := n.keys[|fs.f.l| - i := m]))]
    ensures Closed(s, s2, root, Plug(fs.up, Replaced(fs.f, t, i, j, [m], [a, b])), h + 1 + fs.up.Depth(), lo, hi,
                   EntriesOf(AllLeaves(fs, t)), CtxIds(fs) + Ids(t))
    ensures Ids(Plug(fs.up, Replaced(fs.f, t, i, j, [m], [a, b]))) == CtxIds(fs) + Ids(t)
  {
    hide Open, Closed, Lifted, Replaces, Shares, FrameNode;
    ShareNode(s, s1, root, fs, t, i, j, m, a, b, h, lo, hi);
    ShareOpens(s, s1, root, fs, t, i, j, m, a, b, h, lo, hi);
    CloseLifted(s, s1, s2, root, fs, t, Replaced(fs.f, t, i, j, [m], [a, b]), h, lo, hi);
  }

  // ---------- Opening the parent after a merge ----------

  /** Two neighbours pooled into one node, on the left page. */
  function Fuse(a: Tree, m: int, b: Tree): Tree {
    if a.Leaf? && b.Leaf? then Leaf(LeafPage(a.leaf.id, a.leaf.es + b.leaf.es, b.leaf.next))
    else if a.Branch? && b.Branch? then Branch(a.bid, a.seps + [m] + b.seps, a.kids + b.kids)
    else a
  }

  /** The parent after the hole was pooled with a neighbour, the left one if there is one. */
  function Pooled(f: Frame, t: Tree): Tree {
    if |f.kl| != |f.l| || |f.kr| != |f.r| then t
    else if f.l != [] then Replaced(f, t, 1, 0, [], [Fuse(Last(f.l), Last(f.kl), t)])
    else if f.r != [] then Replaced(f, t, 0, 1, [], [Fuse(t, f.kr[0], f.r[0])])
    else t
  }

  /** The tree that is left when every level up to the root is pooled. */
  ghost function Melted(fs: Ctx, t: Tree): Tree
    decreases fs
  {
    if fs.In? then Melted(fs.up, Pooled(fs.f, t))
    else if t.Branch? && t.kids != [] then t.kids[0] else t
  }

  /** What a merge leaves for the level above: the parent is open, its page yet to be written; the one page written
      so far is below it, and so are the pages that were below the hole. */
  ghost predicate Merged(s: seq<PageData>, s1: seq<PageData>, root: PageId, fs: Ctx, t: Tree, pt: Tree, h: nat, lo: int, hi: int) {
    && Lifted(s, s1, root, fs, t, pt, h, lo, hi) && pt.Size() == |fs.f.kl| + |fs.f.kr| - 1
    && pt == Pooled(fs.f, t) && Untouched(s, s1, IdsOf(pt.kids)) && (t.Branch? ==> IdsOf(t.kids) <= IdsOf(pt.kids))
  }

  lemma FusedBelow(f: Frame, t: Tree, i: nat, j: nat, c: Tree)
    requires |f.kl| == |f.l| && |f.kr| == |f.r| && i <= |f.l| && j <= |f.r|
    ensures var pt := Replaced(f, t, i, j, [], [c]);
      pt.Branch? && Ids(c) <= IdsOf(pt.kids) && c.Id() in IdsOf(pt.kids) && (c.Branch? ==> IdsOf(c.kids) <= IdsOf(pt.kids))
  {
    var g := GroupsOf(f, t, i, j);
    IdsThree(g.l, [c], g.r);
    IdsSingle(c);
    TopInIds(c);
  }

  lemma MergeOpens(s: seq<PageData>, s1: seq<PageData>, root: PageId, fs: Ctx, t: Tree, i: nat, j: nat, c: Tree, h: nat, lo: int, hi: int)
    requires fs.In? && Open(s, root, fs, t, h, lo, hi)
    requires i <= |fs.f.l| && j <= |fs.f.r| && i + j == 1
    requires var g := GroupsOf(fs.f, t, i, j);
      && Replaces(s, s1, g.ks, g.ts, [], [c], h, GapLow(g.kl, HoleLow(fs.up, lo)), GapHigh(g.kr, HoleHigh(fs.up, hi)))
      && c.Id() == g.ts[0].Id()
    requires Replaced(fs.f, t, i, j, [], [c]) == Pooled(fs.f, t) && Untouched(s, s1, multiset{c.Id()})
    requires t.Branch? ==> c.Branch? && IdsOf(t.kids) <= IdsOf(c.kids)
    ensures Merged(s, s1, root, fs, t, Replaced(fs.f, t, i, j, [], [c]), h, lo, hi)
    ensures var n, p := FrameNode(fs.f, t.Id()), |fs.f.l| - i;
      && p < |n.keys| && p + 1 < |n.children|
      && NodeOf(Replaced(fs.f, t, i, j, [], [c])) ==
        n.(keys := n.keys[..p] + n.keys[p + 1..], children := n.children[..p + 1] + n.children[p + 2..])
  {
    hide Open, Replaces, FrameNode, Untouched, WFKids, CtxIds, Ids, IdsOf, EntriesOf, AllLeaves, HoleLow, HoleHigh;
    FrameAligned(s, root, fs, t, h, lo, hi);
    ReplaceOpen(s, s1, root, fs, t, i, j, [], [c], h, lo, hi);
    ParentMerge(fs.f, t, i, j, c);
    FusedBelow(fs.f, t, i, j, c);
    var below := IdsOf(Replaced(fs.f, t, i, j, [], [c]).kids);
    assert multiset{c.Id()} <= below;
    UntouchedMore(s, s1, multiset{c.Id()}, below);
  }

  // ---------- When does a deletion remove a level? ----------

  /** Neither neighbour of the hole can spare a key. */
  ghost predicate Tight(f: Frame) {
    && (f.l != [] ==> Last(f.l).Size() == MIN_KEYS)
    && (f.r != [] ==> f.r[0].Size() == MIN_KEYS)
  }

  /** One key too few in the hole pulls down every level up to the root. */
  ghost predicate Collapses(fs: Ctx) {
    && fs.In? && Tight(fs.f)
    && if fs.up.Top? then |fs.f.kl| + |fs.f.kr| == 1
       else |fs.f.kl| + |fs.f.kr| == MIN_KEYS && Collapses(fs.up)
  }

  ghost predicate CollapsesAt(fs: Ctx, t: Tree) {
    if fs.Top? then t.Branch? && t.Size() == 0 else t.Size() == MIN_KEYS - 1 && Collapses(fs)
  }

  /** A root branch without keys is replaced by its only child. */
  lemma RootReplaced(s: seq<PageData>, root: PageId, t: Tree, h: nat, lo: int, hi: int)
    requires Open(s, root, Top, t, h, lo, hi) && t.Branch? && t.seps == []
    ensures |t.kids| == 1 && t.kids[0].Id() != root
    ensures h > 0 && Closed(s, s, t.kids[0].Id(), t.kids[0], h - 1, lo, hi, EntriesOf(AllLeaves(Top, t)), CtxIds(Top) + Ids(t))
  {
    CellShape(t, h, lo, hi);
    var c := t.kids[0];
    assert Cell(c, h - 1, LowBound(t.seps, lo, 0), HighBound(t.seps, hi, 0));
    assert t.kids == [c];
    LeavesSingle(c);
    IdsSingle(c);
    TopInIds(c);
    assert AllLeaves(Top, t) == Leaves(c);
    assert CtxIds(Top) + Ids(t) == multiset{t.bid} + Ids(c);
    DistinctSub(Ids(c), multiset{t.bid} + Ids(c));
    assert (multiset{t.bid} + Ids(c))[c.Id()] <= 1;
  }

  /** Plain facts about an open node. */
  lemma OpenRoot(s: seq<PageData>, root: PageId, fs: Ctx, t: Tree, h: nat, lo: int, hi: int)
    requires Open(s, root, fs, t, h, lo, hi)
    ensures t.Id() == root <==> fs.Top?
    ensures t.Id() < |s| && t.Size() <= MAX_KEYS
    ensures t.Branch? ==> h > 0 && |t.kids| == |t.seps| + 1
    ensures fs.In? ==> MIN_KEYS - 1 <= t.Size()
  {
    CellShape(t, h, HoleLow(fs, lo), HoleHigh(fs, hi));
    TopInIds(t);
    var m := multiset{t.Id()};
    assert m <= Ids(t);
    DistinctSub(CtxIds(fs) + (m + multiset{}), CtxIds(fs) + Ids(t));
    HoleAtRoot(fs, t.Id(), multiset{});
  }
}
