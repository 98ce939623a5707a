/** The four ways to repair a branch that is one key short. */
module BranchRepair {
  import opened Storage
  import opened TreeModel
  import opened TreePath
  import opened TreeShrink
  import opened TreeRepair

  lemma LeftBranch(s: seq<PageData>, root: PageId, fs: Ctx, t: Tree, h: nat, lo: int, hi: int)
    requires fs.In? && t.Branch? && Open(s, root, fs, t, h, lo, hi) && fs.f.l != []
    ensures Last(fs.f.l).Branch? && fs.f.kl != [] && h > 0
    ensures var a := Last(fs.f.l);
      && MIN_KEYS <= |a.seps| <= MAX_KEYS && |a.kids| == |a.seps| + 1 && |t.kids| == |t.seps| + 1
      && a.bid < |s| && t.bid < |s| && fs.f.id < |s| && a.bid != t.bid
      && RepAll(s, a.kids) && RepAll(s, t.kids)
      && |fs.f.kl| == |fs.f.l| && |fs.f.kr| == |fs.f.r| && |fs.f.kl| + |fs.f.kr| <= MAX_KEYS
  {
    LeftPair(s, root, fs, t, h, lo, hi);
    var g := GroupsOf(fs.f, t, 1, 0);
    PairShape(g.ks, Last(fs.f.l), t, h, GapLow(g.kl, HoleLow(fs.up, lo)), GapHigh(g.kr, HoleHigh(fs.up, hi)));
  }

  lemma RightBranch(s: seq<PageData>, root: PageId, fs: Ctx, t: Tree, h: nat, lo: int, hi: int)
    requires fs.In? && t.Branch? && Open(s, root, fs, t, h, lo, hi) && fs.f.r != []
    ensures fs.f.r[0].Branch? && fs.f.kr != [] && h > 0
    ensures var b := fs.f.r[0];
      && MIN_KEYS <= |b.seps| <= MAX_KEYS && |b.kids| == |b.seps| + 1 && |t.kids| == |t.seps| + 1
      && b.bid < |s| && t.bid < |s| && fs.f.id < |s| && b.bid != t.bid
      && RepAll(s, b.kids) && RepAll(s, t.kids)
      && |fs.f.kl| == |fs.f.l| && |fs.f.kr| == |fs.f.r| && |fs.f.kl| + |fs.f.kr| <= MAX_KEYS
  {
    RightPair(s, root, fs, t, h, lo, hi);
    var g := GroupsOf(fs.f, t, 0, 1);
    PairShape(g.ks, t, fs.f.r[0], h, GapLow(g.kl, HoleLow(fs.up, lo)), GapHigh(g.kr, HoleHigh(fs.up, hi)));
  }

  lemma PairShape(ks: seq<int>, a: Tree, b: Tree, h: nat, lo: int, hi: int)
    requires WFKids(ks, [a, b], h, lo, hi)
    ensures a.Branch? ==> |a.kids| == |a.seps| + 1
    ensures b.Branch? ==> |b.kids| == |b.seps| + 1
  {
    assert Cell([a, b][0], h, LowBound(ks, lo, 0), HighBound(ks, hi, 0));
    assert Cell([a, b][1], h, LowBound(ks, lo, 1), HighBound(ks, hi, 1));
    CellShape(a, h, LowBound(ks, lo, 0), HighBound(ks, hi, 0));
    CellShape(b, h, LowBound(ks, lo, 1), HighBound(ks, hi, 1));
  }

  /** The last child of `a` moves to the front of `b`; separators rotate through the parent. */
  lemma MoveLast(a: Tree, b: Tree, m: int)
    requires a.Branch? && b.Branch? && |a.kids| == |a.seps| + 1 && |b.kids| == |b.seps| + 1 && a.seps != []
    ensures var n := |a.seps| - 1; var (a', b') := Shared(a, b, m, n); var na, nb := NodeOf(a), NodeOf(b);
      && (a.seps + [m] + b.seps)[n] == na.keys[n]
      && NodeOf(a') == na.(keys := na.keys[..n], children := na.children[..n + 1])
      && NodeOf(b') == nb.(keys := [m] + nb.keys, children := [na.children[n + 1]] + nb.children)
  {
    var n := |a.seps| - 1;
    var (a', b') := Shared(a, b, m, n);
    var kk, tt := a.seps + [m] + b.seps, a.kids + b.kids;
    assert kk[..n] == a.seps[..n] && kk[n + 1..] == [m] + b.seps;
    assert tt[..n + 1] == a.kids[..n + 1] && tt[n + 1..] == [a.kids[n + 1]] + b.kids;
    assert TreeIds(a.kids[..n + 1]) == TreeIds(a.kids)[..n + 1];
    assert TreeIds([a.kids[n + 1]] + b.kids) == [a.kids[n + 1].Id()] + TreeIds(b.kids);
  }

  /** The first child of `b` moves to the end of `a`. */
  lemma MoveFirst(a: Tree, b: Tree, m: int)
    requires a.Branch? && b.Branch? && |a.kids| == |a.seps| + 1 && |b.kids| == |b.seps| + 1 && b.seps != []
    ensures var n := |a.seps| + 1; var (a', b') := Shared(a, b, m, n); var na, nb := NodeOf(a), NodeOf(b);
      && (a.seps + [m] + b.seps)[n] == nb.keys[0]
      && NodeOf(a') == na.(keys := na.keys + [m], children := na.children + [nb.children[0]])
      && NodeOf(b') == nb.(keys := nb.keys[1..], children := nb.children[1..])
  {
    var n := |a.seps| + 1;
    var (a', b') := Shared(a, b, m, n);
    var kk, tt := a.seps + [m] + b.seps, a.kids + b.kids;
    assert kk[..n] == a.seps + [m] && kk[n + 1..] == b.seps[1..];
    assert tt[..n + 1] == a.kids + [b.kids[0]] && tt[n + 1..] == b.kids[1..];
    assert TreeIds(a.kids + [b.kids[0]]) == TreeIds(a.kids) + [b.kids[0].Id()];
    assert TreeIds(b.kids[1..]) == TreeIds(b.kids)[1..];
  }

  lemma BorrowLeft(s: seq<PageData>, s2: seq<PageData>, root: PageId, fs: Ctx, t: Tree, h: nat, lo: int, hi: int,
                   left: Node, node: Node, parent: Node)
    returns (t': Tree, h': nat)
    requires fs.In? && t.Branch? && Open(s, root, fs, t, h, lo, hi) && t.Size() == MIN_KEYS - 1
    requires fs.f.l != [] && Last(fs.f.l).Size() > MIN_KEYS
    requires var l, c, p := NodeOf(Last(fs.f.l)), NodeOf(t), FrameNode(fs.f, t.bid); var n := |l.keys| - 1;
      && |l.children| == |l.keys| + 1 && 0 < |fs.f.l| <= |p.keys|
      && left == l.(keys := l.keys[..n], children := l.children[..n + 1])
      && node == c.(keys := [p.keys[|fs.f.l| - 1]] + c.keys, children := [l.children[n + 1]] + c.children)
      && parent == p.(keys := p.keys[|fs.f.l| - 1 := l.keys[n]])
    requires Last(fs.f.l).Id() < |s| && t.bid < |s| && fs.f.id < |s|
    requires s2 == s[Last(fs.f.l).Id() := NodePage(left)][t.bid := NodePage(node)][fs.f.id := NodePage(parent)]
    ensures Closed(s, s2, root, t', h', lo, hi, EntriesOf(AllLeaves(fs, t)), CtxIds(fs) + Ids(t))
    ensures Ids(t') == CtxIds(fs) + Ids(t)
  {
    hide Open, Closed, Shares, Ids, IdsOf, CtxIds, AllLeaves, EntriesOf, Plug, CellsLeft, CellsRight, WF, WFKids;
    LeftBranch(s, root, fs, t, h, lo, hi);
    var a, m := Last(fs.f.l), Last(fs.f.kl);
    var n := |a.seps| - 1;
    var (a', b') := Shared(a, t, m, n);
    MoveLast(a, t, m);
    var s1 := s[a.bid := NodePage(left)][t.bid := NodePage(node)];
    BorrowLeftShares(s, s1, root, fs, t, h, lo, hi);
    var m' := a.seps[n];
    t', h' := Plug(fs.up, Replaced(fs.f, t, 1, 0, [m'], [a', b'])), h + 1 + fs.up.Depth();
    ShareCloses(s, s1, s2, root, fs, t, 1, 0, m', a', b', h, lo, hi);
  }

  lemma BorrowLeftShares(s: seq<PageData>, s1: seq<PageData>, root: PageId, fs: Ctx, t: Tree, h: nat, lo: int, hi: int)
    requires fs.In? && t.Branch? && Open(s, root, fs, t, h, lo, hi) && t.Size() == MIN_KEYS - 1
    requires fs.f.l != [] && Last(fs.f.l).Branch? && |Last(fs.f.l).seps| > MIN_KEYS && fs.f.kl != []
    requires |Last(fs.f.l).kids| == |Last(fs.f.l).seps| + 1 && |t.kids| == |t.seps| + 1
    requires Last(fs.f.l).bid < |s| && t.bid < |s|
    requires |fs.f.kl| == |fs.f.l| && |fs.f.kr| == |fs.f.r|
    requires var a := Last(fs.f.l); var (a', b') := Shared(a, t, Last(fs.f.kl), |a.seps| - 1);
      s1 == s[a.bid := NodePage(NodeOf(a'))][t.bid := NodePage(NodeOf(b'))]
    ensures var a := Last(fs.f.l); var (a', b') := Shared(a, t, Last(fs.f.kl), |a.seps| - 1);
      Shares(s, s1, root, fs, t, 1, 0, a.seps[|a.seps| - 1], a', b', h, lo, hi)
  {
    hide Open, Replaces;
    LeftPair(s, root, fs, t, h, lo, hi);
    LeftBranch(s, root, fs, t, h, lo, hi);
    var a, m, g := Last(fs.f.l), Last(fs.f.kl), GroupsOf(fs.f, t, 1, 0);
    assert (a.seps + [m] + t.seps)[|a.seps| - 1] == a.seps[|a.seps| - 1];
    BranchShare(s, s1, a, t, m, |a.seps| - 1, h, GapLow(g.kl, HoleLow(fs.up, lo)), GapHigh(g.kr, HoleHigh(fs.up, hi)));
  }

  lemma BorrowRight(s: seq<PageData>, s2: seq<PageData>, root: PageId, fs: Ctx, t: Tree, h: nat, lo: int, hi: int,
                    node: Node, right: Node, parent: Node)
    returns (t': Tree, h': nat)
    requires fs.In? && t.Branch? && Open(s, root, fs, t, h, lo, hi) && t.Size() == MIN_KEYS - 1
    requires fs.f.r != [] && fs.f.r[0].Size() > MIN_KEYS
    requires var c, r, p := NodeOf(t), NodeOf(fs.f.r[0]), FrameNode(fs.f, t.bid);
      && |r.children| == |r.keys| + 1 && |fs.f.l| < |p.keys|
      && node == c.(keys := c.keys + [p.keys[|fs.f.l|]], children := c.children + [r.children[0]])
      && right == r.(keys := r.keys[1..], children := r.children[1..])
      && parent == p.(keys := p.keys[|fs.f.l| := r.keys[0]])
    requires fs.f.r[0].Id() < |s| && t.bid < |s| && fs.f.id < |s|
    requires s2 == s[fs.f.r[0].Id() := NodePage(right)][t.bid := NodePage(node)][fs.f.id := NodePage(parent)]
    ensures Closed(s, s2, root, t', h', lo, hi, EntriesOf(AllLeaves(fs, t)), CtxIds(fs) + Ids(t))
    ensures Ids(t') == CtxIds(fs) + Ids(t)
  {
    hide Open, Closed, Shares, Ids, IdsOf, CtxIds, AllLeaves, EntriesOf, Plug, CellsLeft, CellsRight, WF, WFKids;
    RightBranch(s, root, fs, t, h, lo, hi);
    var b, m := fs.f.r[0], fs.f.kr[0];
    var (a', b') := Shared(t, b, m, |t.seps| + 1);
    MoveFirst(t, b, m);
    var s1 := s[b.bid := NodePage(right)][t.bid := NodePage(node)];
    BorrowRightShares(s, s1, root, fs, t, h, lo, hi);
    var m' := b.seps[0];
    t', h' := Plug(fs.up, Replaced(fs.f, t, 0, 1, [m'], [a', b'])), h + 1 + fs.up.Depth();
    ShareCloses(s, s1, s2, root, fs, t, 0, 1, m', a', b', h, lo, hi);
  }

  lemma BorrowRightShares(s: seq<PageData>, s1: seq<PageData>, root: PageId, fs: Ctx, t: Tree, h: nat, lo: int, hi: int)
    requires fs.In? && t.Branch? && Open(s, root, fs, t, h, lo, hi) && t.Size() == MIN_KEYS - 1
    requires fs.f.r != [] && fs.f.r[0].Branch? && |fs.f.r[0].seps| > MIN_KEYS && fs.f.kr != []
    requires |fs.f.r[0].kids| == |fs.f.r[0].seps| + 1 && |t.kids| == |t.seps| + 1
    requires fs.f.r[0].bid < |s| && t.bid < |s|
    requires |fs.f.kl| == |fs.f.l| && |fs.f.kr| == |fs.f.r|
    requires var b := fs.f.r[0]; var (a', b') := Shared(t, b, fs.f.kr[0], |t.seps| + 1);
      s1 == s[b.bid := NodePage(NodeOf(b'))][t.bid := NodePage(NodeOf(a'))]
    ensures var b := fs.f.r[0]; var (a', b') := Shared(t, b, fs.f.kr[0], |t.seps| + 1);
      Shares(s, s1, root, fs, t, 0, 1, b.seps[0], a', b', h, lo, hi)
  {
    hide Open, Replaces;
    RightPair(s, root, fs, t, h, lo, hi);
    RightBranch(s, root, fs, t, h, lo, hi);
    var b, m, g := fs.f.r[0], fs.f.kr[0], GroupsOf(fs.f, t, 0, 1);
    assert (t.seps + [m] + b.seps)[|t.seps| + 1] == b.seps[0];
    BranchShare(s, s1, t, b, m, |t.seps| + 1, h, GapLow(g.kl, HoleLow(fs.up, lo)), GapHigh(g.kr, HoleHigh(fs.up, hi)));
  }

  lemma MergeLeft(s: seq<PageData>, s1: seq<PageData>, root: PageId, fs: Ctx, t: Tree, h: nat, lo: int, hi: int, left: Node)
    returns (pt: Tree)
    requires fs.In? && t.Branch? && Open(s, root, fs, t, h, lo, hi) && t.Size() == MIN_KEYS - 1
    requires fs.f.l != [] && Last(fs.f.l).Size() == MIN_KEYS
    requires var l, c, p := NodeOf(Last(fs.f.l)), NodeOf(t), FrameNode(fs.f, t.bid);
      && 0 < |fs.f.l| <= |p.keys|
      && left == l.(keys := l.keys + [p.keys[|fs.f.l| - 1]] + c.keys, children := l.children + c.children)
    requires Last(fs.f.l).Id() < |s| && s1 == s[Last(fs.f.l).Id() := NodePage(left)]
    ensures Merged(s, s1, root, fs, t, pt, h, lo, hi)
    ensures fs.f.kl != [] && left == NodeOf(Fuse(Last(fs.f.l), Last(fs.f.kl), t)) && pt == Pooled(fs.f, t)
    ensures pt.Branch? && pt.bid == fs.f.id
    ensures var p := FrameNode(fs.f, t.bid); var i := |fs.f.l| - 1;
      && i + 1 < |p.children| && i < |p.keys|
      && NodeOf(pt) == p.(keys := p.keys[..i] + p.keys[i + 1..], children := p.children[..i + 1] + p.children[i + 2..])
  {
    hide Open, Closed, Merged, Replaces, Shares, Ids, CtxIds, AllLeaves, EntriesOf, CellsLeft, CellsRight, WF, WFKids;
    LeftBranch(s, root, fs, t, h, lo, hi);
    var a, m := Last(fs.f.l), Last(fs.f.kl);
    var c := Branch(a.bid, a.seps + [m] + t.seps, a.kids + t.kids);
    assert TreeIds(a.kids + t.kids) == TreeIds(a.kids) + TreeIds(t.kids);
    MergeLeftReplaces(s, s1, root, fs, t, c, h, lo, hi);
    Written(s, s1, a.bid, NodePage(left), multiset{a.bid});
    IdsConcat(a.kids, t.kids);
    MergeOpens(s, s1, root, fs, t, 1, 0, c, h, lo, hi);
    pt := Replaced(fs.f, t, 1, 0, [], [c]);
  }

  lemma MergeLeftReplaces(s: seq<PageData>, s1: seq<PageData>, root: PageId, fs: Ctx, t: Tree, c: Tree, h: nat, lo: int, hi: int)
    requires fs.In? && t.Branch? && Open(s, root, fs, t, h, lo, hi) && t.Size() == MIN_KEYS - 1
    requires fs.f.l != [] && Last(fs.f.l).Branch? && |Last(fs.f.l).seps| == MIN_KEYS && fs.f.kl != []
    requires |fs.f.kl| == |fs.f.l| && |fs.f.kr| == |fs.f.r|
    requires var a := Last(fs.f.l); c == Branch(a.bid, a.seps + [Last(fs.f.kl)] + t.seps, a.kids + t.kids)
    requires c.bid < |s| && s1 == s[c.bid := NodePage(NodeOf(c))]
    ensures var g := GroupsOf(fs.f, t, 1, 0);
      && c.bid == g.ts[0].Id()
      && Replaces(s, s1, g.ks, g.ts, [], [c], h, GapLow(g.kl, HoleLow(fs.up, lo)), GapHigh(g.kr, HoleHigh(fs.up, hi)))
  {
    hide Open, Replaces;
    LeftPair(s, root, fs, t, h, lo, hi);
    LeftBranch(s, root, fs, t, h, lo, hi);
    var g := GroupsOf(fs.f, t, 1, 0);
    BranchMerge(s, s1, Last(fs.f.l), t, c, Last(fs.f.kl), h, GapLow(g.kl, HoleLow(fs.up, lo)), GapHigh(g.kr, HoleHigh(fs.up, hi)));
  }

  lemma MergeRight(s: seq<PageData>, s1: seq<PageData>, root: PageId, fs: Ctx, t: Tree, h: nat, lo: int, hi: int, node: Node)
    returns (pt: Tree)
    requires fs.In? && t.Branch? && Open(s, root, fs, t, h, lo, hi) && t.Size() == MIN_KEYS - 1
    requires fs.f.l == [] && fs.f.r != [] && fs.f.r[0].Size() == MIN_KEYS
    requires var c, r, p := NodeOf(t), NodeOf(fs.f.r[0]), FrameNode(fs.f, t.bid);
      && |fs.f.l| < |p.keys|
      && node == c.(keys := c.keys + [p.keys[|fs.f.l|]] + r.keys, children := c.children + r.children)
    requires t.bid < |s| && s1 == s[t.bid := NodePage(node)]
    ensures Merged(s, s1, root, fs, t, pt, h, lo, hi)
    ensures fs.f.kr != [] && node == NodeOf(Fuse(t, fs.f.kr[0], fs.f.r[0])) && pt == Pooled(fs.f, t)
    ensures pt.Branch? && pt.bid == fs.f.id
    ensures var p := FrameNode(fs.f, t.bid); var i := |fs.f.l|;
      && i + 1 < |p.children| && i < |p.keys|
      && NodeOf(pt) == p.(keys := p.keys[..i] + p.keys[i + 1..], children := p.children[..i + 1] + p.children[i + 2..])
  {
    hide Open, Closed, Merged, Replaces, Shares, Ids, CtxIds, AllLeaves, EntriesOf, CellsLeft, CellsRight, WF, WFKids;
    RightBranch(s, root, fs, t, h, lo, hi);
    var b, m := fs.f.r[0], fs.f.kr[0];
    var c := Branch(t.bid, t.seps + [m] + b.seps, t.kids + b.kids);
    assert TreeIds(t.kids + b.kids) == TreeIds(t.kids) + TreeIds(b.kids);
    MergeRightReplaces(s, s1, root, fs, t, c, h, lo, hi);
    Written(s, s1, t.bid, NodePage(node), multiset{t.bid});
    IdsConcat(t.kids, b.kids);
    MergeOpens(s, s1, root, fs, t, 0, 1, c, h, lo, hi);
    pt := Replaced(fs.f, t, 0, 1, [], [c]);
  }

  lemma MergeRightReplaces(s: seq<PageData>, s1: seq<PageData>, root: PageId, fs: Ctx, t: Tree, c: Tree, h: nat, lo: int, hi: int)
    requires fs.In? && t.Branch? && Open(s, root, fs, t, h, lo, hi) && t.Size() == MIN_KEYS - 1
    requires fs.f.r != [] && fs.f.r[0].Branch? && |fs.f.r[0].seps| == MIN_KEYS && fs.f.kr != []
    requires |fs.f.kl| == |fs.f.l| && |fs.f.kr| == |fs.f.r|
    requires c == Branch(t.bid, t.seps + [fs.f.kr[0]] + fs.f.r[0].seps, t.kids + fs.f.r[0].kids)
    requires c.bid < |s| && s1 == s[c.bid := NodePage(NodeOf(c))]
    ensures var g := GroupsOf(fs.f, t, 0, 1);
      && c.bid == g.ts[0].Id()
      && Replaces(s, s1, g.ks, g.ts, [], [c], h, GapLow(g.kl, HoleLow(fs.up, lo)), GapHigh(g.kr, HoleHigh(fs.up, hi)))
  {
    hide Open, Replaces;
    RightPair(s, root, fs, t, h, lo, hi);
    RightBranch(s, root, fs, t, h, lo, hi);
    var g := GroupsOf(fs.f, t, 0, 1);
    BranchMerge(s, s1, t, fs.f.r[0], c, fs.f.kr[0], h, GapLow(g.kl, HoleLow(fs.up, lo)), GapHigh(g.kr, HoleHigh(fs.up, hi)));
  }
}
