/** The four ways to repair a leaf that is one key short. */
module LeafRepair {
  import opened Storage
  import opened EntryList
  import opened TreeModel
  import opened TreePath
  import opened TreeGrowth
  import opened TreeShrink
  import opened TreeRepair

  /** The hole is one of two neighbouring leaves `a`, `b`; they share their entries as `a'`, `b'`. */
  lemma ShareStep(s: seq<PageData>, s1: seq<PageData>, root: PageId, fs: Ctx, lf: LeafPage, i: nat, j: nat,
                  a: LeafPage, b: LeafPage, a': LeafPage, b': LeafPage, lo: int, hi: int)
    requires fs.In? && Open(s, root, fs, Leaf(lf), 0, lo, hi)
    requires |fs.f.kl| == |fs.f.l| && |fs.f.kr| == |fs.f.r| && i <= |fs.f.l| && j <= |fs.f.r| && i + j == 1
    requires var g := GroupsOf(fs.f, Leaf(lf), i, j);
      && |g.ks| == 1 && g.ts == [Leaf(a), Leaf(b)]
      && WFKids(g.ks, g.ts, 0, GapLow(g.kl, HoleLow(fs.up, lo)), GapHigh(g.kr, HoleHigh(fs.up, hi)))
    requires a'.id == a.id && b'.id == b.id && a'.next == a.next && b'.next == b.next
    requires a'.es + b'.es == a.es + b.es
    requires MIN_KEYS <= |a'.es| <= MAX_KEYS && MIN_KEYS <= |b'.es| <= MAX_KEYS
    requires Holds(s1, Leaf(a')) && Holds(s1, Leaf(b'))
    requires |s1| == |s| && Untouched(s, s1, multiset{a.id, b.id})
    ensures Shares(s, s1, root, fs, Leaf(lf), i, j, b'.es[0].key, Leaf(a'), Leaf(b'), 0, lo, hi)
  {
    hide Open, Replaces, WFKids, Untouched, Holds, IdsOf, HoleLow, HoleHigh;
    var g := GroupsOf(fs.f, Leaf(lf), i, j);
    assert g.ks == [g.ks[0]];
    LeafShare(s, s1, a, b, a', b', g.ks[0], GapLow(g.kl, HoleLow(fs.up, lo)), GapHigh(g.kr, HoleHigh(fs.up, hi)));
  }

  /** The leaf in the hole has a left neighbour that is a leaf. */
  lemma LeftLeaf(s: seq<PageData>, root: PageId, fs: Ctx, lf: LeafPage, lo: int, hi: int)
    requires fs.In? && Open(s, root, fs, Leaf(lf), 0, lo, hi) && fs.f.l != []
    ensures Last(fs.f.l).Leaf? && fs.f.kl != []
    ensures var a := Last(fs.f.l).leaf;
      && MIN_KEYS <= |a.es| <= MAX_KEYS && a.id < |s| && lf.id < |s| && fs.f.id < |s| && a.id != lf.id
      && |fs.f.kl| == |fs.f.l| && |fs.f.kr| == |fs.f.r| && |fs.f.kl| + |fs.f.kr| <= MAX_KEYS
  {
    LeftPair(s, root, fs, Leaf(lf), 0, lo, hi);
  }

  lemma RightLeaf(s: seq<PageData>, root: PageId, fs: Ctx, lf: LeafPage, lo: int, hi: int)
    requires fs.In? && Open(s, root, fs, Leaf(lf), 0, lo, hi) && fs.f.r != []
    ensures fs.f.r[0].Leaf? && fs.f.kr != []
    ensures var b := fs.f.r[0].leaf;
      && MIN_KEYS <= |b.es| <= MAX_KEYS && b.id < |s| && lf.id < |s| && fs.f.id < |s| && b.id != lf.id
      && |fs.f.kl| == |fs.f.l| && |fs.f.kr| == |fs.f.r| && |fs.f.kl| + |fs.f.kr| <= MAX_KEYS
  {
    RightPair(s, root, fs, Leaf(lf), 0, lo, hi);
  }

  /** The last entry of `a` moves to the front of `b`. */
  lemma MoveLast(a: LeafPage, b: LeafPage)
    requires a.es != []
    ensures var n := |a.es| - 1;
      var a', b' := LeafPage(a.id, a.es[..n], a.next), LeafPage(b.id, [a.es[n]] + b.es, b.next);
      var na, nb := NodeOf(Leaf(a)), NodeOf(Leaf(b));
      && a'.es + b'.es == a.es + b.es
      && NodeOf(Leaf(a')) == na.(keys := na.keys[..n], values := na.values[..n])
      && NodeOf(Leaf(b')) == nb.(keys := [na.keys[n]] + nb.keys, values := [na.values[n]] + nb.values)
  {
    var n := |a.es| - 1;
    KeysPrefix(a.es, n);
    KeysFirst(a.es[n], b.es);
    LastKey(a.es);
    hide Keys, Vals;
  }

  lemma LastKey(es: seq<Entry>)
    requires es != []
    ensures var n := |es| - 1; Keys(es)[n] == es[n].key && Vals(es)[n] == es[n].ptrs && es[..n] + [es[n]] == es
  {
  }

  lemma KeysFirst(e: Entry, es: seq<Entry>)
    ensures Keys([e] + es) == [e.key] + Keys(es) && Vals([e] + es) == [e.ptrs] + Vals(es)
  {
  }

  /** The first entry of `b` moves to the end of `a`. */
  lemma MoveFirst(a: LeafPage, b: LeafPage)
    requires b.es != []
    ensures
      var a', b' := LeafPage(a.id, a.es + [b.es[0]], a.next), LeafPage(b.id, b.es[1..], b.next);
      var na, nb := NodeOf(Leaf(a)), NodeOf(Leaf(b));
      && a'.es + b'.es == a.es + b.es
      && NodeOf(Leaf(a')) == na.(keys := na.keys + [nb.keys[0]], values := na.values + [nb.values[0]])
      && NodeOf(Leaf(b')) == nb.(keys := nb.keys[1..], values := nb.values[1..])
  {
    KeysSuffix(b.es, 1);
    KeysConcat(a.es, b.es[0], []);
    assert a.es + [b.es[0]] + [] == a.es + [b.es[0]];
    assert Keys(a.es) + [b.es[0].key] + Keys([]) == Keys(a.es) + [b.es[0].key];
    assert Vals(a.es) + [b.es[0].ptrs] + Vals([]) == Vals(a.es) + [b.es[0].ptrs];
  }

  lemma BorrowLeft(s: seq<PageData>, s2: seq<PageData>, root: PageId, fs: Ctx, lf: LeafPage, lo: int, hi: int,
                   left: Node, leaf: Node, parent: Node)
    returns (t': Tree, h': nat)
    requires fs.In? && Open(s, root, fs, Leaf(lf), 0, lo, hi) && |lf.es| == MIN_KEYS - 1
    requires fs.f.l != [] && Last(fs.f.l).Size() > MIN_KEYS
    requires var l, c, p := NodeOf(Last(fs.f.l)), NodeOf(Leaf(lf)), FrameNode(fs.f, lf.id); var n := |l.keys| - 1;
      && |l.values| == |l.keys| && |fs.f.l| <= |p.keys|
      && left == l.(keys := l.keys[..n], values := l.values[..n])
      && leaf == c.(keys := [l.keys[n]] + c.keys, values := [l.values[n]] + c.values)
      && parent == p.(keys := p.keys[|fs.f.l| - 1 := leaf.keys[0]])
    requires Last(fs.f.l).Id() < |s| && fs.f.id < |s|
    requires s2 == s[Last(fs.f.l).Id() := NodePage(left)][lf.id := NodePage(leaf)][fs.f.id := NodePage(parent)]
    ensures Closed(s, s2, root, t', h', lo, hi, EntriesOf(AllLeaves(fs, Leaf(lf))), CtxIds(fs) + Ids(Leaf(lf)))
    ensures Ids(t') == CtxIds(fs) + Ids(Leaf(lf))
  {
    hide Open, Closed, Shares, Ids, IdsOf, CtxIds, AllLeaves, EntriesOf, Plug, CellsLeft, CellsRight, WF, WFKids;
    LeftLeaf(s, root, fs, lf, lo, hi);
    var a := Last(fs.f.l).leaf;
    var n := |a.es| - 1;
    var a', b' := LeafPage(a.id, a.es[..n], a.next), LeafPage(lf.id, [a.es[n]] + lf.es, lf.next);
    MoveLast(a, lf);
    var s1 := s[a.id := NodePage(left)][lf.id := NodePage(leaf)];
    BorrowLeftShares(s, s1, root, fs, lf, a, a', b', lo, hi);
    var m := b'.es[0].key;
    t', h' := Plug(fs.up, Replaced(fs.f, Leaf(lf), 1, 0, [m], [Leaf(a'), Leaf(b')])), 1 + fs.up.Depth();
    assert leaf.keys[0] == m;
    ShareCloses(s, s1, s2, root, fs, Leaf(lf), 1, 0, m, Leaf(a'), Leaf(b'), 0, lo, hi);
  }

  lemma BorrowLeftShares(s: seq<PageData>, s1: seq<PageData>, root: PageId, fs: Ctx, lf: LeafPage, a: LeafPage,
                         a': LeafPage, b': LeafPage, lo: int, hi: int)
    requires fs.In? && Open(s, root, fs, Leaf(lf), 0, lo, hi) && |lf.es| == MIN_KEYS - 1
    requires fs.f.l != [] && Last(fs.f.l) == Leaf(a) && |a.es| > MIN_KEYS
    requires a' == LeafPage(a.id, a.es[..|a.es| - 1], a.next) && b' == LeafPage(lf.id, [a.es[|a.es| - 1]] + lf.es, lf.next)
    requires a.id < |s| && lf.id < |s| && a'.es + b'.es == a.es + lf.es
    requires s1 == s[a.id := NodePage(NodeOf(Leaf(a')))][lf.id := NodePage(NodeOf(Leaf(b')))]
    ensures |fs.f.kl| == |fs.f.l| && |fs.f.kr| == |fs.f.r|
    ensures Shares(s, s1, root, fs, Leaf(lf), 1, 0, b'.es[0].key, Leaf(a'), Leaf(b'), 0, lo, hi)
  {
    hide Open, Shares, WFKids, CellsLeft, CellsRight;
    LeftPair(s, root, fs, Leaf(lf), 0, lo, hi);
    ShareStep(s, s1, root, fs, lf, 1, 0, a, lf, a', b', lo, hi);
  }

  lemma BorrowRight(s: seq<PageData>, s2: seq<PageData>, root: PageId, fs: Ctx, lf: LeafPage, lo: int, hi: int,
                    leaf: Node, right: Node, parent: Node)
    returns (t': Tree, h': nat)
    requires fs.In? && Open(s, root, fs, Leaf(lf), 0, lo, hi) && |lf.es| == MIN_KEYS - 1
    requires fs.f.r != [] && fs.f.r[0].Size() > MIN_KEYS
    requires var c, r, p := NodeOf(Leaf(lf)), NodeOf(fs.f.r[0]), FrameNode(fs.f, lf.id);
      && |r.values| == |r.keys| > 1 && |fs.f.l| < |p.keys|
      && leaf == c.(keys := c.keys + [r.keys[0]], values := c.values + [r.values[0]])
      && right == r.(keys := r.keys[1..], values := r.values[1..])
      && parent == p.(keys := p.keys[|fs.f.l| := right.keys[0]])
    requires fs.f.r[0].Id() < |s| && fs.f.id < |s|
    requires s2 == s[fs.f.r[0].Id() := NodePage(right)][lf.id := NodePage(leaf)][fs.f.id := NodePage(parent)]
    ensures Closed(s, s2, root, t', h', lo, hi, EntriesOf(AllLeaves(fs, Leaf(lf))), CtxIds(fs) + Ids(Leaf(lf)))
    ensures Ids(t') == CtxIds(fs) + Ids(Leaf(lf))
  {
    hide Open, Closed, Shares, Ids, IdsOf, CtxIds, AllLeaves, EntriesOf, Plug, CellsLeft, CellsRight, WF, WFKids;
    RightLeaf(s, root, fs, lf, lo, hi);
    var b := fs.f.r[0].leaf;
    var a', b' := LeafPage(lf.id, lf.es + [b.es[0]], lf.next), LeafPage(b.id, b.es[1..], b.next);
    MoveFirst(lf, b);
    var s1 := s[b.id := NodePage(right)][lf.id := NodePage(leaf)];
    BorrowRightShares(s, s1, root, fs, lf, b, a', b', lo, hi);
    var m := b'.es[0].key;
    t', h' := Plug(fs.up, Replaced(fs.f, Leaf(lf), 0, 1, [m], [Leaf(a'), Leaf(b')])), 1 + fs.up.Depth();
    assert right.keys[0] == m;
    ShareCloses(s, s1, s2, root, fs, Leaf(lf), 0, 1, m, Leaf(a'), Leaf(b'), 0, lo, hi);
  }

  lemma BorrowRightShares(s: seq<PageData>, s1: seq<PageData>, root: PageId, fs: Ctx, lf: LeafPage, b: LeafPage,
                          a': LeafPage, b': LeafPage, lo: int, hi: int)
    requires fs.In? && Open(s, root, fs, Leaf(lf), 0, lo, hi) && |lf.es| == MIN_KEYS - 1
    requires fs.f.r != [] && fs.f.r[0] == Leaf(b) && |b.es| > MIN_KEYS
    requires a' == LeafPage(lf.id, lf.es + [b.es[0]], lf.next) && b' == LeafPage(b.id, b.es[1..], b.next)
    requires b.id < |s| && lf.id < |s| && a'.es + b'.es == lf.es + b.es
    requires s1 == s[b.id := NodePage(NodeOf(Leaf(b')))][lf.id := NodePage(NodeOf(Leaf(a')))]
    ensures |fs.f.kl| == |fs.f.l| && |fs.f.kr| == |fs.f.r|
    ensures Shares(s, s1, root, fs, Leaf(lf), 0, 1, b'.es[0].key, Leaf(a'), Leaf(b'), 0, lo, hi)
  {
    hide Open, Shares, WFKids, CellsLeft, CellsRight;
    RightPair(s, root, fs, Leaf(lf), 0, lo, hi);
    ShareStep(s, s1, root, fs, lf, 0, 1, lf, b, a', b', lo, hi);
  }

  lemma MergeLeft(s: seq<PageData>, s1: seq<PageData>, root: PageId, fs: Ctx, lf: LeafPage, lo: int, hi: int, left: Node)
    returns (pt: Tree)
    requires fs.In? && Open(s, root, fs, Leaf(lf), 0, lo, hi) && |lf.es| == MIN_KEYS - 1
    requires fs.f.l != [] && Last(fs.f.l).Size() == MIN_KEYS
    requires var l, c := NodeOf(Last(fs.f.l)), NodeOf(Leaf(lf));
      left == l.(keys := l.keys + c.keys, values := l.values + c.values, nextLeaf := c.nextLeaf)
    requires Last(fs.f.l).Id() < |s| && s1 == s[Last(fs.f.l).Id() := NodePage(left)]
    ensures Merged(s, s1, root, fs, Leaf(lf), pt, 0, lo, hi)
    ensures fs.f.kl != [] && left == NodeOf(Fuse(Last(fs.f.l), Last(fs.f.kl), Leaf(lf))) && pt == Pooled(fs.f, Leaf(lf))
    ensures pt.Branch? && pt.bid == fs.f.id
    ensures var p := FrameNode(fs.f, lf.id); var i := |fs.f.l| - 1;
      && i + 1 < |p.children| && i < |p.keys|
      && NodeOf(pt) == p.(keys := p.keys[..i] + p.keys[i + 1..], children := p.children[..i + 1] + p.children[i + 2..])
  {
    hide Open, Closed, Merged, Replaces, Shares, Ids, CtxIds, AllLeaves, EntriesOf, CellsLeft, CellsRight, WF, WFKids;
    LeftLeaf(s, root, fs, lf, lo, hi);
    var a := Last(fs.f.l).leaf;
    var c := LeafPage(a.id, a.es + lf.es, lf.next);
    KeysAppend(a.es, lf.es);
    MergeLeftReplaces(s, s1, root, fs, lf, a, c, lo, hi);
    Written(s, s1, a.id, NodePage(left), multiset{a.id});
    MergeOpens(s, s1, root, fs, Leaf(lf), 1, 0, Leaf(c), 0, lo, hi);
    pt := Replaced(fs.f, Leaf(lf), 1, 0, [], [Leaf(c)]);
  }

  lemma MergeLeftReplaces(s: seq<PageData>, s1: seq<PageData>, root: PageId, fs: Ctx, lf: LeafPage, a: LeafPage, c: LeafPage, lo: int, hi: int)
    requires fs.In? && Open(s, root, fs, Leaf(lf), 0, lo, hi) && |lf.es| == MIN_KEYS - 1
    requires fs.f.l != [] && Last(fs.f.l) == Leaf(a) && |a.es| == MIN_KEYS
    requires |fs.f.kl| == |fs.f.l| && |fs.f.kr| == |fs.f.r|
    requires c == LeafPage(a.id, a.es + lf.es, lf.next) && a.id < |s| && s1 == s[a.id := NodePage(NodeOf(Leaf(c)))]
    ensures var g := GroupsOf(fs.f, Leaf(lf), 1, 0);
      && c.id == g.ts[0].Id()
      && Replaces(s, s1, g.ks, g.ts, [], [Leaf(c)], 0, GapLow(g.kl, HoleLow(fs.up, lo)), GapHigh(g.kr, HoleHigh(fs.up, hi)))
  {
    hide Open, Replaces;
    LeftPair(s, root, fs, Leaf(lf), 0, lo, hi);
    var g := GroupsOf(fs.f, Leaf(lf), 1, 0);
    LeafMerge(s, s1, a, lf, g.ks[0], GapLow(g.kl, HoleLow(fs.up, lo)), GapHigh(g.kr, HoleHigh(fs.up, hi)));
  }

  lemma MergeRight(s: seq<PageData>, s1: seq<PageData>, root: PageId, fs: Ctx, lf: LeafPage, lo: int, hi: int, leaf: Node)
    returns (pt: Tree)
    requires fs.In? && Open(s, root, fs, Leaf(lf), 0, lo, hi) && |lf.es| == MIN_KEYS - 1
    requires fs.f.l == [] && fs.f.r != [] && fs.f.r[0].Size() == MIN_KEYS
    requires var c, r := NodeOf(Leaf(lf)), NodeOf(fs.f.r[0]);
      leaf == c.(keys := c.keys + r.keys, values := c.values + r.values, nextLeaf := r.nextLeaf)
    requires lf.id < |s| && s1 == s[lf.id := NodePage(leaf)]
    ensures Merged(s, s1, root, fs, Leaf(lf), pt, 0, lo, hi)
    ensures fs.f.kr != [] && leaf == NodeOf(Fuse(Leaf(lf), fs.f.kr[0], fs.f.r[0])) && pt == Pooled(fs.f, Leaf(lf))
    ensures pt.Branch? && pt.bid == fs.f.id
    ensures var p := FrameNode(fs.f, lf.id); var i := |fs.f.l|;
      && i + 1 < |p.children| && i < |p.keys|
      && NodeOf(pt) == p.(keys := p.keys[..i] + p.keys[i + 1..], children := p.children[..i + 1] + p.children[i + 2..])
  {
    hide Open, Closed, Merged, Replaces, Shares, Ids, CtxIds, AllLeaves, EntriesOf, CellsLeft, CellsRight, WF, WFKids;
    RightLeaf(s, root, fs, lf, lo, hi);
    var b := fs.f.r[0].leaf;
    var c := LeafPage(lf.id, lf.es + b.es, b.next);
    KeysAppend(lf.es, b.es);
    MergeRightReplaces(s, s1, root, fs, lf, b, c, lo, hi);
    Written(s, s1, lf.id, NodePage(leaf), multiset{lf.id});
    MergeOpens(s, s1, root, fs, Leaf(lf), 0, 1, Leaf(c), 0, lo, hi);
    pt := Replaced(fs.f, Leaf(lf), 0, 1, [], [Leaf(c)]);
  }

  lemma MergeRightReplaces(s: seq<PageData>, s1: seq<PageData>, root: PageId, fs: Ctx, lf: LeafPage, b: LeafPage, c: LeafPage, lo: int, hi: int)
    requires fs.In? && Open(s, root, fs, Leaf(lf), 0, lo, hi) && |lf.es| == MIN_KEYS - 1
    requires fs.f.r != [] && fs.f.r[0] == Leaf(b) && |b.es| == MIN_KEYS
    requires |fs.f.kl| == |fs.f.l| && |fs.f.kr| == |fs.f.r|
    requires c == LeafPage(lf.id, lf.es + b.es, b.next) && lf.id < |s| && s1 == s[lf.id := NodePage(NodeOf(Leaf(c)))]
    ensures var g := GroupsOf(fs.f, Leaf(lf), 0, 1);
      && c.id == g.ts[0].Id()
      && Replaces(s, s1, g.ks, g.ts, [], [Leaf(c)], 0, GapLow(g.kl, HoleLow(fs.up, lo)), GapHigh(g.kr, HoleHigh(fs.up, hi)))
  {
    hide Open, Replaces;
    RightPair(s, root, fs, Leaf(lf), 0, lo, hi);
    var g := GroupsOf(fs.f, Leaf(lf), 0, 1);
    LeafMerge(s, s1, lf, b, g.ks[0], GapLow(g.kl, HoleLow(fs.up, lo)), GapHigh(g.kr, HoleHigh(fs.up, hi)));
  }

  lemma KeysAppend(a: seq<Entry>, b: seq<Entry>)
    ensures Keys(a + b) == Keys(a) + Keys(b) && Vals(a + b) == Vals(a) + Vals(b)
  {
  }
}
