/** Finding a key's leaf, and what taking a pointer out of it means for the whole tree. */
module TreeDelete {
  import opened Storage
  import opened EntryList
  import opened TreeModel
  import opened TreePath
  import opened TreeGrowth
  import opened TreeShrink
  import opened TreeRepair
  import opened LeafRepair

  // ---------- The key and its leaf ----------

  /** The entries of a tree, seen from one of its leaves on the search path of `key`. */
  lemma Surroundings(s: seq<PageData>, fs: Ctx, lf: LeafPage, lo: int, hi: int, key: int)
    requires Fits(s, fs, Leaf(lf), 0, lo, hi) && lo < hi
    requires HoleLow(fs, lo) <= key < HoleHigh(fs, hi)
    ensures EntriesOf(AllLeaves(fs, Leaf(lf))) == EntriesOf(CtxLeft(fs)) + lf.es + EntriesOf(CtxRight(fs))
    ensures AllBelow(EntriesOf(CtxLeft(fs)), key) && AllAbove(EntriesOf(CtxRight(fs)), key)
  {
    CtxEntries(fs, 0, lo, hi);
    EntriesThree(CtxLeft(fs), [lf], CtxRight(fs));
    LeafRun(lf);
    var a, b := EntriesOf(CtxLeft(fs)), EntriesOf(CtxRight(fs));
    forall i | 0 <= i < |a| ensures a[i].key < key { assert a[i] in a; }
    forall i | 0 <= i < |b| ensures key < b[i].key { assert b[i] in b; }
  }

  lemma BelowConcat(a: seq<Entry>, b: seq<Entry>, k: int)
    requires AllBelow(a, k) && AllBelow(b, k)
    ensures AllBelow(a + b, k)
  {
  }

  lemma AboveConcat(a: seq<Entry>, b: seq<Entry>, k: int)
    requires AllAbove(a, k) && AllAbove(b, k)
    ensures AllAbove(a + b, k)
  {
  }

  lemma JoinAround<T>(a: seq<T>, x: seq<T>, m: seq<T>, y: seq<T>, b: seq<T>)
    ensures a + (x + m + y) + b == (a + x) + m + (y + b)
  {
  }

  lemma SplitAround<T>(a: seq<T>, es: seq<T>, b: seq<T>, i: nat)
    requires i <= |es|
    ensures a + es + b == (a + es[..i]) + (es[i..] + b)
  {
    assert es == es[..i] + es[i..];
  }

  lemma SplitAt<T>(a: seq<T>, es: seq<T>, b: seq<T>, i: nat)
    requires i < |es|
    ensures a + es + b == (a + es[..i]) + [es[i]] + (es[i + 1..] + b)
  {
    assert es == es[..i] + [es[i]] + es[i + 1..];
    JoinAround(a, es[..i], [es[i]], es[i + 1..], b);
  }

  /** Looking a key up in its leaf is looking it up in the whole tree. */
  lemma LookupInLeaf(a: seq<Entry>, es: seq<Entry>, b: seq<Entry>, key: int)
    requires Sorted(es) && AllBelow(a, key) && AllAbove(b, key)
    ensures var i := BisectLeft(Keys(es), key);
      Lookup(Contents(a + es + b), key) == if i < |es| && es[i].key == key then es[i].ptrs else []
  {
    var i := BisectLeft(Keys(es), key);
    hide Contents, Lookup;
    BelowConcat(a, es[..i], key);
    if i < |es| && es[i].key == key {
      AboveConcat(es[i + 1..], b, key);
      SplitAt(a, es, b, i);
      LookupAt(a + es[..i], es[i], es[i + 1..] + b);
    } else {
      AboveConcat(es[i..], b, key);
      SplitAround(a, es, b, i);
      LookupAbsent(a + es[..i], es[i..] + b, key);
    }
  }

  /** A leaf without one pointer of entry `i`. */
  function Thinned(lf: LeafPage, i: nat, p: RowPointer): LeafPage
    requires i < |lf.es|
  {
    LeafPage(lf.id, lf.es[..i] + Shrunk(lf.es[i], p) + lf.es[i + 1..], lf.next)
  }

  lemma ThinnedContents(a: seq<Entry>, lf: LeafPage, i: nat, b: seq<Entry>, p: RowPointer)
    requires i < |lf.es| && Sorted(lf.es) && p in lf.es[i].ptrs
    requires AllBelow(a, lf.es[i].key) && AllAbove(b, lf.es[i].key)
    ensures Contents(a + Thinned(lf, i, p).es + b) == Removed(Contents(a + lf.es + b), lf.es[i].key, p)
  {
    hide Contents, Removed, Shrunk;
    var es, e := lf.es, lf.es[i];
    BelowConcat(a, es[..i], e.key);
    AboveConcat(es[i + 1..], b, e.key);
    SplitAt(a, es, b, i);
    JoinAround(a, es[..i], Shrunk(e, p), es[i + 1..], b);
    RemovedAt(a + es[..i], e, es[i + 1..] + b, p);
  }

  lemma ThinnedCell(lf: LeafPage, i: nat, p: RowPointer, lo: int, hi: int)
    requires i < |lf.es| && Cell(Leaf(lf), 0, lo, hi)
    ensures Cell(Leaf(Thinned(lf, i, p)), 0, lo, hi)
  {
    var es := lf.es;
    var e' := Entry(es[i].key, RemoveFirst(es[i].ptrs, p));
    hide Sorted, Within, NoneEmpty, RemoveFirst;
    if e'.ptrs == [] {
      DroppedWF(es, i, lo, hi);
      assert es[..i] + [] + es[i + 1..] == es[..i] + es[i + 1..];
    } else {
      UpdatedWF(es, i, e'.ptrs, lo, hi);
      ReplaceMiddle(es, i, e');
    }
  }

  /** Thinning as the key and value lists of the leaf page see it. */
  lemma ThinnedNode(lf: LeafPage, i: nat, p: RowPointer)
    requires i < |lf.es|
    ensures var n := NodeOf(Leaf(lf)); var rest := RemoveFirst(n.values[i], p);
      NodeOf(Leaf(Thinned(lf, i, p))) ==
        if rest == [] then n.(keys := n.keys[..i] + n.keys[i + 1..], values := n.values[..i] + n.values[i + 1..])
        else n.(values := n.values[i := rest])
  {
    var es := lf.es;
    var rest := RemoveFirst(es[i].ptrs, p);
    KeysPrefix(es, i);
    KeysSuffix(es, i + 1);
    if rest == [] {
      assert es[..i] + [] + es[i + 1..] == es[..i] + es[i + 1..];
      KeysAppend(es[..i], es[i + 1..]);
    } else {
      KeysConcat(es[..i], Entry(es[i].key, rest), es[i + 1..]);
      ReplaceMiddle(Keys(es), i, es[i].key);
      ReplaceMiddle(Vals(es), i, rest);
    }
  }

  /** The tree is open at the thinned leaf. */
  lemma ThinnedOpen(s: seq<PageData>, root: PageId, fs: Ctx, lf: LeafPage, i: nat, p: RowPointer, lo: int, hi: int)
    requires Fits(s, fs, Leaf(lf), 0, lo, hi) && lo < hi && i < |lf.es|
    requires Chain(AllLeaves(fs, Leaf(lf)), NO_PAGE) && Distinct(CtxIds(fs) + Ids(Leaf(lf))) && RootId(fs, lf.id) == root
    ensures Open(s, root, fs, Leaf(Thinned(lf, i, p)), 0, lo, hi)
  {
    ThinnedCell(lf, i, p, HoleLow(fs, lo), HoleHigh(fs, hi));
    var l' := Thinned(lf, i, p);
    LeafRun(lf);
    LeafRun(l');
    SameLinks(CtxLeft(fs), lf, l', CtxRight(fs));
  }

  lemma SameLinks(a: seq<LeafPage>, l: LeafPage, l': LeafPage, b: seq<LeafPage>)
    requires l'.id == l.id && l'.next == l.next && Chain(a + [l] + b, NO_PAGE)
    ensures Chain(a + [l'] + b, NO_PAGE)
  {
    var after := Or(FirstLeaf(b), NO_PAGE);
    ChainConcat(a + [l], b, NO_PAGE);
    ChainConcat(a, [l], after);
    assert ChainedAt([l], 0, after);
    assert ChainedAt([l'], 0, after);
    ChainSwap(a, [l], [l'], b, NO_PAGE);
  }

  // ---------- Separator refresh ----------

  /** A leaf that stays full enough is written; its separator becomes its first key. */
  lemma Refresh(s: seq<PageData>, s2: seq<PageData>, root: PageId, fs: Ctx, lf: LeafPage, lo: int, hi: int, leaf: Node, parent: Node)
    returns (t': Tree, h': nat)
    requires fs.In? && Open(s, root, fs, Leaf(lf), 0, lo, hi) && MIN_KEYS <= |lf.es| && fs.f.l != []
    requires leaf == NodeOf(Leaf(lf)) && lf.id < |s| && fs.f.id < |s|
    requires var p := FrameNode(fs.f, lf.id);
      |fs.f.l| <= |p.keys| && parent == p.(keys := p.keys[|fs.f.l| - 1 := leaf.keys[0]])
    requires s2 == s[lf.id := NodePage(leaf)][fs.f.id := NodePage(parent)]
    ensures Closed(s, s2, root, t', h', lo, hi, EntriesOf(AllLeaves(fs, Leaf(lf))), CtxIds(fs) + Ids(Leaf(lf)))
    ensures Ids(t') == CtxIds(fs) + Ids(Leaf(lf))
  {
    hide Open, Closed, Shares, Ids, IdsOf, CtxIds, AllLeaves, EntriesOf, Plug, CellsLeft, CellsRight, WF, WFKids;
    LeftLeaf(s, root, fs, lf, lo, hi);
    var a := Last(fs.f.l).leaf;
    var s1 := s[lf.id := NodePage(leaf)];
    RefreshShares(s, s1, root, fs, lf, a, lo, hi);
    var m := lf.es[0].key;
    t', h' := Plug(fs.up, Replaced(fs.f, Leaf(lf), 1, 0, [m], [Leaf(a), Leaf(lf)])), 1 + fs.up.Depth();
    ShareCloses(s, s1, s2, root, fs, Leaf(lf), 1, 0, m, Leaf(a), Leaf(lf), 0, lo, hi);
  }

  lemma RefreshShares(s: seq<PageData>, s1: seq<PageData>, root: PageId, fs: Ctx, lf: LeafPage, a: LeafPage, lo: int, hi: int)
    requires fs.In? && Open(s, root, fs, Leaf(lf), 0, lo, hi) && MIN_KEYS <= |lf.es|
    requires fs.f.l != [] && Last(fs.f.l) == Leaf(a) && lf.id < |s|
    requires s1 == s[lf.id := NodePage(NodeOf(Leaf(lf)))]
    ensures |fs.f.kl| == |fs.f.l| && |fs.f.kr| == |fs.f.r|
    ensures Shares(s, s1, root, fs, Leaf(lf), 1, 0, lf.es[0].key, Leaf(a), Leaf(lf), 0, lo, hi)
  {
    LeafFits(s, root, fs, lf, lo, hi);
    hide Open, Shares;
    LeftPair(s, root, fs, Leaf(lf), 0, lo, hi);
    ShareStep(s, s1, root, fs, lf, 1, 0, a, lf, a, lf, lo, hi);
  }

  lemma LeafFits(s: seq<PageData>, root: PageId, fs: Ctx, lf: LeafPage, lo: int, hi: int)
    requires Open(s, root, fs, Leaf(lf), 0, lo, hi)
    ensures |lf.es| <= MAX_KEYS
  {
    CellShape(Leaf(lf), 0, HoleLow(fs, lo), HoleHigh(fs, hi));
  }

  // ---------- When does a deletion remove a level? Seen from the root ----------

  /** Deleting pointer `p` of `key` takes the last key that the leaf can spare. */
  ghost predicate RunsShort(l: LeafPage, key: int, p: RowPointer) {
    |l.es| == MIN_KEYS && exists i :: 0 <= i < |l.es| && l.es[i] == Entry(key, [p])
  }

  /** Every node on the search path of `key` is at its minimum, and so are its neighbours. */
  ghost predicate OnTheBrink(t: Tree, key: int, p: RowPointer, top: bool) {
    match t
    case Leaf(l) => RunsShort(l, key, p)
    case Branch(_, seps, kids) =>
      && Increasing(seps) && |kids| == |seps| + 1
      && |seps| == (if top then 1 else MIN_KEYS)
      && var i := BisectRight(seps, key);
      && (i > 0 ==> kids[i - 1].Size() == MIN_KEYS)
      && (i + 1 < |kids| ==> kids[i + 1].Size() == MIN_KEYS)
      && OnTheBrink(kids[i], key, p, false)
  }

  /** The condition, checkable before the call, under which deleting `p` of `key` removes the root. */
  ghost predicate RootShrinks(t: Tree, key: int, p: RowPointer) {
    t.Branch? && OnTheBrink(t, key, p, true)
  }

  /** What the subtree `t` becomes when pointer `p` is taken out of its leaf for `key` and every node on the way up from
      there is pooled with a neighbour; its own page is yet to be pooled. */
  ghost function Melt(t: Tree, key: int, p: RowPointer): Tree {
    match t
    case Leaf(l) =>
      if !Increasing(Keys(l.es)) then t
      else var i := BisectLeft(Keys(l.es), key);
        if i < |l.es| && l.es[i].key == key then Leaf(Thinned(l, i, p)) else t
    case Branch(_, seps, kids) =>
      if !Increasing(seps) || |kids| != |seps| + 1 then t
      else var i := BisectRight(seps, key); Pooled(FrameAt(t, i), Melt(kids[i], key, p))
  }

  /** The tree that a deletion leaves behind when it removes the root. */
  ghost function MeltedRoot(t: Tree, key: int, p: RowPointer): Tree {
    Melted(Top, Melt(t, key, p))
  }

  /** Every frame on a path is at its minimum. */
  ghost predicate PathOnTheBrink(fs: Ctx) {
    fs.Top? || (Tight(fs.f) && |fs.f.kl| + |fs.f.kr| == (if fs.up.Top? then 1 else MIN_KEYS) && PathOnTheBrink(fs.up))
  }

  lemma {:induction false} BrinkCollapses(fs: Ctx)
    ensures Collapses(fs) <==> fs.In? && PathOnTheBrink(fs)
  {
    if fs.In? && fs.up.In? {
      BrinkCollapses(fs.up);
    }
  }

  lemma BrinkStep(fs: Ctx, t: Tree, i: nat, h: nat, lo: int, hi: int, key: int, p: RowPointer)
    requires t.Branch? && WF(t, h, lo, hi) && Increasing(t.seps) && i == BisectRight(t.seps, key)
    requires |t.kids| == |t.seps| + 1
    ensures PathOnTheBrink(fs) && OnTheBrink(t, key, p, fs.Top?)
       <==> PathOnTheBrink(In(FrameAt(t, i), fs)) && OnTheBrink(t.kids[i], key, p, false)
  {
    var f := FrameAt(t, i);
    assert |f.kl| + |f.kr| == |t.seps|;
    assert f.l != [] <==> i > 0;
    assert f.r != [] <==> i + 1 < |t.kids|;
    assert i > 0 ==> Last(f.l) == t.kids[i - 1];
    assert i + 1 < |t.kids| ==> f.r[0] == t.kids[i + 1];
  }

  /** Thinning makes a leaf run short exactly when the key goes with its only pointer. */
  lemma ThinnedRunsShort(lf: LeafPage, i: nat, key: int, p: RowPointer)
    requires Sorted(lf.es) && i < |lf.es| && lf.es[i].key == key && p in lf.es[i].ptrs
    requires MIN_KEYS <= |lf.es|
    ensures RunsShort(lf, key, p) <==> |Thinned(lf, i, p).es| < MIN_KEYS
  {
    var ps := lf.es[i].ptrs;
    var rest := RemoveFirst(ps, p);
    RemoveFirstLength(ps, p);
    if rest == [] {
      assert ps == [p];
      assert lf.es[i] == Entry(key, [p]);
    }
  }

  // ---------- Views used by the descent ----------

  /** A branch routes every key of its range to a child. */
  lemma BranchView(t: Tree, h: nat, lo: int, hi: int, key: int)
    requires t.Branch? && Cell(t, h, lo, hi) && lo <= key < hi
    ensures h > 0 && |t.kids| == |t.seps| + 1 && Increasing(t.seps) && WF(t, h, lo, hi)
    ensures var i := BisectRight(t.seps, key);
      i < |t.kids| && LowBound(t.seps, lo, i) <= key < HighBound(t.seps, hi, i)
  {
    CellShape(t, h, lo, hi);
    assert WF(t, h, lo, hi);
    Routed(t, h, lo, hi, key);
  }

  /** The descent towards `key` has reached the subtree `t`. */
  ghost predicate OnPath(s: seq<PageData>, whole: Tree, fs: Ctx, t: Tree, h: nat, lo: int, hi: int, key: int) {
    && Fits(s, fs, t, h, lo, hi) && Plug(fs, t) == whole
    && HoleLow(fs, lo) <= key < HoleHigh(fs, hi)
    && (forall p :: OnTheBrink(whole, key, p, true) <==> PathOnTheBrink(fs) && OnTheBrink(t, key, p, fs.Top?))
    && (fs.Top? ==> t == whole)
    && (fs.In? ==> whole.Branch?)
    && MeltsAlike(whole, fs, t, key)
  }

  /** Pooling from `t` upwards is pooling in the whole tree. */
  ghost predicate MeltsAlike(whole: Tree, fs: Ctx, t: Tree, key: int) {
    forall p :: Melted(fs, Melt(t, key, p)) == MeltedRoot(whole, key, p)
  }

  lemma MeltLeaf(whole: Tree, fs: Ctx, lf: LeafPage, i: nat, key: int, p: RowPointer)
    requires MeltsAlike(whole, fs, Leaf(lf), key) && Increasing(Keys(lf.es)) && i == BisectLeft(Keys(lf.es), key)
    requires i < |lf.es| && lf.es[i].key == key
    ensures Melted(fs, Leaf(Thinned(lf, i, p))) == MeltedRoot(whole, key, p)
  {
    assert Melt(Leaf(lf), key, p) == Leaf(Thinned(lf, i, p));
  }

  lemma MeltStep(whole: Tree, fs: Ctx, t: Tree, i: nat, key: int)
    requires MeltsAlike(whole, fs, t, key) && t.Branch? && |t.kids| == |t.seps| + 1 && Increasing(t.seps) && i == BisectRight(t.seps, key)
    ensures MeltsAlike(whole, In(FrameAt(t, i), fs), t.kids[i], key)
  {
    forall p ensures Melted(In(FrameAt(t, i), fs), Melt(t.kids[i], key, p)) == MeltedRoot(whole, key, p) {
      assert Melt(t, key, p) == Pooled(FrameAt(t, i), Melt(t.kids[i], key, p));
    }
  }

  lemma OnPathStart(s: seq<PageData>, root: PageId, t: Tree, h: nat, lo: int, hi: int, key: int)
    requires t.Id() == root && Rep(s, t) && RootOK(t) && Cell(t, h, lo, hi) && lo <= key < hi
    ensures OnPath(s, t, Top, t, h, lo, hi, key)
    ensures Rep(s, t) && t.Id() == root && root < |s| && s[root] == NodePage(NodeOf(t))
  {
  }

  lemma LookupRemoved(m: map<int, seq<RowPointer>>, k: int, p: RowPointer)
    ensures p !in Lookup(m, k) ==> Removed(m, k, p) == m
  {
  }

  lemma OnPathView(s: seq<PageData>, whole: Tree, fs: Ctx, t: Tree, h: nat, lo: int, hi: int, key: int)
    requires OnPath(s, whole, fs, t, h, lo, hi, key)
    ensures Rep(s, t) && (t.Leaf? <==> h == 0) && t.Id() < |s| && s[t.Id()] == NodePage(NodeOf(t))
    ensures t.Branch? ==> |t.kids| == |t.seps| + 1 && Increasing(t.seps) && BisectRight(t.seps, key) < |t.kids|
  {
    CellShape(t, h, HoleLow(fs, lo), HoleHigh(fs, hi));
    if t.Branch? {
      BranchView(t, h, HoleLow(fs, lo), HoleHigh(fs, hi), key);
    }
  }

  lemma OnPathStep(s: seq<PageData>, whole: Tree, fs: Ctx, t: Tree, i: nat, h: nat, lo: int, hi: int, key: int)
    requires OnPath(s, whole, fs, t, h, lo, hi, key) && t.Branch? && h > 0
    requires |t.kids| == |t.seps| + 1 && Increasing(t.seps) && i == BisectRight(t.seps, key) && i < |t.kids|
    ensures OnPath(s, whole, In(FrameAt(t, i), fs), t.kids[i], h - 1, lo, hi, key)
    ensures var c := t.kids[i]; Rep(s, c) && c.Id() < |s| && s[c.Id()] == NodePage(NodeOf(c))
  {
    BranchView(t, h, HoleLow(fs, lo), HoleHigh(fs, hi), key);
    Descend(s, fs, t, i, h, lo, hi);
    DescendPlug(fs, t, i);
    MeltStep(whole, fs, t, i, key);
    var fs' := In(FrameAt(t, i), fs);
    hide Fits, HoleLow, HoleHigh, OnTheBrink, PathOnTheBrink, Plug, MeltsAlike;
    forall p ensures OnTheBrink(whole, key, p, true) <==> PathOnTheBrink(fs') && OnTheBrink(t.kids[i], key, p, fs'.Top?) {
      BrinkStep(fs, t, i, h, HoleLow(fs, lo), HoleHigh(fs, hi), key, p);
    }
  }

  lemma OnPathEnd(s: seq<PageData>, whole: Tree, fs: Ctx, t: Tree, h: nat, lo: int, hi: int, key: int)
    requires OnPath(s, whole, fs, t, h, lo, hi, key) && t.Leaf?
    ensures Fits(s, fs, t, 0, lo, hi) && Plug(fs, t) == whole && HoleLow(fs, lo) <= key < HoleHigh(fs, hi)
    ensures forall p :: RootShrinks(whole, key, p) <==> Collapses(fs) && RunsShort(t.leaf, key, p)
    ensures MeltsAlike(whole, fs, t, key)
  {
    CellShape(t, h, HoleLow(fs, lo), HoleHigh(fs, hi));
    BrinkCollapses(fs);
    hide Fits, Collapses, PathOnTheBrink, Plug, HoleLow, HoleHigh, MeltsAlike;
    forall p ensures RootShrinks(whole, key, p) <==> Collapses(fs) && RunsShort(t.leaf, key, p) {
      assert OnTheBrink(t, key, p, fs.Top?) == RunsShort(t.leaf, key, p);
    }
  }

  /** What the leaf found for `key` says about the whole tree. */
  lemma LeafView(t: Tree, fs: Ctx, lf: LeafPage, s: seq<PageData>, lo: int, hi: int, key: int)
    requires Fits(s, fs, Leaf(lf), 0, lo, hi) && lo < hi && Plug(fs, Leaf(lf)) == t
    requires HoleLow(fs, lo) <= key < HoleHigh(fs, hi)
    ensures Sorted(lf.es) && Increasing(Keys(lf.es))
    ensures var i := BisectLeft(Keys(lf.es), key);
      Lookup(Contents(Entries(t)), key) == if i < |lf.es| && lf.es[i].key == key then lf.es[i].ptrs else []
  {
    hide *;
    HoleSorted(s, fs, lf, lo, hi);
    PlugParts(fs, Leaf(lf));
    Surroundings(s, fs, lf, lo, hi, key);
    EntriesMeaning(t);
    AllLeavesMeans(fs, Leaf(lf));
    LookupInLeaf(EntriesOf(CtxLeft(fs)), lf.es, EntriesOf(CtxRight(fs)), key);
  }

  lemma HoleSorted(s: seq<PageData>, fs: Ctx, lf: LeafPage, lo: int, hi: int)
    requires Fits(s, fs, Leaf(lf), 0, lo, hi)
    ensures Sorted(lf.es) && Increasing(Keys(lf.es))
  {
    assert WF(Leaf(lf), 0, HoleLow(fs, lo), HoleHigh(fs, hi));
    hide HoleLow, HoleHigh, CtxWF, CtxRep;
  }

  /** A valid tree with one pointer taken out of its leaf is open there. */
  lemma DeleteOpen(s: seq<PageData>, root: PageId, t: Tree, fs: Ctx, lf: LeafPage, i: nat, key: int, p: RowPointer,
                   lo: int, hi: int)
    requires t.Id() == root && Chain(Leaves(t), NO_PAGE) && Distinct(Ids(t))
    requires Fits(s, fs, Leaf(lf), 0, lo, hi) && lo < hi && Plug(fs, Leaf(lf)) == t
    requires HoleLow(fs, lo) <= key < HoleHigh(fs, hi)
    requires i < |lf.es| && lf.es[i].key == key && p in lf.es[i].ptrs
    ensures Open(s, root, fs, Leaf(Thinned(lf, i, p)), 0, lo, hi)
    ensures Contents(EntriesOf(AllLeaves(fs, Leaf(Thinned(lf, i, p))))) == Removed(Contents(Entries(t)), key, p)
    ensures CtxIds(fs) + Ids(Leaf(Thinned(lf, i, p))) == Ids(t)
    ensures |Thinned(lf, i, p).es| < MIN_KEYS && Collapses(fs) <==> Collapses(fs) && RunsShort(lf, key, p)
  {
    PlugParts(fs, Leaf(lf));
    ThinnedOpen(s, root, fs, lf, i, p, lo, hi);
    DeleteContents(s, t, fs, lf, i, key, p, lo, hi);
    if fs.In? {
      assert WF(Leaf(lf), 0, HoleLow(fs, lo), HoleHigh(fs, hi));
      ThinnedRunsShort(lf, i, key, p);
    }
  }

  lemma DeleteContents(s: seq<PageData>, t: Tree, fs: Ctx, lf: LeafPage, i: nat, key: int, p: RowPointer, lo: int, hi: int)
    requires Fits(s, fs, Leaf(lf), 0, lo, hi) && lo < hi && Plug(fs, Leaf(lf)) == t
    requires HoleLow(fs, lo) <= key < HoleHigh(fs, hi)
    requires i < |lf.es| && lf.es[i].key == key && p in lf.es[i].ptrs
    ensures Contents(EntriesOf(AllLeaves(fs, Leaf(Thinned(lf, i, p))))) == Removed(Contents(Entries(t)), key, p)
  {
    assert WF(Leaf(lf), 0, HoleLow(fs, lo), HoleHigh(fs, hi));
    PlugParts(fs, Leaf(lf));
    Surroundings(s, fs, lf, lo, hi, key);
    var l' := Thinned(lf, i, p);
    EntriesThree(CtxLeft(fs), [l'], CtxRight(fs));
    LeafRun(l');
    hide Contents, Removed, HoleLow, HoleHigh, CtxWF, CtxRep, Thinned;
    ThinnedContents(EntriesOf(CtxLeft(fs)), lf, i, EntriesOf(CtxRight(fs)), p);
  }
}
