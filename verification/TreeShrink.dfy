/** What deletion does to a tree: repairs at the hole of a path, one level at a time. */
module TreeShrink {
  import opened Storage
  import opened EntryList
  import opened TreeModel
  import opened TreePath
  import opened TreeGrowth

  /** The leaves of a tree that is open at a hole. */
  ghost function AllLeaves(fs: Ctx, t: Tree): seq<LeafPage> {
    CtxLeft(fs) + Leaves(t) + CtxRight(fs)
  }

  /** The subtree `t` belongs in the hole of `fs`; the page of its top node is yet to be written,
      and that node may be one key short. */
  ghost predicate Open(s: seq<PageData>, root: PageId, fs: Ctx, t: Tree, h: nat, lo: int, hi: int) {
    && lo < hi && CtxWF(fs, h, lo, hi) && CtxRep(s, fs, t.Id())
    && Cell(t, h, HoleLow(fs, lo), HoleHigh(fs, hi))
    && t.Id() < |s| && (t.Branch? ==> RepAll(s, t.kids))
    && (fs.In? ==> MIN_KEYS - 1 <= t.Size())
    && Chain(AllLeaves(fs, t), NO_PAGE)
    && Distinct(CtxIds(fs) + Ids(t))
    && RootId(fs, t.Id()) == root
  }

  /** The pages `s'` hold a complete tree with entries `es`, made of pages among `ids` only. */
  ghost predicate Closed(s: seq<PageData>, s': seq<PageData>, root: PageId, t: Tree, h: nat, lo: int, hi: int,
                         es: seq<Entry>, ids: multiset<PageId>)
  {
    && |s'| == |s| && TreeInv(s', root, t, h, lo, hi)
    && Entries(t) == es
    && (forall x :: x in Ids(t) ==> x in ids)
    && Untouched(s, s', ids)
  }

  /** Writing the top page of a sufficiently full subtree closes the tree. */
  lemma Close(s: seq<PageData>, s': seq<PageData>, root: PageId, fs: Ctx, t: Tree, h: nat, lo: int, hi: int)
    requires Open(s, root, fs, t, h, lo, hi)
    requires s' == s[t.Id() := NodePage(NodeOf(t))]
    requires if fs.Top? then RootOK(t) else t.Full()
    ensures Closed(s, s', root, Plug(fs, t), h + fs.Depth(), lo, hi, EntriesOf(AllLeaves(fs, t)), CtxIds(fs) + Ids(t))
    ensures Ids(Plug(fs, t)) == CtxIds(fs) + Ids(t)
  {
    hide *;
    CloseInv(s, s', root, fs, t, h, lo, hi);
    TopInIds(t);
    OpenStored(s, root, fs, t, h, lo, hi);
    Written(s, s', t.Id(), NodePage(NodeOf(t)), CtxIds(fs) + Ids(t));
    ClosedMeans(s, s', root, Plug(fs, t), h + fs.Depth(), lo, hi, AllLeaves(fs, t), CtxIds(fs) + Ids(t));
  }

  lemma OpenStored(s: seq<PageData>, root: PageId, fs: Ctx, t: Tree, h: nat, lo: int, hi: int)
    requires Open(s, root, fs, t, h, lo, hi)
    ensures t.Id() < |s|
  {
  }

  lemma ClosedMeans(s: seq<PageData>, s': seq<PageData>, root: PageId, t: Tree, h: nat, lo: int, hi: int,
                    ls: seq<LeafPage>, ids: multiset<PageId>)
    requires |s'| == |s| && TreeInv(s', root, t, h, lo, hi) && Untouched(s, s', ids) && Leaves(t) == ls && Ids(t) == ids
    ensures Closed(s, s', root, t, h, lo, hi, EntriesOf(ls), ids)
  {
    hide TreeInv, Untouched, Leaves, Ids, EntriesOf;
  }

  lemma TopInIds(t: Tree)
    ensures t.Id() in Ids(t)
  {
  }

  lemma Written(s: seq<PageData>, s': seq<PageData>, id: PageId, p: PageData, ids: multiset<PageId>)
    requires id < |s| && s' == s[id := p] && id in ids
    ensures Untouched(s, s', ids)
  {
  }

  lemma CloseInv(s: seq<PageData>, s': seq<PageData>, root: PageId, fs: Ctx, t: Tree, h: nat, lo: int, hi: int)
    requires Open(s, root, fs, t, h, lo, hi)
    requires s' == s[t.Id() := NodePage(NodeOf(t))]
    requires if fs.Top? then RootOK(t) else t.Full()
    ensures TreeInv(s', root, Plug(fs, t), h + fs.Depth(), lo, hi)
    ensures Leaves(Plug(fs, t)) == AllLeaves(fs, t) && Ids(Plug(fs, t)) == CtxIds(fs) + Ids(t)
  {
    hide *;
    OpenParts(s, root, fs, t, h, lo, hi);
    CloseStored(s, s', fs, t);
    FitsAgain(s', fs, t, h, lo, hi);
    PlugInv(s', fs, t, h, lo, hi);
  }

  lemma OpenParts(s: seq<PageData>, root: PageId, fs: Ctx, t: Tree, h: nat, lo: int, hi: int)
    requires Open(s, root, fs, t, h, lo, hi)
    ensures lo < hi && CtxWF(fs, h, lo, hi) && CtxRep(s, fs, t.Id()) && Cell(t, h, HoleLow(fs, lo), HoleHigh(fs, hi))
    ensures t.Id() < |s| && (t.Branch? ==> RepAll(s, t.kids)) && RootId(fs, t.Id()) == root
    ensures Chain(AllLeaves(fs, t), NO_PAGE) && Distinct(CtxIds(fs) + Ids(t))
  {
  }

  lemma FitsAgain(s: seq<PageData>, fs: Ctx, t: Tree, h: nat, lo: int, hi: int)
    requires CtxWF(fs, h, lo, hi) && CtxRep(s, fs, t.Id()) && Cell(t, h, HoleLow(fs, lo), HoleHigh(fs, hi)) && Rep(s, t)
    requires if fs.Top? then RootOK(t) else t.Full()
    ensures Fits(s, fs, t, h, lo, hi)
  {
  }

  lemma PlugInv(s: seq<PageData>, fs: Ctx, t: Tree, h: nat, lo: int, hi: int)
    requires Fits(s, fs, t, h, lo, hi) && lo < hi
    requires Chain(AllLeaves(fs, t), NO_PAGE) && Distinct(CtxIds(fs) + Ids(t))
    ensures TreeInv(s, RootId(fs, t.Id()), Plug(fs, t), h + fs.Depth(), lo, hi)
    ensures Leaves(Plug(fs, t)) == AllLeaves(fs, t) && Ids(Plug(fs, t)) == CtxIds(fs) + Ids(t)
  {
    hide *;
    PlugFits(s, fs, t, h, lo, hi);
    PlugParts(fs, t);
    AllLeavesMeans(fs, t);
    FitsWhole(s, Plug(fs, t), h + fs.Depth(), lo, hi);
  }

  lemma AllLeavesMeans(fs: Ctx, t: Tree)
    ensures AllLeaves(fs, t) == CtxLeft(fs) + Leaves(t) + CtxRight(fs)
  {
  }

  lemma FitsWhole(s: seq<PageData>, t: Tree, h: nat, lo: int, hi: int)
    requires Fits(s, Top, t, h, lo, hi) && lo < hi && Chain(Leaves(t), NO_PAGE) && Distinct(Ids(t))
    ensures TreeInv(s, t.Id(), t, h, lo, hi)
  {
    hide Chain, Distinct, Leaves, Ids, Rep, WF;
  }

  lemma CloseStored(s: seq<PageData>, s': seq<PageData>, fs: Ctx, t: Tree)
    requires CtxRep(s, fs, t.Id()) && t.Id() < |s| && (t.Branch? ==> RepAll(s, t.kids))
    requires s' == s[t.Id() := NodePage(NodeOf(t))]
    requires Distinct(CtxIds(fs) + Ids(t))
    ensures CtxRep(s', fs, t.Id()) && Rep(s', t)
  {
    var id := multiset{t.Id()};
    DistinctSub(CtxIds(fs) + id, CtxIds(fs) + Ids(t));
    CtxRepOutside(s, s', fs, t.Id(), id);
    if t.Branch? {
      DistinctSub(id + IdsOf(t.kids), CtxIds(fs) + Ids(t));
      RepAllOutside(s, s', t.kids, id);
    }
  }

  // ---------- Replacing neighbours of the hole ----------

  /** A frame around `t`, read as three groups of children. The middle group holds the hole
      and `i` children on its left and `j` on its right. */
  datatype Groups = Groups(kl: seq<int>, l: seq<Tree>, ks: seq<int>, ts: seq<Tree>, kr: seq<int>, r: seq<Tree>)
  {
    function Tree(id: PageId): Tree {
      Row(id, kl, l, ks, ts, kr, r)
    }

    ghost predicate Aligned() {
      |kl| == |l| && |kr| == |r| && |ts| == |ks| + 1
    }
  }

  function GroupsOf(f: Frame, t: Tree, i: nat, j: nat): Groups
    requires |f.kl| == |f.l| && |f.kr| == |f.r| && i <= |f.l| && j <= |f.r|
  {
    var n := |f.l| - i;
    Groups(f.kl[..n], f.l[..n], f.kl[n..] + f.kr[..j], f.l[n..] + [t] + f.r[..j], f.kr[j..], f.r[j..])
  }

  lemma GroupsWhole(f: Frame, t: Tree, i: nat, j: nat)
    requires |f.kl| == |f.l| && |f.kr| == |f.r| && i <= |f.l| && j <= |f.r|
    ensures var g := GroupsOf(f, t, i, j);
      && g.Aligned() && |g.kl| == |g.l| && |g.kr| == |g.r| && |g.ts| == |g.ks| + 1
      && g.kl + g.ks + g.kr == f.kl + f.kr && g.l + g.ts + g.r == f.l + [t] + f.r
  {
    var n := |f.l| - i;
    assert f.kl[..n] + f.kl[n..] == f.kl && f.kr[..j] + f.kr[j..] == f.kr;
    assert f.l[..n] + f.l[n..] == f.l && f.r[..j] + f.r[j..] == f.r;
  }

  lemma GroupsCells(f: Frame, t: Tree, i: nat, j: nat, h: nat, lo: int, hi: int)
    requires CellsLeft(f.kl, f.l, h, lo) && CellsRight(f.kr, f.r, h, hi)
    requires Cell(t, h, GapLow(f.kl, lo), GapHigh(f.kr, hi))
    requires AllFull(f.l) && AllFull(f.r)
    requires i <= |f.l| && j <= |f.r|
    ensures var g := GroupsOf(f, t, i, j);
      && CellsLeft(g.kl, g.l, h, lo) && CellsRight(g.kr, g.r, h, hi)
      && WFKids(g.ks, g.ts, h, GapLow(g.kl, lo), GapHigh(g.kr, hi))
      && AllFull(g.l) && AllFull(g.r)
  {
    hide *;
    CellsLengths(f.kl, f.l, f.kr, f.r, h, lo, hi);
    var g := GroupsOf(f, t, i, j);
    GroupsWhole(f, t, i, j);
    OnlyChild(t, h, GapLow(f.kl, lo), GapHigh(f.kr, hi));
    Join(f.kl, f.l, [], [t], f.kr, f.r, h, lo, hi);
    assert f.kl + [] + f.kr == f.kl + f.kr;
    Cut(g.kl, g.l, g.ks, g.ts, g.kr, g.r, h, lo, hi);
    GroupsFull(f, t, i, j);
  }

  lemma CellsLengths(kl: seq<int>, l: seq<Tree>, kr: seq<int>, r: seq<Tree>, h: nat, lo: int, hi: int)
    requires CellsLeft(kl, l, h, lo) && CellsRight(kr, r, h, hi)
    ensures |kl| == |l| && |kr| == |r|
  {
  }

  lemma OnlyChild(t: Tree, h: nat, lo: int, hi: int)
    requires Cell(t, h, lo, hi)
    ensures WFKids([], [t], h, lo, hi)
  {
    hide WF;
  }

  lemma GroupsFull(f: Frame, t: Tree, i: nat, j: nat)
    requires |f.kl| == |f.l| && |f.kr| == |f.r| && i <= |f.l| && j <= |f.r|
    requires AllFull(f.l) && AllFull(f.r)
    ensures var g := GroupsOf(f, t, i, j); AllFull(g.l) && AllFull(g.r)
  {
  }

  lemma GroupsStored(s: seq<PageData>, f: Frame, t: Tree, i: nat, j: nat)
    requires |f.kl| == |f.l| && |f.kr| == |f.r| && i <= |f.l| && j <= |f.r|
    requires RepAll(s, f.l) && RepAll(s, f.r)
    ensures var g := GroupsOf(f, t, i, j); RepAll(s, g.l) && RepAll(s, g.r)
  {
  }

  /** The leaves and pages of a row with a new middle group. */
  lemma GroupsParts(f: Frame, t: Tree, i: nat, j: nat)
    requires |f.kl| == |f.l| && |f.kr| == |f.r| && i <= |f.l| && j <= |f.r|
    ensures var g := GroupsOf(f, t, i, j);
      && LeavesOf(g.l) + LeavesOf(g.ts) + LeavesOf(g.r) == LeavesOf(f.l) + Leaves(t) + LeavesOf(f.r)
      && IdsOf(g.l) + IdsOf(g.r) + IdsOf(g.ts) == IdsOf(f.l) + IdsOf(f.r) + Ids(t)
  {
    var g := GroupsOf(f, t, i, j);
    GroupsWhole(f, t, i, j);
    RowParts(f.id, g.kl, g.l, g.ks, g.ts, g.kr, g.r);
    FillParts(f, t);
    assert Leaves(g.Tree(f.id)) == LeavesOf(f.l + [t] + f.r) == Leaves(Fill(f, t));
    IdsThree(g.l, g.ts, g.r);
    IdsThree(f.l, [t], f.r);
    IdsSingle(t);
  }

  /** Same entries, same place in the leaf chain. */
  ghost predicate SameLeaves(ls: seq<LeafPage>, ls': seq<LeafPage>) {
    && ls != [] && ls' != [] && ls'[0].id == ls[0].id
    && EntriesOf(ls') == EntriesOf(ls)
    && (forall after :: Chain(ls, after) ==> Chain(ls', after))
  }

  /** The middle group `ts` may be replaced by `ts'`, whose pages are stored in `s'`. */
  ghost predicate Replaces(s: seq<PageData>, s': seq<PageData>, ks: seq<int>, ts: seq<Tree>, ks': seq<int>, ts': seq<Tree>,
                           h: nat, lo: int, hi: int)
  {
    && |s'| == |s| && Untouched(s, s', IdsOf(ts))
    && WFKids(ks', ts', h, lo, hi) && AllFull(ts') && RepAll(s', ts')
    && |ks| - 1 <= |ks'| <= |ks|
    && SameLeaves(LeavesOf(ts), LeavesOf(ts'))
    && IdsOf(ts') <= IdsOf(ts)
  }

  /** The tree that is open one level up, after the middle group was replaced. */
  function Replaced(f: Frame, t: Tree, i: nat, j: nat, ks': seq<int>, ts': seq<Tree>): Tree
    requires |f.kl| == |f.l| && |f.kr| == |f.r| && i <= |f.l| && j <= |f.r|
  {
    GroupsOf(f, t, i, j).(ks := ks', ts := ts').Tree(f.id)
  }

  lemma ReplaceWF(fs: Ctx, t: Tree, i: nat, j: nat, s: seq<PageData>, s': seq<PageData>, ks': seq<int>, ts': seq<Tree>,
                  h: nat, lo: int, hi: int)
    requires fs.In? && lo < hi && CtxWF(fs, h, lo, hi)
    requires Cell(t, h, HoleLow(fs, lo), HoleHigh(fs, hi))
    requires i <= |fs.f.l| && j <= |fs.f.r|
    requires var g := GroupsOf(fs.f, t, i, j);
      Replaces(s, s', g.ks, g.ts, ks', ts', h, GapLow(g.kl, HoleLow(fs.up, lo)), GapHigh(g.kr, HoleHigh(fs.up, hi)))
    ensures var t' := Replaced(fs.f, t, i, j, ks', ts');
      && Cell(t', h + 1, HoleLow(fs.up, lo), HoleHigh(fs.up, hi))
      && |fs.f.kl| + |fs.f.kr| - 1 <= t'.Size() <= |fs.f.kl| + |fs.f.kr|
      && t'.Size() == |fs.f.kl| + |fs.f.kr| + |ks'| - (i + j)
  {
    var f, g := fs.f, GroupsOf(fs.f, t, i, j);
    GroupsCells(f, t, i, j, h, HoleLow(fs.up, lo), HoleHigh(fs.up, hi));
    GroupsWhole(f, t, i, j);
    assert |g.kl + g.ks + g.kr| == |f.kl + f.kr|;
    RowWF(f.id, g.kl, g.l, ks', ts', g.kr, g.r, h, HoleLow(fs.up, lo), HoleHigh(fs.up, hi));
  }

  lemma ReplaceLeaves(fs: Ctx, t: Tree, i: nat, j: nat, ks': seq<int>, ts': seq<Tree>)
    requires fs.In? && |fs.f.kl| == |fs.f.l| && |fs.f.kr| == |fs.f.r| && i <= |fs.f.l| && j <= |fs.f.r|
    requires SameLeaves(LeavesOf(GroupsOf(fs.f, t, i, j).ts), LeavesOf(ts'))
    requires Chain(AllLeaves(fs, t), NO_PAGE)
    ensures var t' := Replaced(fs.f, t, i, j, ks', ts');
      && Chain(AllLeaves(fs.up, t'), NO_PAGE)
      && EntriesOf(AllLeaves(fs.up, t')) == EntriesOf(AllLeaves(fs, t))
  {
    var f, g := fs.f, GroupsOf(fs.f, t, i, j);
    var t' := Replaced(f, t, i, j, ks', ts');
    GroupsParts(f, t, i, j);
    RowParts(f.id, g.kl, g.l, ks', ts', g.kr, g.r);
    Regroup(CtxLeft(fs.up), LeavesOf(f.l), Leaves(t), LeavesOf(f.r), CtxRight(fs.up));
    Regroup(CtxLeft(fs.up), LeavesOf(g.l), LeavesOf(g.ts), LeavesOf(g.r), CtxRight(fs.up));
    Regroup(CtxLeft(fs.up), LeavesOf(g.l), LeavesOf(ts'), LeavesOf(g.r), CtxRight(fs.up));
    SwapMiddle(CtxLeft(fs.up) + LeavesOf(g.l), LeavesOf(g.ts), LeavesOf(ts'), LeavesOf(g.r) + CtxRight(fs.up));
  }

  lemma SwapMiddle(a: seq<LeafPage>, c: seq<LeafPage>, c': seq<LeafPage>, b: seq<LeafPage>)
    requires SameLeaves(c, c') && Chain(a + c + b, NO_PAGE)
    ensures Chain(a + c' + b, NO_PAGE) && EntriesOf(a + c' + b) == EntriesOf(a + c + b)
  {
    ChainConcat(a + c, b, NO_PAGE);
    ChainConcat(a, c, Or(FirstLeaf(b), NO_PAGE));
    ChainSwap(a, c, c', b, NO_PAGE);
    EntriesThree(a, c, b);
    EntriesThree(a, c', b);
  }

  lemma ReplaceIds(fs: Ctx, t: Tree, i: nat, j: nat, ks': seq<int>, ts': seq<Tree>)
    requires fs.In? && |fs.f.kl| == |fs.f.l| && |fs.f.kr| == |fs.f.r| && i <= |fs.f.l| && j <= |fs.f.r|
    ensures var f, g, t' := fs.f, GroupsOf(fs.f, t, i, j), Replaced(fs.f, t, i, j, ks', ts');
      var rest := CtxIds(fs.up) + (multiset{f.id} + (IdsOf(g.l) + IdsOf(g.r)));
      && CtxIds(fs) + Ids(t) == rest + IdsOf(g.ts)
      && CtxIds(fs.up) + Ids(t') == rest + IdsOf(ts')
  {
    var f, g := fs.f, GroupsOf(fs.f, t, i, j);
    GroupsParts(f, t, i, j);
    RegroupIds(CtxIds(fs.up), multiset{f.id}, IdsOf(f.l) + IdsOf(f.r), Ids(t), IdsOf(g.l) + IdsOf(g.r), IdsOf(g.ts));
    RowParts(f.id, g.kl, g.l, ks', ts', g.kr, g.r);
    assert CtxIds(fs.up) + (multiset{f.id} + (IdsOf(g.l) + IdsOf(g.r)) + IdsOf(ts'))
        == CtxIds(fs.up) + (multiset{f.id} + (IdsOf(g.l) + IdsOf(g.r))) + IdsOf(ts');
  }

  lemma RegroupIds(up: multiset<PageId>, id: multiset<PageId>, lr: multiset<PageId>, t: multiset<PageId>, lr': multiset<PageId>, mid: multiset<PageId>)
    requires lr' + mid == lr + t
    ensures up + (id + lr) + t == up + (id + lr') + mid
  {
    assert up + (id + lr) + t == up + id + (lr + t);
    assert up + (id + lr') + mid == up + id + (lr' + mid);
  }

  lemma ReplaceStored(s: seq<PageData>, s': seq<PageData>, fs: Ctx, t: Tree, i: nat, j: nat, ks': seq<int>, ts': seq<Tree>)
    requires fs.In? && |fs.f.kl| == |fs.f.l| && |fs.f.kr| == |fs.f.r| && i <= |fs.f.l| && j <= |fs.f.r|
    requires CtxRep(s, fs, t.Id()) && Distinct(CtxIds(fs) + Ids(t))
    requires |s'| == |s| && Untouched(s, s', IdsOf(GroupsOf(fs.f, t, i, j).ts)) && RepAll(s', ts')
    ensures CtxRep(s', fs.up, fs.f.id) && RepAll(s', Replaced(fs.f, t, i, j, ks', ts').kids)
  {
    var f, g := fs.f, GroupsOf(fs.f, t, i, j);
    var mid := IdsOf(g.ts);
    ReplaceIds(fs, t, i, j, ks', ts');
    var all := CtxIds(fs) + Ids(t);
    DistinctSub(CtxIds(fs.up) + mid, all);
    CtxRepOutside(s, s', fs.up, f.id, mid);
    GroupsStored(s, f, t, i, j);
    DistinctSub(multiset{f.id} + (IdsOf(g.l) + IdsOf(g.r)) + mid, all);
    SiblingsKept(s, s', f.id, g.l, g.r, mid);
    RowRep(s', f.id, g.kl, g.l, ks', ts', g.kr, g.r);
  }

  /** One repair step: the hole moves up one level. */
  lemma ReplaceOpen(s: seq<PageData>, s': seq<PageData>, root: PageId, fs: Ctx, t: Tree, i: nat, j: nat, ks': seq<int>, ts': seq<Tree>,
                    h: nat, lo: int, hi: int)
    requires fs.In? && Open(s, root, fs, t, h, lo, hi)
    requires i <= |fs.f.l| && j <= |fs.f.r|
    requires var g := GroupsOf(fs.f, t, i, j);
      Replaces(s, s', g.ks, g.ts, ks', ts', h, GapLow(g.kl, HoleLow(fs.up, lo)), GapHigh(g.kr, HoleHigh(fs.up, hi)))
    ensures var t' := Replaced(fs.f, t, i, j, ks', ts');
      && Open(s', root, fs.up, t', h + 1, lo, hi)
      && t'.Size() == |fs.f.kl| + |fs.f.kr| + |ks'| - (i + j)
      && EntriesOf(AllLeaves(fs.up, t')) == EntriesOf(AllLeaves(fs, t))
      && CtxIds(fs.up) + Ids(t') <= CtxIds(fs) + Ids(t)
      && (IdsOf(ts') == IdsOf(GroupsOf(fs.f, t, i, j).ts) ==> CtxIds(fs.up) + Ids(t') == CtxIds(fs) + Ids(t))
      && |s'| == |s| && Untouched(s, s', CtxIds(fs) + Ids(t))
  {
    var g := GroupsOf(fs.f, t, i, j);
    ReplaceWF(fs, t, i, j, s, s', ks', ts', h, lo, hi);
    ReplaceLeaves(fs, t, i, j, ks', ts');
    ReplaceStored(s, s', fs, t, i, j, ks', ts');
    ReplaceIds(fs, t, i, j, ks', ts');
    DistinctSub(CtxIds(fs.up) + Ids(Replaced(fs.f, t, i, j, ks', ts')), CtxIds(fs) + Ids(t));
    UntouchedMore(s, s', IdsOf(g.ts), CtxIds(fs) + Ids(t));
  }

  lemma UntouchedMore(s: seq<PageData>, s': seq<PageData>, a: multiset<PageId>, b: multiset<PageId>)
    requires Untouched(s, s', a) && a <= b
    ensures Untouched(s, s', b)
  {
  }

  /** Later steps stay within the pages of earlier ones. */
  lemma ClosedMore(s: seq<PageData>, s1: seq<PageData>, s2: seq<PageData>, root: PageId, t: Tree, h: nat, lo: int, hi: int,
                   es: seq<Entry>, ids1: multiset<PageId>, ids: multiset<PageId>)
    requires |s1| == |s| && Untouched(s, s1, ids) && ids1 <= ids
    requires Closed(s1, s2, root, t, h, lo, hi, es, ids1)
    ensures Closed(s, s2, root, t, h, lo, hi, es, ids)
  {
  }
}
