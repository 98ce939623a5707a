/** Root-to-node paths: the rest of a tree around one of its subtrees. */
module TreePath {
  import opened Storage
  import opened TreeModel

  /** A branch with one child taken out: `l` and `r` are the children on either
      side of the hole, with the separators next to them. */
  datatype Frame = Frame(id: PageId, kl: seq<int>, l: seq<Tree>, kr: seq<int>, r: seq<Tree>)

  /** The frames around a subtree, innermost first. */
  datatype Ctx = Top | In(f: Frame, up: Ctx)
  {
    function Depth(): nat {
      if Top? then 0 else 1 + up.Depth()
    }
  }

  ghost function HoleLow(fs: Ctx, lo: int): int {
    if fs.Top? then lo else GapLow(fs.f.kl, HoleLow(fs.up, lo))
  }

  ghost function HoleHigh(fs: Ctx, hi: int): int {
    if fs.Top? then hi else GapHigh(fs.f.kr, HoleHigh(fs.up, hi))
  }

  /** The surroundings of a hole at height `h` are well formed and fully occupied. */
  ghost predicate CtxWF(fs: Ctx, h: nat, lo: int, hi: int) {
    fs.Top? ||
    var f := fs.f;
    && CtxWF(fs.up, h + 1, lo, hi)
    && CellsLeft(f.kl, f.l, h, HoleLow(fs.up, lo))
    && CellsRight(f.kr, f.r, h, HoleHigh(fs.up, hi))
    && AllFull(f.l) && AllFull(f.r)
    && 1 <= |f.kl| + |f.kr| <= MAX_KEYS
    && (fs.up.In? ==> MIN_KEYS <= |f.kl| + |f.kr|)
  }

  function FrameNode(f: Frame, hole: PageId): Node {
    Node(false, f.kl + f.kr, [], TreeIds(f.l) + [hole] + TreeIds(f.r), NO_PAGE)
  }

  /** The surroundings are stored in `s`, with the page `hole` in the hole. */
  ghost predicate CtxRep(s: seq<PageData>, fs: Ctx, hole: PageId) {
    fs.Top? ||
    var f := fs.f;
    && f.id < |s|
    && s[f.id] == NodePage(FrameNode(f, hole))
    && RepAll(s, f.l) && RepAll(s, f.r)
    && CtxRep(s, fs.up, f.id)
  }

  ghost function CtxIds(fs: Ctx): multiset<PageId> {
    if fs.Top? then multiset{}
    else CtxIds(fs.up) + (multiset{fs.f.id} + (IdsOf(fs.f.l) + IdsOf(fs.f.r)))
  }

  ghost function CtxLeft(fs: Ctx): seq<LeafPage> {
    if fs.Top? then [] else CtxLeft(fs.up) + LeavesOf(fs.f.l)
  }

  ghost function CtxRight(fs: Ctx): seq<LeafPage> {
    if fs.Top? then [] else LeavesOf(fs.f.r) + CtxRight(fs.up)
  }

  ghost function RootId(fs: Ctx, hole: PageId): PageId {
    if fs.Top? then hole else RootId(fs.up, fs.f.id)
  }

  /** A branch whose children come in three groups. */
  function Row(id: PageId, kl: seq<int>, l: seq<Tree>, ks: seq<int>, ts: seq<Tree>, kr: seq<int>, r: seq<Tree>): Tree {
    Branch(id, kl + ks + kr, l + ts + r)
  }

  function Fill(f: Frame, t: Tree): Tree {
    Row(f.id, f.kl, f.l, [], [t], f.kr, f.r)
  }

  ghost function Plug(fs: Ctx, t: Tree): Tree {
    if fs.Top? then t else Plug(fs.up, Fill(fs.f, t))
  }

  ghost predicate RootOK(t: Tree) {
    t.Branch? ==> |t.seps| >= 1
  }

  /** The pages of `s` reachable from `root` form the B+ tree `t`. */
  ghost predicate TreeInv(s: seq<PageData>, root: PageId, t: Tree, h: nat, lo: int, hi: int) {
    && t.Id() == root
    && Cell(t, h, lo, hi)
    && RootOK(t)
    && Chain(Leaves(t), NO_PAGE)
    && Distinct(Ids(t))
    && Rep(s, t)
  }

  // ---------- Rows ----------

  lemma RowWF(id: PageId, kl: seq<int>, l: seq<Tree>, ks: seq<int>, ts: seq<Tree>, kr: seq<int>, r: seq<Tree>, h: nat, lo: int, hi: int)
    requires CellsLeft(kl, l, h, lo) && CellsRight(kr, r, h, hi)
    requires WFKids(ks, ts, h, GapLow(kl, lo), GapHigh(kr, hi))
    requires AllFull(l) && AllFull(ts) && AllFull(r)
    requires |kl| + |ks| + |kr| <= MAX_KEYS
    ensures Cell(Row(id, kl, l, ks, ts, kr, r), h + 1, lo, hi)
  {
    Join(kl, l, ks, ts, kr, r, h, lo, hi);
    SepsSorted(kl + ks + kr, l + ts + r, h, lo, hi);
  }

  lemma RowParts(id: PageId, kl: seq<int>, l: seq<Tree>, ks: seq<int>, ts: seq<Tree>, kr: seq<int>, r: seq<Tree>)
    ensures var t := Row(id, kl, l, ks, ts, kr, r);
      && Leaves(t) == LeavesOf(l) + LeavesOf(ts) + LeavesOf(r)
      && Ids(t) == multiset{id} + (IdsOf(l) + IdsOf(r)) + IdsOf(ts)
  {
    LeavesConcat(l + ts, r);
    LeavesConcat(l, ts);
    IdsConcat(l + ts, r);
    IdsConcat(l, ts);
  }

  lemma RowRep(s: seq<PageData>, id: PageId, kl: seq<int>, l: seq<Tree>, ks: seq<int>, ts: seq<Tree>, kr: seq<int>, r: seq<Tree>)
    requires RepAll(s, l) && RepAll(s, ts) && RepAll(s, r)
    ensures RepAll(s, Row(id, kl, l, ks, ts, kr, r).kids)
  {
  }

  lemma IdsSingle(t: Tree)
    ensures IdsOf([t]) == Ids(t)
  {
    assert [t][1..] == [];
    assert IdsOf([]) == multiset{};
  }

  lemma FillNode(f: Frame, t: Tree)
    ensures NodeOf(Fill(f, t)) == FrameNode(f, t.Id())
  {
    assert f.kl + [] + f.kr == f.kl + f.kr;
    assert TreeIds(f.l + [t] + f.r) == TreeIds(f.l) + [t.Id()] + TreeIds(f.r);
  }

  /** `t` fills the hole of the surroundings `fs`: all of it is well formed and stored in `s`. */
  ghost predicate Fits(s: seq<PageData>, fs: Ctx, t: Tree, h: nat, lo: int, hi: int) {
    && CtxWF(fs, h, lo, hi) && CtxRep(s, fs, t.Id())
    && Cell(t, h, HoleLow(fs, lo), HoleHigh(fs, hi)) && Rep(s, t)
    && if fs.Top? then RootOK(t) else t.Full()
  }

  /** Filling the innermost hole gives a tree that fits the next hole out. */
  lemma FillFits(s: seq<PageData>, fs: Ctx, t: Tree, h: nat, lo: int, hi: int)
    requires fs.In? && Fits(s, fs, t, h, lo, hi)
    ensures Fits(s, fs.up, Fill(fs.f, t), h + 1, lo, hi)
  {
    var f, fs' := fs.f, fs.up;
    assert WFKids([], [t], h, HoleLow(fs, lo), HoleHigh(fs, hi));
    RowWF(f.id, f.kl, f.l, [], [t], f.kr, f.r, h, HoleLow(fs', lo), HoleHigh(fs', hi));
    RowRep(s, f.id, f.kl, f.l, [], [t], f.kr, f.r);
    FillNode(f, t);
  }

  lemma FillParts(f: Frame, t: Tree)
    ensures Leaves(Fill(f, t)) == LeavesOf(f.l) + Leaves(t) + LeavesOf(f.r)
    ensures Ids(Fill(f, t)) == multiset{f.id} + (IdsOf(f.l) + IdsOf(f.r)) + Ids(t)
  {
    RowParts(f.id, f.kl, f.l, [], [t], f.kr, f.r);
    LeavesSingle(t);
    IdsSingle(t);
  }

  /** A tree plugged into well-formed surroundings is a well-formed tree. */
  lemma {:induction false} PlugFits(s: seq<PageData>, fs: Ctx, t: Tree, h: nat, lo: int, hi: int)
    requires Fits(s, fs, t, h, lo, hi)
    ensures Fits(s, Top, Plug(fs, t), h + fs.Depth(), lo, hi)
    decreases fs
  {
    hide Fits;
    if fs.In? {
      FillFits(s, fs, t, h, lo, hi);
      PlugFits(s, fs.up, Fill(fs.f, t), h + 1, lo, hi);
    }
  }

  lemma Regroup<T>(a: seq<T>, b: seq<T>, c: seq<T>, d: seq<T>, e: seq<T>)
    ensures a + (b + c + d) + e == (a + b) + c + (d + e)
  {
  }

  lemma {:induction false} PlugParts(fs: Ctx, t: Tree)
    ensures Plug(fs, t).Id() == RootId(fs, t.Id())
    ensures Leaves(Plug(fs, t)) == CtxLeft(fs) + Leaves(t) + CtxRight(fs)
    ensures Ids(Plug(fs, t)) == CtxIds(fs) + Ids(t)
    decreases fs
  {
    if fs.Top? {
      assert [] + Leaves(t) + [] == Leaves(t);
    } else {
      var f, fs' := fs.f, fs.up;
      FillParts(f, t);
      PlugParts(fs', Fill(f, t));
      Regroup(CtxLeft(fs'), LeavesOf(f.l), Leaves(t), LeavesOf(f.r), CtxRight(fs'));
    }
  }

  /** Going down one level: a branch is a frame around any of its children. */
  function FrameAt(t: Tree, i: nat): Frame
    requires t.Branch? && i < |t.kids| == |t.seps| + 1
  {
    Frame(t.bid, t.seps[..i], t.kids[..i], t.seps[i..], t.kids[i + 1..])
  }

  lemma FrameFill(t: Tree, i: nat)
    requires t.Branch? && i < |t.kids| == |t.seps| + 1
    ensures Fill(FrameAt(t, i), t.kids[i]) == t
  {
    assert t.seps[..i] + [] + t.seps[i..] == t.seps;
    assert t.kids[..i] + [t.kids[i]] + t.kids[i + 1..] == t.kids;
  }

  lemma Descend(s: seq<PageData>, fs: Ctx, t: Tree, i: nat, h: nat, lo: int, hi: int)
    requires t.Branch? && h > 0 && i < |t.kids| == |t.seps| + 1
    requires Fits(s, fs, t, h, lo, hi)
    ensures Fits(s, In(FrameAt(t, i), fs), t.kids[i], h - 1, lo, hi)
    ensures HoleLow(In(FrameAt(t, i), fs), lo) == LowBound(t.seps, HoleLow(fs, lo), i)
    ensures HoleHigh(In(FrameAt(t, i), fs), hi) == HighBound(t.seps, HoleHigh(fs, hi), i)
  {
    var f, c := FrameAt(t, i), t.kids[i];
    DescendWF(t, i, h, HoleLow(fs, lo), HoleHigh(fs, hi));
    FrameFill(t, i);
    FillNode(f, c);
    DescendRep(s, t, i);
  }

  lemma DescendWF(t: Tree, i: nat, h: nat, lo: int, hi: int)
    requires t.Branch? && h > 0 && i < |t.kids| == |t.seps| + 1
    requires WF(t, h, lo, hi)
    ensures var f, c := FrameAt(t, i), t.kids[i];
      && CellsLeft(f.kl, f.l, h - 1, lo) && CellsRight(f.kr, f.r, h - 1, hi)
      && AllFull(f.l) && AllFull(f.r) && c.Full()
      && GapLow(f.kl, lo) == LowBound(t.seps, lo, i) && GapHigh(f.kr, hi) == HighBound(t.seps, hi, i)
      && Cell(c, h - 1, GapLow(f.kl, lo), GapHigh(f.kr, hi))
  {
    var f, c := FrameAt(t, i), t.kids[i];
    FrameFill(t, i);
    assert WFKids(f.kl + [] + f.kr, f.l + [c] + f.r, h - 1, lo, hi);
    Cut(f.kl, f.l, [], [c], f.kr, f.r, h - 1, lo, hi);
    assert Cell(c, h - 1, LowBound(t.seps, lo, i), HighBound(t.seps, hi, i));
  }

  lemma DescendRep(s: seq<PageData>, t: Tree, i: nat)
    requires t.Branch? && i < |t.kids| == |t.seps| + 1
    requires Rep(s, t)
    ensures var f := FrameAt(t, i); RepAll(s, f.l) && Rep(s, t.kids[i]) && RepAll(s, f.r)
  {
  }

  lemma DescendPlug(fs: Ctx, t: Tree, i: nat)
    requires t.Branch? && i < |t.kids| == |t.seps| + 1
    ensures Plug(In(FrameAt(t, i), fs), t.kids[i]) == Plug(fs, t)
  {
    FrameFill(t, i);
  }

  // ---------- Keys outside the hole ----------

  /** Everything left of the hole is below it, everything right of it above. */
  lemma {:induction false} CtxEntries(fs: Ctx, h: nat, lo: int, hi: int)
    requires CtxWF(fs, h, lo, hi)
    requires lo < hi
    ensures forall e :: e in EntriesOf(CtxLeft(fs)) ==> e.key < HoleLow(fs, lo)
    ensures forall e :: e in EntriesOf(CtxRight(fs)) ==> HoleHigh(fs, hi) <= e.key
    ensures fs.Top? || (HoleLow(fs.up, lo) <= HoleLow(fs, lo) && HoleHigh(fs, hi) <= HoleHigh(fs.up, hi))
    decreases fs
  {
    if fs.In? {
      var f, fs' := fs.f, fs.up;
      CtxEntries(fs', h + 1, lo, hi);
      LeftBelow(f.kl, f.l, h, HoleLow(fs', lo));
      RightAbove(f.kr, f.r, h, HoleHigh(fs', hi));
      EntriesConcat(CtxLeft(fs'), LeavesOf(f.l));
      EntriesConcat(LeavesOf(f.r), CtxRight(fs'));
    }
  }

  lemma LeftBelow(ks: seq<int>, ts: seq<Tree>, h: nat, lo: int)
    requires CellsLeft(ks, ts, h, lo)
    ensures lo <= GapLow(ks, lo)
    ensures forall e :: e in EntriesOf(LeavesOf(ts)) ==> e.key < GapLow(ks, lo)
  {
    if ts != [] {
      var n := |ks| - 1;
      forall i | 0 <= i < |ts| ensures Cell(ts[i], h, LowBound(ks[..n], lo, i), HighBound(ks[..n], ks[n], i)) {
        assert Cell(ts[i], h, LowBound(ks, lo, i), ks[i]);
      }
      assert WFKids(ks[..n], ts, h, lo, ks[n]);
      EntriesKidsWF(ks[..n], ts, h, lo, ks[n]);
      SepsSorted(ks[..n], ts, h, lo, ks[n]);
    }
  }

  lemma RightAbove(ks: seq<int>, ts: seq<Tree>, h: nat, hi: int)
    requires CellsRight(ks, ts, h, hi)
    ensures GapHigh(ks, hi) <= hi
    ensures forall e :: e in EntriesOf(LeavesOf(ts)) ==> GapHigh(ks, hi) <= e.key
  {
    if ts != [] {
      forall i | 0 <= i < |ts| ensures Cell(ts[i], h, LowBound(ks[1..], ks[0], i), HighBound(ks[1..], hi, i)) {
        assert Cell(ts[i], h, ks[i], HighBound(ks, hi, i + 1));
      }
      assert WFKids(ks[1..], ts, h, ks[0], hi);
      EntriesKidsWF(ks[1..], ts, h, ks[0], hi);
      SepsSorted(ks[1..], ts, h, ks[0], hi);
    }
  }

  // ---------- Pages outside the hole ----------

  /** Writing pages that do not belong to the surroundings keeps them stored. */
  lemma {:induction false} CtxRepOutside(s: seq<PageData>, s': seq<PageData>, fs: Ctx, hole: PageId, touched: multiset<PageId>)
    requires CtxRep(s, fs, hole)
    requires |s| <= |s'| && forall x :: 0 <= x < |s| && x !in touched ==> s'[x] == s[x]
    requires Distinct(CtxIds(fs) + touched)
    ensures CtxRep(s', fs, hole)
    decreases fs
  {
    if fs.In? {
      var f := fs.f;
      var total := CtxIds(fs) + touched;
      assert total[f.id] <= 1;
      DistinctSub(touched + IdsOf(f.l), total);
      RepAllOutside(s, s', f.l, touched);
      DistinctSub(touched + IdsOf(f.r), total);
      RepAllOutside(s, s', f.r, touched);
      DistinctSub(CtxIds(fs.up) + touched, total);
      CtxRepOutside(s, s', fs.up, f.id, touched);
    }
  }

  /** Only an empty path has its hole at the root. */
  lemma {:induction false} RootInCtx(fs: Ctx, hole: PageId)
    requires fs.In?
    ensures RootId(fs, hole) in CtxIds(fs)
    decreases fs
  {
    if fs.up.In? {
      RootInCtx(fs.up, hole);
    }
  }

  lemma HoleAtRoot(fs: Ctx, hole: PageId, rest: multiset<PageId>)
    requires Distinct(CtxIds(fs) + (multiset{hole} + rest))
    ensures RootId(fs, hole) == hole <==> fs.Top?
  {
    if fs.In? {
      RootInCtx(fs, hole);
      assert (CtxIds(fs) + (multiset{hole} + rest))[hole] <= 1;
    }
  }
}
