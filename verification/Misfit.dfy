/** Writes of nodes that are too large for their pages, told from the pages that a repair leaves behind. */
module Misfits {
  import opened Storage
  import opened TreeModel
  import opened TreePath
  import opened TreeShrink
  import opened TreeRepair
  import opened NodeFit

  /** Page `x` holds a node that is too large for it. */
  ghost predicate Misfit(s: seq<PageData>, x: PageId) {
    x < |s| && s[x].NodePage? && !FitsPage(s[x].node)
  }

  /** Between `s` and `s'` the flag went from `o` to `o'`: it was raised only if one of the pages `ids` ended up with a node that
      is too large, and if it is still down then every page that changed holds a node that fits. */
  ghost predicate Flagged(s: seq<PageData>, s': seq<PageData>, o: bool, o': bool, ids: multiset<PageId>) {
    && |s'| == |s| && (o ==> o')
    && (o' && !o ==> exists x :: x in ids && Misfit(s', x))
    && (!o' ==> forall x :: 0 <= x < |s| && s'[x] != s[x] ==> !Misfit(s', x))
  }

  /** None of the pages holds a node that is too large. */
  ghost predicate AllFit(s: seq<PageData>, ids: multiset<PageId>) {
    forall x :: x in ids ==> !Misfit(s, x)
  }

  /** If all pages were in order before, the flag tells exactly whether they are afterwards. */
  lemma FlagExact(s: seq<PageData>, s': seq<PageData>, o: bool, o': bool, ids: multiset<PageId>, ids': multiset<PageId>)
    requires Flagged(s, s', o, o', ids') && AllFit(s, ids) && forall x :: x in ids' ==> x in ids
    ensures o' <==> o || !AllFit(s', ids')
  {
    hide FitsPage;
    if !o' {
      forall x | x in ids' ensures !Misfit(s', x) {
        if x < |s| && s'[x] == s[x] {
          assert !Misfit(s, x);
        }
      }
    }
  }

  /** The pages below the top of `t` are as before. */
  ghost predicate KeptBelow(s: seq<PageData>, s': seq<PageData>, t: Tree) {
    t.Branch? ==> Agree(s, s', IdsOf(t.kids))
  }

  lemma FlaggedTrans(s0: seq<PageData>, s1: seq<PageData>, s2: seq<PageData>, o0: bool, o1: bool, o2: bool,
                     below: multiset<PageId>, ids: multiset<PageId>)
    requires Flagged(s0, s1, o0, o1, below) && Flagged(s1, s2, o1, o2, ids)
    requires Agree(s1, s2, below) && forall x :: x in below ==> x in ids
    ensures Flagged(s0, s2, o0, o2, ids)
  {
    hide FitsPage;
    if o1 && !o0 {
      var x :| x in below && Misfit(s1, x);
      assert x in ids && Misfit(s2, x);
    }
    if !o2 {
      forall x | 0 <= x < |s0| && s2[x] != s0[x] ensures !Misfit(s2, x) {
        if s2[x] == s1[x] {
          assert !Misfit(s1, x);
        }
      }
    }
  }

  lemma FlaggedNone(s: seq<PageData>, o: bool, ids: multiset<PageId>)
    ensures Flagged(s, s, o, o, ids)
  {
  }

  lemma FlaggedOne(s: seq<PageData>, s': seq<PageData>, a: PageId, na: Node, o: bool, ids: multiset<PageId>)
    requires a < |s| && s' == s[a := NodePage(na)] && a in ids
    ensures Flagged(s, s', o, o || !FitsPage(na), ids)
  {
    hide FitsPage;
    assert !FitsPage(na) ==> Misfit(s', a);
  }

  lemma FlaggedTwo(s: seq<PageData>, s': seq<PageData>, a: PageId, na: Node, b: PageId, nb: Node, o: bool, ids: multiset<PageId>)
    requires a < |s| && b < |s| && a != b && s' == s[a := NodePage(na)][b := NodePage(nb)] && a in ids && b in ids
    ensures Flagged(s, s', o, o || !FitsPage(na) || !FitsPage(nb), ids)
  {
    hide FitsPage;
    assert !FitsPage(na) ==> Misfit(s', a);
    assert !FitsPage(nb) ==> Misfit(s', b);
  }

  lemma FlaggedThree(s: seq<PageData>, s': seq<PageData>, a: PageId, na: Node, b: PageId, nb: Node, c: PageId, nc: Node,
                     o: bool, ids: multiset<PageId>)
    requires a < |s| && b < |s| && c < |s| && a != b && a != c && b != c && a in ids && b in ids && c in ids
    requires s' == s[a := NodePage(na)][b := NodePage(nb)][c := NodePage(nc)]
    ensures Flagged(s, s', o, o || !FitsPage(na) || !FitsPage(nb) || !FitsPage(nc), ids)
  {
    hide FitsPage;
    assert !FitsPage(na) ==> Misfit(s', a);
    assert !FitsPage(nb) ==> Misfit(s', b);
    assert !FitsPage(nc) ==> Misfit(s', c);
  }

  // ---------- The pages that a repair writes ----------

  ghost function KidIdsOf(t: Tree): multiset<PageId> {
    if t.Leaf? then multiset{} else IdsOf(t.kids)
  }

  lemma TopAndKids(t: Tree)
    ensures Ids(t) == multiset{t.Id()} + KidIdsOf(t)
  {
    assert multiset{t.Id()} + multiset{} == multiset{t.Id()};
  }

  /** The top page in the hole, the parent page and the page of a neighbour are three, and none of them is below the hole. */
  lemma Apart3(s: seq<PageData>, root: PageId, fs: Ctx, t: Tree, h: nat, lo: int, hi: int)
    requires Open(s, root, fs, t, h, lo, hi)
    ensures t.Id() in CtxIds(fs) + Ids(t) && t.Id() !in KidIdsOf(t)
    ensures fs.In? ==> fs.f.id != t.Id() && fs.f.id in CtxIds(fs) + Ids(t) && fs.f.id !in KidIdsOf(t)
    ensures fs.In? && fs.f.l != [] ==> var x := Last(fs.f.l).Id();
      x != t.Id() && x != fs.f.id && x in CtxIds(fs) + Ids(t) && x !in KidIdsOf(t)
    ensures fs.In? && fs.f.r != [] ==> var x := fs.f.r[0].Id();
      x != t.Id() && x != fs.f.id && x in CtxIds(fs) + Ids(t) && x !in KidIdsOf(t)
  {
    OpenDistinct(s, root, fs, t, h, lo, hi);
    TopAndKids(t);
    hide *;
    TopApart(CtxIds(fs), t.Id(), KidIdsOf(t));
    if fs.In? {
      NearIds(fs.f.l);
      NearIds(fs.f.r);
      CtxIdsMeans(fs);
      NearApart(CtxIds(fs.up), fs.f.id, IdsOf(fs.f.l), IdsOf(fs.f.r), t.Id(), KidIdsOf(t));
    }
  }

  lemma OpenDistinct(s: seq<PageData>, root: PageId, fs: Ctx, t: Tree, h: nat, lo: int, hi: int)
    requires Open(s, root, fs, t, h, lo, hi)
    ensures Distinct(CtxIds(fs) + Ids(t))
  {
  }

  lemma CtxIdsMeans(fs: Ctx)
    requires fs.In?
    ensures CtxIds(fs) == CtxIds(fs.up) + (multiset{fs.f.id} + (IdsOf(fs.f.l) + IdsOf(fs.f.r)))
  {
  }

  lemma TopApart(rest: multiset<PageId>, x: PageId, kids: multiset<PageId>)
    requires Distinct(rest + (multiset{x} + kids))
    ensures x in rest + (multiset{x} + kids) && x !in kids
  {
    assert (rest + (multiset{x} + kids))[x] <= 1;
  }

  lemma NearApart(up: multiset<PageId>, f: PageId, l: multiset<PageId>, r: multiset<PageId>, t: PageId, kids: multiset<PageId>)
    requires Distinct(up + (multiset{f} + (l + r)) + (multiset{t} + kids))
    ensures f != t && f in up + (multiset{f} + (l + r)) + (multiset{t} + kids) && f !in kids
    ensures forall x :: x in l || x in r ==> x != t && x != f && x in up + (multiset{f} + (l + r)) + (multiset{t} + kids) && x !in kids
  {
    var all := up + (multiset{f} + (l + r)) + (multiset{t} + kids);
    assert all[f] <= 1;
    forall x | x in l || x in r ensures x != t && x != f && x in all && x !in kids {
      assert all[x] <= 1;
    }
  }

  lemma KeptKids(s: seq<PageData>, s': seq<PageData>, t: Tree, written: multiset<PageId>)
    requires |s'| == |s| && (forall x :: 0 <= x < |s| && x !in written ==> s'[x] == s[x])
    requires forall x :: x in written ==> x !in KidIdsOf(t)
    ensures KeptBelow(s, s', t)
  {
  }

  /** A repair that writes the top of the hole only. */
  lemma TopWritten(s: seq<PageData>, s': seq<PageData>, root: PageId, fs: Ctx, t: Tree, h: nat, lo: int, hi: int, node: Node, o: bool)
    requires Open(s, root, fs, t, h, lo, hi) && t.Id() < |s| && s' == s[t.Id() := NodePage(node)]
    ensures KeptBelow(s, s', t) && Flagged(s, s', o, o || !FitsPage(node), CtxIds(fs) + Ids(t))
  {
    hide *;
    Apart3(s, root, fs, t, h, lo, hi);
    KeptKids(s, s', t, multiset{t.Id()});
    FlaggedOne(s, s', t.Id(), node, o, CtxIds(fs) + Ids(t));
  }

  /** One that writes the parent too. */
  lemma ParentWritten(s: seq<PageData>, s': seq<PageData>, root: PageId, fs: Ctx, t: Tree, h: nat, lo: int, hi: int,
                      node: Node, parent: Node, o: bool)
    requires fs.In? && Open(s, root, fs, t, h, lo, hi) && t.Id() < |s| && fs.f.id < |s|
    requires s' == s[t.Id() := NodePage(node)][fs.f.id := NodePage(parent)]
    ensures KeptBelow(s, s', t) && Flagged(s, s', o, o || !FitsPage(node) || !FitsPage(parent), CtxIds(fs) + Ids(t))
  {
    hide *;
    Apart3(s, root, fs, t, h, lo, hi);
    KeptKids(s, s', t, multiset{t.Id(), fs.f.id});
    FlaggedTwo(s, s', t.Id(), node, fs.f.id, parent, o, CtxIds(fs) + Ids(t));
  }

  /** One that writes a neighbour as well. */
  lemma NeighbourWritten(s: seq<PageData>, s': seq<PageData>, root: PageId, fs: Ctx, t: Tree, h: nat, lo: int, hi: int,
                         x: PageId, near: Node, node: Node, parent: Node, o: bool)
    requires fs.In? && Open(s, root, fs, t, h, lo, hi) && t.Id() < |s| && fs.f.id < |s| && x < |s|
    requires (fs.f.l != [] && x == Last(fs.f.l).Id()) || (fs.f.r != [] && x == fs.f.r[0].Id())
    requires s' == s[x := NodePage(near)][t.Id() := NodePage(node)][fs.f.id := NodePage(parent)]
    ensures KeptBelow(s, s', t)
    ensures Flagged(s, s', o, o || !FitsPage(near) || !FitsPage(node) || !FitsPage(parent), CtxIds(fs) + Ids(t))
  {
    hide *;
    Apart3(s, root, fs, t, h, lo, hi);
    KeptKids(s, s', t, multiset{x, t.Id(), fs.f.id});
    FlaggedThree(s, s', x, near, t.Id(), node, fs.f.id, parent, o, CtxIds(fs) + Ids(t));
  }

  /** A merge writes the page that takes up everything: the left neighbour if there is one. */
  lemma MergeWritten(s: seq<PageData>, s': seq<PageData>, root: PageId, fs: Ctx, t: Tree, pt: Tree, h: nat, lo: int, hi: int,
                     x: PageId, node: Node, o: bool)
    requires fs.In? && Open(s, root, fs, t, h, lo, hi) && x < |s| && s' == s[x := NodePage(node)]
    requires |fs.f.kl| == |fs.f.l| && |fs.f.kr| == |fs.f.r| && (fs.f.l != [] || fs.f.r != [])
    requires x == (if fs.f.l != [] then Last(fs.f.l).Id() else t.Id()) && pt == Pooled(fs.f, t) && pt.Branch?
    ensures KeptBelow(s, s', t) && Flagged(s, s', o, o || !FitsPage(node), IdsOf(pt.kids))
  {
    hide *;
    Apart3(s, root, fs, t, h, lo, hi);
    PooledHolds(fs.f, t);
    KeptKids(s, s', t, multiset{x});
    FlaggedOne(s, s', x, node, o, IdsOf(pt.kids));
  }

  lemma PooledHolds(f: Frame, t: Tree)
    requires |f.kl| == |f.l| && |f.kr| == |f.r| && (f.l != [] || f.r != [])
    ensures Pooled(f, t).Branch?
    ensures (if f.l != [] then Last(f.l).Id() else t.Id()) in IdsOf(Pooled(f, t).kids)
  {
    hide Ids, IdsOf;
    if f.l != [] {
      FusedBelow(f, t, 1, 0, Fuse(Last(f.l), Last(f.kl), t));
    } else {
      FusedBelow(f, t, 0, 1, Fuse(t, f.kr[0], f.r[0]));
    }
  }
}
