/** What insertion does to the pages of a subtree. */
module TreeGrowth {
  import opened Storage
  import opened EntryList
  import opened TreeModel
  import opened TreePath

  /** The subtree `t`, stored in `s`, became the run `ts` separated by `ks`, stored in `s'`.
      The run fills the same key range, keeps its place in the leaf chain, uses the old pages
      and fresh ones, and nothing else changed. */
  ghost predicate Grown(s: seq<PageData>, s': seq<PageData>, t: Tree, ks: seq<int>, ts: seq<Tree>,
                        h: nat, lo: int, hi: int, after: PageId)
  {
    && WFKids(ks, ts, h, lo, hi) && 1 <= |ts| <= 2
    && (t.Full() || |ts| == 2 ==> AllFull(ts))
    && (|ts| == 1 ==> t.Size() <= ts[0].Size())
    && ts[0].Id() == t.Id()
    && RepAll(s', ts)
    && Chain(LeavesOf(ts), after)
    && FirstLeaf(LeavesOf(ts)) == FirstLeaf(Leaves(t))
    && Distinct(IdsOf(ts))
    && (forall x :: x in IdsOf(ts) ==> x in Ids(t) || |s| <= x)
    && (forall x :: x in Ids(t) ==> x in IdsOf(ts))
    && Untouched(s, s', Ids(t))
  }

  /** Pages outside `ids` that exist in `s` are the same in `s'`. */
  ghost predicate Untouched(s: seq<PageData>, s': seq<PageData>, ids: multiset<PageId>) {
    |s| <= |s'| && forall x :: 0 <= x < |s| && x !in ids ==> s'[x] == s[x]
  }

  function FirstLeaf(ls: seq<LeafPage>): Option<PageId> {
    if ls == [] then None else Some(ls[0].id)
  }

  function Or(o: Option<PageId>, d: PageId): PageId {
    if o.Some? then o.value else d
  }

  lemma ChainConcat(a: seq<LeafPage>, b: seq<LeafPage>, after: PageId)
    ensures Chain(a + b, after) <==> Chain(a, Or(FirstLeaf(b), after)) && Chain(b, after)
  {
    var c := a + b;
    forall i | 0 <= i < |c| ensures ChainedAt(c, i, after) ==
      if i < |a| then ChainedAt(a, i, Or(FirstLeaf(b), after)) else ChainedAt(b, i - |a|, after)
    {
      if i < |a| {
        assert c[i] == a[i];
        assert i + 1 < |c| ==> c[i + 1] == if i + 1 < |a| then a[i + 1] else b[0];
      } else {
        assert c[i] == b[i - |a|];
        assert i + 1 < |c| ==> c[i + 1] == b[i - |a| + 1];
      }
    }
    forall i | 0 <= i < |b| ensures ChainedAt(c, |a| + i, after) == ChainedAt(b, i, after) {
    }
  }

  /** Every tree has a leaf. */
  lemma {:induction false} LeavesNonEmpty(t: Tree, h: nat, lo: int, hi: int)
    requires WF(t, h, lo, hi)
    ensures Leaves(t) != []
    decreases h
  {
    if t.Branch? {
      assert Cell(t.kids[0], h - 1, LowBound(t.seps, lo, 0), HighBound(t.seps, hi, 0));
      LeavesNonEmpty(t.kids[0], h - 1, lo, HighBound(t.seps, hi, 0));
    }
  }

  /** Replacing some ids by others that are old or fresh keeps the ids distinct. */
  lemma DistinctSwap(rest: multiset<PageId>, old_: multiset<PageId>, new_: multiset<PageId>, n: nat)
    requires Distinct(rest + old_) && Distinct(new_)
    requires forall x :: x in rest ==> x < n
    requires forall x :: x in new_ ==> x in old_ || n <= x
    ensures Distinct(rest + new_)
  {
    forall x ensures (rest + new_)[x] <= 1 {
      assert (rest + old_)[x] <= 1;
    }
  }

  /** The leaf chain around a child and inside it. */
  lemma ChainSwap(l: seq<LeafPage>, c: seq<LeafPage>, c': seq<LeafPage>, r: seq<LeafPage>, after: PageId)
    requires Chain(l + c + r, after)
    requires Chain(c', Or(FirstLeaf(r), after))
    requires FirstLeaf(c') == FirstLeaf(c) && c != [] && c' != []
    ensures Chain(l + c' + r, after) && FirstLeaf(l + c' + r) == FirstLeaf(l + c + r)
  {
    ChainConcat(l + c, r, after);
    ChainConcat(l, c, Or(FirstLeaf(r), after));
    ChainConcat(l, c', Or(FirstLeaf(r), after));
    ChainConcat(l + c', r, after);
  }

  // ---------- Leaves ----------

  /** A leaf page that got one more pointer. */
  function InsertedLeaf(l: LeafPage, k: int, p: RowPointer): LeafPage
    requires Sorted(l.es)
  {
    LeafPage(l.id, InsertEntry(l.es, k, p), l.next)
  }

  lemma LeafRun(l: LeafPage)
    ensures LeavesOf([Leaf(l)]) == [l] && IdsOf([Leaf(l)]) == multiset{l.id}
    ensures Leaves(Leaf(l)) == [l] && Ids(Leaf(l)) == multiset{l.id} && EntriesOf([l]) == l.es
  {
    LeavesSingle(Leaf(l));
    IdsSingle(Leaf(l));
    EntriesLeaf(l);
  }

  lemma TwoLeafRun(a: LeafPage, b: LeafPage)
    ensures LeavesOf([Leaf(a), Leaf(b)]) == [a, b]
    ensures IdsOf([Leaf(a), Leaf(b)]) == multiset{a.id, b.id}
    ensures EntriesOf([a, b]) == a.es + b.es
  {
    LeafRun(a);
    LeafRun(b);
    assert [Leaf(a), Leaf(b)] == [Leaf(a)] + [Leaf(b)] && [a, b] == [a] + [b];
    LeavesConcat([Leaf(a)], [Leaf(b)]);
    IdsConcat([Leaf(a)], [Leaf(b)]);
    EntriesConcat([a], [b]);
  }

  lemma GrownLeaf(s: seq<PageData>, s': seq<PageData>, l: LeafPage, l': LeafPage, lo: int, hi: int, after: PageId)
    requires Cell(Leaf(l'), 0, lo, hi)
    requires l'.id == l.id && l'.next == after && |l.es| <= |l'.es|
    requires l.id < |s| && s' == s[l.id := NodePage(NodeOf(Leaf(l')))]
    ensures Grown(s, s', Leaf(l), [], [Leaf(l')], 0, lo, hi, after)
    ensures EntriesOf(LeavesOf([Leaf(l')])) == l'.es
  {
    LeafRun(l);
    LeafRun(l');
  }

  /** Entries divided over two leaves. */
  lemma LeafDivide(a: LeafPage, b: LeafPage, lo: int, hi: int)
    requires lo < hi && a.es != [] && b.es != []
    requires Sorted(a.es + b.es) && Within(a.es + b.es, lo, hi) && NoneEmpty(a.es + b.es)
    requires |a.es| <= MAX_KEYS && |b.es| <= MAX_KEYS
    ensures WFKids([b.es[0].key], [Leaf(a), Leaf(b)], 0, lo, hi)
  {
    var es, m := a.es + b.es, b.es[0].key;
    assert es[|a.es|] == b.es[0] && es[0] == a.es[0];
    forall i | 0 <= i < |a.es| ensures lo <= a.es[i].key < m && a.es[i].ptrs != [] {
      assert es[i] == a.es[i];
    }
    forall i | 0 <= i < |b.es| ensures m <= b.es[i].key < hi && b.es[i].ptrs != [] {
      assert es[|a.es| + i] == b.es[i];
    }
    LeafSorted(a.es, b.es);
    assert Cell(Leaf(a), 0, lo, m) && Cell(Leaf(b), 0, m, hi);
  }

  lemma LeafSorted(a: seq<Entry>, b: seq<Entry>)
    requires Sorted(a + b)
    ensures Sorted(a) && Sorted(b)
  {
    forall i, j | 0 <= i < j < |a| ensures a[i].key < a[j].key {
      assert (a + b)[i] == a[i] && (a + b)[j] == a[j];
    }
    forall i, j | 0 <= i < j < |b| ensures b[i].key < b[j].key {
      assert (a + b)[|a| + i] == b[i] && (a + b)[|a| + j] == b[j];
    }
  }

  lemma GrownLeafSplit(s: seq<PageData>, s': seq<PageData>, l: LeafPage, a: LeafPage, b: LeafPage, lo: int, hi: int, after: PageId)
    requires MIN_KEYS <= |a.es| && MIN_KEYS <= |b.es|
    requires WFKids([b.es[0].key], [Leaf(a), Leaf(b)], 0, lo, hi)
    requires a.id == l.id && b.id == |s| && a.next == b.id && b.next == after && l.id < |s|
    requires s' == s[l.id := NodePage(NodeOf(Leaf(a)))] + [NodePage(NodeOf(Leaf(b)))]
    ensures Grown(s, s', Leaf(l), [b.es[0].key], [Leaf(a), Leaf(b)], 0, lo, hi, after)
    ensures EntriesOf(LeavesOf([Leaf(a), Leaf(b)])) == a.es + b.es
  {
    LeafRun(l);
    TwoLeafRun(a, b);
  }

  /** Insertion as the key and value lists of the leaf page see it. */
  lemma InsertedLeafNode(l: LeafPage, key: int, p: RowPointer)
    requires Sorted(l.es)
    ensures var ks, vs, es := Keys(l.es), Vals(l.es), InsertEntry(l.es, key, p);
      var i := BisectLeft(ks, key);
      if i < |ks| && ks[i] == key then Keys(es) == ks && Vals(es) == vs[i := vs[i] + [p]]
      else Keys(es) == ks[..i] + [key] + ks[i..] && Vals(es) == vs[..i] + [[p]] + vs[i..]
  {
    hide InsertEntry, Sorted, BisectLeft;
    var i, ps, j := InsertEntryShape(l.es, key, p);
    if j == i {
      assert i < |l.es| ==> l.es[j..][0].key != key;
      assert ps + [p] == [p];
      NewEntryLists(l.es, i, Entry(key, [p]));
    } else {
      ChangedEntryLists(l.es, i, Entry(key, ps + [p]));
    }
  }

  lemma NewEntryLists(es: seq<Entry>, i: nat, e: Entry)
    requires i <= |es|
    ensures Keys(es[..i] + [e] + es[i..]) == Keys(es)[..i] + [e.key] + Keys(es)[i..]
    ensures Vals(es[..i] + [e] + es[i..]) == Vals(es)[..i] + [e.ptrs] + Vals(es)[i..]
  {
    hide *;
    KeysConcat(es[..i], e, es[i..]);
    KeysPrefix(es, i);
    KeysSuffix(es, i);
  }

  lemma ChangedEntryLists(es: seq<Entry>, i: nat, e: Entry)
    requires i < |es| && es[i].key == e.key
    ensures Keys(es[..i] + [e] + es[i + 1..]) == Keys(es)
    ensures Vals(es[..i] + [e] + es[i + 1..]) == Vals(es)[i := e.ptrs]
  {
    hide *;
    KeysConcat(es[..i], e, es[i + 1..]);
    KeysPrefix(es, i);
    KeysSuffix(es, i + 1);
    ReplaceMiddle(Keys(es), i, e.key);
    ReplaceMiddle(Vals(es), i, e.ptrs);
  }

  lemma ReplaceMiddle<T>(s: seq<T>, i: nat, x: T)
    requires i < |s|
    ensures s[..i] + [x] + s[i + 1..] == s[i := x]
  {
  }

  lemma InsertedLeafCell(l: LeafPage, key: int, p: RowPointer, lo: int, hi: int)
    requires Cell(Leaf(l), 0, lo, hi) && lo <= key < hi
    ensures var l' := InsertedLeaf(l, key, p);
      && |l.es| <= |l'.es| <= |l.es| + 1
      && Sorted(l'.es) && Within(l'.es, lo, hi) && NoneEmpty(l'.es)
  {
    InsertEntryWF(l.es, key, p, lo, hi);
  }

  /** The two leaf pages that an overfull leaf is divided into. */
  function LeafHalves(l: LeafPage, m: nat, id: PageId): (LeafPage, LeafPage)
    requires m <= |l.es|
  {
    (LeafPage(l.id, l.es[..m], id), LeafPage(id, l.es[m..], l.next))
  }

  lemma LeafHalvesNodes(l: LeafPage, m: nat, id: PageId)
    requires m < |l.es|
    ensures var (a, b) := LeafHalves(l, m, id); var n := NodeOf(Leaf(l));
      && NodeOf(Leaf(a)) == Node(true, n.keys[..m], n.values[..m], [], id)
      && NodeOf(Leaf(b)) == Node(true, n.keys[m..], n.values[m..], [], l.next)
      && b.es[0].key == n.keys[m] && a.es + b.es == l.es
  {
    var (a, b) := LeafHalves(l, m, id);
    var n := NodeOf(Leaf(l));
    assert Keys(a.es) == n.keys[..m] && Vals(a.es) == n.values[..m];
    assert Keys(b.es) == n.keys[m..] && Vals(b.es) == n.values[m..];
  }

  lemma GrownLeafHalves(s: seq<PageData>, s': seq<PageData>, l: LeafPage, l': LeafPage, m: nat, lo: int, hi: int)
    requires l.id < |s| && l'.id == l.id && l'.next == l.next && lo < hi
    requires Sorted(l'.es) && Within(l'.es, lo, hi) && NoneEmpty(l'.es)
    requires MIN_KEYS <= m <= MAX_KEYS && MIN_KEYS <= |l'.es| - m <= MAX_KEYS
    requires var (a, b) := LeafHalves(l', m, |s|);
      s' == s[l.id := NodePage(NodeOf(Leaf(a)))] + [NodePage(NodeOf(Leaf(b)))]
    ensures var (a, b) := LeafHalves(l', m, |s|);
      && Grown(s, s', Leaf(l), [b.es[0].key], [Leaf(a), Leaf(b)], 0, lo, hi, l.next)
      && EntriesOf(LeavesOf([Leaf(a), Leaf(b)])) == l'.es
  {
    var (a, b) := LeafHalves(l', m, |s|);
    assert a.es + b.es == l'.es;
    LeafDivide(a, b, lo, hi);
    GrownLeafSplit(s, s', l, a, b, lo, hi, l.next);
  }

  // ---------- Branches ----------

  /** The children of branch `t` became the row `tt`; the page of `t` itself is yet to be written. */
  ghost predicate RowReady(s: seq<PageData>, s': seq<PageData>, t: Tree, kk: seq<int>, tt: seq<Tree>,
                           h: nat, lo: int, hi: int, after: PageId)
  {
    && t.Branch? && |t.seps| <= |kk|
    && WFKids(kk, tt, h, lo, hi) && AllFull(tt)
    && RepAll(s', tt)
    && Chain(LeavesOf(tt), after)
    && FirstLeaf(LeavesOf(tt)) == FirstLeaf(Leaves(t))
    && Distinct(multiset{t.bid} + IdsOf(tt))
    && (forall x :: x in IdsOf(tt) ==> x in Ids(t) || |s| <= x)
    && (forall x :: x in Ids(t) ==> x == t.bid || x in IdsOf(tt))
    && Untouched(s, s', Ids(t))
    && t.bid < |s| && s'[t.bid] == s[t.bid]
  }

  /** How a branch splits into the groups around child `i`. */
  ghost predicate AroundChild(t: Tree, i: nat, kl: seq<int>, l: seq<Tree>, c: Tree, kr: seq<int>, r: seq<Tree>) {
    && t.Branch? && i < |t.kids| == |t.seps| + 1
    && kl == t.seps[..i] && l == t.kids[..i] && c == t.kids[i] && kr == t.seps[i..] && r == t.kids[i + 1..]
  }

  lemma AroundChildParts(t: Tree, i: nat, kl: seq<int>, l: seq<Tree>, c: Tree, kr: seq<int>, r: seq<Tree>)
    requires AroundChild(t, i, kl, l, c, kr, r)
    ensures Leaves(t) == LeavesOf(l) + Leaves(c) + LeavesOf(r)
    ensures Ids(t) == multiset{t.bid} + (IdsOf(l) + IdsOf(r)) + Ids(c)
  {
    FrameFill(t, i);
    FillParts(FrameAt(t, i), c);
  }

  lemma AroundChildWF(s: seq<PageData>, t: Tree, i: nat, kl: seq<int>, l: seq<Tree>, c: Tree, kr: seq<int>, r: seq<Tree>,
                      h: nat, lo: int, hi: int, after: PageId)
    requires AroundChild(t, i, kl, l, c, kr, r)
    requires h > 0 && Cell(t, h, lo, hi) && Rep(s, t) && Distinct(Ids(t)) && Chain(Leaves(t), after)
    ensures Cell(c, h - 1, GapLow(kl, lo), GapHigh(kr, hi)) && c.Full()
    ensures Rep(s, c) && Distinct(Ids(c)) && Chain(Leaves(c), Or(FirstLeaf(LeavesOf(r)), after))
  {
    DescendWF(t, i, h, lo, hi);
    DescendRep(s, t, i);
    AroundChildParts(t, i, kl, l, c, kr, r);
    DistinctSub(Ids(c), Ids(t));
    ChainConcat(LeavesOf(l) + Leaves(c), LeavesOf(r), after);
    ChainConcat(LeavesOf(l), Leaves(c), Or(FirstLeaf(LeavesOf(r)), after));
  }

  lemma GrownRow(s: seq<PageData>, s': seq<PageData>, t: Tree, i: nat, kl: seq<int>, l: seq<Tree>, c: Tree, kr: seq<int>, r: seq<Tree>,
                 ks: seq<int>, ts: seq<Tree>, h: nat, lo: int, hi: int, after: PageId)
    requires AroundChild(t, i, kl, l, c, kr, r)
    requires h > 0 && Cell(t, h, lo, hi) && Rep(s, t) && Distinct(Ids(t)) && Chain(Leaves(t), after)
    requires Grown(s, s', c, ks, ts, h - 1, GapLow(kl, lo), GapHigh(kr, hi), Or(FirstLeaf(LeavesOf(r)), after))
    ensures RowReady(s, s', t, kl + ks + kr, l + ts + r, h - 1, lo, hi, after)
  {
    DescendWF(t, i, h, lo, hi);
    assert WFKids(kl + ks + kr, l + ts + r, h - 1, lo, hi) && AllFull(l + ts + r) by {
      Join(kl, l, ks, ts, kr, r, h - 1, lo, hi);
    }
    GrownRowStored(s, s', t, i, kl, l, c, kr, r, ts);
    GrownRowIds(s, s', t, i, kl, l, c, kr, r, ts);
    GrownRowChain(s, s', t, i, kl, l, c, kr, r, ks, ts, h, lo, hi, after);
  }

  lemma GrownRowChain(s: seq<PageData>, s': seq<PageData>, t: Tree, i: nat, kl: seq<int>, l: seq<Tree>, c: Tree, kr: seq<int>, r: seq<Tree>,
                      ks: seq<int>, ts: seq<Tree>, h: nat, lo: int, hi: int, after: PageId)
    requires AroundChild(t, i, kl, l, c, kr, r)
    requires h > 0 && Cell(t, h, lo, hi) && Chain(Leaves(t), after)
    requires Grown(s, s', c, ks, ts, h - 1, GapLow(kl, lo), GapHigh(kr, hi), Or(FirstLeaf(LeavesOf(r)), after))
    ensures Chain(LeavesOf(l + ts + r), after)
    ensures FirstLeaf(LeavesOf(l + ts + r)) == FirstLeaf(Leaves(t))
  {
    DescendWF(t, i, h, lo, hi);
    LeavesNonEmpty(c, h - 1, GapLow(kl, lo), GapHigh(kr, hi));
    AroundChildParts(t, i, kl, l, c, kr, r);
    RowParts(0, kl, l, ks, ts, kr, r);
    ChainSwap(LeavesOf(l), Leaves(c), LeavesOf(ts), LeavesOf(r), after);
  }

  lemma GrownRowStored(s: seq<PageData>, s': seq<PageData>, t: Tree, i: nat, kl: seq<int>, l: seq<Tree>, c: Tree, kr: seq<int>, r: seq<Tree>,
                       ts: seq<Tree>)
    requires AroundChild(t, i, kl, l, c, kr, r)
    requires Rep(s, t) && Distinct(Ids(t))
    requires RepAll(s', ts) && Untouched(s, s', Ids(c))
    ensures RepAll(s', l + ts + r)
    ensures Untouched(s, s', Ids(t))
    ensures t.bid < |s| && s'[t.bid] == s[t.bid]
  {
    AroundChildParts(t, i, kl, l, c, kr, r);
    DescendRep(s, t, i);
    SiblingsKept(s, s', t.bid, l, r, Ids(c));
    RowRep(s', 0, [], l, [], ts, [], r);
    assert (multiset{t.bid} + (IdsOf(l) + IdsOf(r)) + Ids(c))[t.bid] <= 1;
  }

  lemma GrownRowIds(s: seq<PageData>, s': seq<PageData>, t: Tree, i: nat, kl: seq<int>, l: seq<Tree>, c: Tree, kr: seq<int>, r: seq<Tree>,
                    ts: seq<Tree>)
    requires AroundChild(t, i, kl, l, c, kr, r)
    requires Rep(s, t) && Distinct(Ids(t)) && |s| <= |s'|
    requires RepAll(s', ts) && Distinct(IdsOf(ts))
    requires forall x :: x in IdsOf(ts) ==> x in Ids(c) || |s| <= x
    requires forall x :: x in Ids(c) ==> x in IdsOf(ts)
    ensures var ids := IdsOf(l + ts + r);
      && Distinct(multiset{t.bid} + ids)
      && (forall x :: x in ids ==> x in Ids(t) || |s| <= x)
      && (forall x :: x in Ids(t) ==> x == t.bid || x in ids)
  {
    AroundChildParts(t, i, kl, l, c, kr, r);
    IdsAllocated(s, t);
    IdsThree(l, ts, r);
    SwapKidIds(Ids(t), t.bid, IdsOf(l) + IdsOf(r), Ids(c), IdsOf(ts), IdsOf(l + ts + r), |s|);
  }

  lemma IdsThree(l: seq<Tree>, ts: seq<Tree>, r: seq<Tree>)
    ensures IdsOf(l + ts + r) == IdsOf(l) + IdsOf(r) + IdsOf(ts)
  {
    IdsConcat(l + ts, r);
    IdsConcat(l, ts);
  }

  lemma SwapKidIds(all: multiset<PageId>, id: PageId, rest: multiset<PageId>, old_: multiset<PageId>, new_: multiset<PageId>,
                   row: multiset<PageId>, n: nat)
    requires all == multiset{id} + rest + old_ && row == rest + new_
    requires Distinct(all) && Distinct(new_)
    requires forall x :: x in all ==> x < n
    requires forall x :: x in new_ ==> x in old_ || n <= x
    requires forall x :: x in old_ ==> x in new_
    ensures Distinct(multiset{id} + row)
    ensures forall x :: x in row ==> x in all || n <= x
    ensures forall x :: x in all ==> x == id || x in row
  {
    forall x | x in multiset{id} + rest ensures x in all {
      assert all[x] >= (multiset{id} + rest)[x];
    }
    DistinctSwap(multiset{id} + rest, old_, new_, n);
    assert multiset{id} + row == multiset{id} + rest + new_;
  }

  lemma SiblingsKept(s: seq<PageData>, s': seq<PageData>, id: PageId, l: seq<Tree>, r: seq<Tree>, touched: multiset<PageId>)
    requires RepAll(s, l) && RepAll(s, r)
    requires Distinct(multiset{id} + (IdsOf(l) + IdsOf(r)) + touched)
    requires Untouched(s, s', touched)
    ensures RepAll(s', l) && RepAll(s', r)
  {
    DistinctSub(touched + IdsOf(l), multiset{id} + (IdsOf(l) + IdsOf(r)) + touched);
    RepAllOutside(s, s', l, touched);
    DistinctSub(touched + IdsOf(r), multiset{id} + (IdsOf(l) + IdsOf(r)) + touched);
    RepAllOutside(s, s', r, touched);
  }

  /** Writing the branch page completes the subtree ... */
  lemma CloseRow(s: seq<PageData>, s': seq<PageData>, s'': seq<PageData>, t: Tree, kk: seq<int>, tt: seq<Tree>,
                 h: nat, lo: int, hi: int, after: PageId)
    requires RowReady(s, s', t, kk, tt, h, lo, hi, after)
    requires |kk| <= MAX_KEYS
    requires var t' := Branch(t.bid, kk, tt); s'' == s'[t.bid := NodePage(NodeOf(t'))]
    ensures var t' := Branch(t.bid, kk, tt); Grown(s, s'', t, [], [t'], h + 1, lo, hi, after) && LeavesOf([t']) == LeavesOf(tt)
  {
    var t' := Branch(t.bid, kk, tt);
    RepAllOutside(s', s'', tt, multiset{t.bid});
    SepsSorted(kk, tt, h, lo, hi);
    assert Cell(t', h + 1, lo, hi);
    assert WFKids([], [t'], h + 1, lo, hi);
    LeavesSingle(t');
    IdsSingle(t');
    assert t.bid in Ids(t);
  }

  /** ... and an overfull row is completed by two pages. */
  lemma CloseRowSplit(s: seq<PageData>, s': seq<PageData>, s'': seq<PageData>, t: Tree, kk: seq<int>, tt: seq<Tree>, m: nat,
                      h: nat, lo: int, hi: int, after: PageId)
    requires RowReady(s, s', t, kk, tt, h, lo, hi, after)
    requires MIN_KEYS <= m < |kk| && MIN_KEYS <= |kk| - m - 1 && |kk| <= MAX_KEYS + 1
    requires var a, b := Branch(t.bid, kk[..m], tt[..m + 1]), Branch(|s'|, kk[m + 1..], tt[m + 1..]);
      s'' == s'[t.bid := NodePage(NodeOf(a))] + [NodePage(NodeOf(b))]
    ensures var a, b := Branch(t.bid, kk[..m], tt[..m + 1]), Branch(|s'|, kk[m + 1..], tt[m + 1..]);
      Grown(s, s'', t, [kk[m]], [a, b], h + 1, lo, hi, after) && LeavesOf([a, b]) == LeavesOf(tt)
  {
    var a, b := Branch(t.bid, kk[..m], tt[..m + 1]), Branch(|s'|, kk[m + 1..], tt[m + 1..]);
    SplitWF(t.bid, |s'|, kk, tt, m, h, lo, hi);
    IdsOfAllocated(s', tt);
    SplitParts(a, b, tt, m);
    SplitStored(s', s'', t.bid, tt, m);
    HalvesStored(s'', a, b);
    SplitIdsGood(s, s', t, IdsOf(tt), IdsOf([a, b]));
    hide WFKids, Leaves, LeavesOf, Ids, IdsOf, Chain, RepAll, Distinct, AllFull, NodeOf;
  }

  lemma HalvesStored(s: seq<PageData>, a: Tree, b: Tree)
    requires a.Branch? && b.Branch? && a.bid < |s| && b.bid < |s| && s[a.bid] == NodePage(NodeOf(a)) && s[b.bid] == NodePage(NodeOf(b))
    requires RepAll(s, a.kids) && RepAll(s, b.kids)
    ensures RepAll(s, [a, b])
  {
    assert Rep(s, a) && Rep(s, b);
  }

  lemma SplitIdsGood(s: seq<PageData>, s': seq<PageData>, t: Tree, below: multiset<PageId>, ids: multiset<PageId>)
    requires t.Branch? && Distinct(multiset{t.bid} + below) && ids == multiset{t.bid, |s'|} + below && t.bid < |s| <= |s'|
    requires forall x :: x in below ==> x < |s'|
    requires forall x :: x in below ==> x in Ids(t) || |s| <= x
    requires forall x :: x in Ids(t) ==> x == t.bid || x in below
    ensures Distinct(ids) && (forall x :: x in ids ==> x in Ids(t) || |s| <= x) && forall x :: x in Ids(t) ==> x in ids
  {
    assert t.bid in Ids(t);
    hide Ids;
    assert ids == multiset{t.bid} + below + multiset{|s'|};
    DistinctMore(multiset{t.bid} + below, |s'|);
  }

  lemma DistinctMore(ids: multiset<PageId>, x: PageId)
    requires Distinct(ids) && x !in ids
    ensures Distinct(ids + multiset{x})
  {
  }

  lemma SplitWF(ida: PageId, idb: PageId, kk: seq<int>, tt: seq<Tree>, m: nat, h: nat, lo: int, hi: int)
    requires WFKids(kk, tt, h, lo, hi) && AllFull(tt) && MIN_KEYS <= m < |kk| && MIN_KEYS <= |kk| - m - 1 && |kk| <= MAX_KEYS + 1
    ensures var a, b := Branch(ida, kk[..m], tt[..m + 1]), Branch(idb, kk[m + 1..], tt[m + 1..]);
      WFKids([kk[m]], [a, b], h + 1, lo, hi) && AllFull([a, b])
  {
    var a, b := Branch(ida, kk[..m], tt[..m + 1]), Branch(idb, kk[m + 1..], tt[m + 1..]);
    RunsDivide(kk, tt, m, h, lo, hi);
    SepsSorted(kk, tt, h, lo, hi);
    assert Cell(a, h + 1, lo, kk[m]) && Cell(b, h + 1, kk[m], hi);
  }

  lemma SplitParts(a: Tree, b: Tree, tt: seq<Tree>, m: nat)
    requires m < |tt| && a.Branch? && b.Branch? && a.kids == tt[..m + 1] && b.kids == tt[m + 1..]
    ensures LeavesOf([a, b]) == LeavesOf(tt)
    ensures IdsOf([a, b]) == multiset{a.bid, b.bid} + IdsOf(tt)
  {
    assert [a, b] == [a] + [b] && tt == a.kids + b.kids;
    LeavesConcat([a], [b]);
    LeavesSingle(a);
    LeavesSingle(b);
    LeavesConcat(a.kids, b.kids);
    SplitIds(a, b);
  }

  lemma SplitIds(a: Tree, b: Tree)
    requires a.Branch? && b.Branch?
    ensures IdsOf([a, b]) == multiset{a.bid, b.bid} + IdsOf(a.kids + b.kids)
  {
    assert [a, b] == [a] + [b];
    IdsConcat([a], [b]);
    IdsSingle(a);
    IdsSingle(b);
    IdsConcat(a.kids, b.kids);
  }

  lemma SplitStored(s: seq<PageData>, s': seq<PageData>, id: PageId, tt: seq<Tree>, m: nat)
    requires m < |tt| && RepAll(s, tt) && Distinct(multiset{id} + IdsOf(tt))
    requires |s| <= |s'| && forall x :: 0 <= x < |s| && x != id ==> s'[x] == s[x]
    ensures RepAll(s', tt[..m + 1]) && RepAll(s', tt[m + 1..])
  {
    RepAllOutside(s, s', tt, multiset{id});
  }

  /** The promoted key belongs just where the split child was. */
  lemma PromotedPlace(t: Tree, i: nat, ks: seq<int>, ts: seq<Tree>, h: nat, lo: int, hi: int)
    requires t.Branch? && h > 0 && WF(t, h, lo, hi)
    requires i < |t.kids| == |t.seps| + 1 && |ks| == 1 && WFKids(ks, ts, h - 1, LowBound(t.seps, lo, i), HighBound(t.seps, hi, i))
    ensures Increasing(t.seps)
    ensures BisectRight(t.seps, ks[0]) == i
  {
    SepsSorted(t.seps, t.kids, h - 1, lo, hi);
    SepsSorted(ks, ts, h - 1, LowBound(t.seps, lo, i), HighBound(t.seps, hi, i));
  }

  /** Growth of one child, seen on the entries of the whole branch. */
  lemma GrownEntries(t: Tree, i: nat, kl: seq<int>, l: seq<Tree>, c: Tree, kr: seq<int>, r: seq<Tree>,
                     ks: seq<int>, ts: seq<Tree>, h: nat, lo: int, hi: int, key: int, p: RowPointer)
    requires AroundChild(t, i, kl, l, c, kr, r)
    requires h > 0 && Cell(t, h, lo, hi)
    requires GapLow(kl, lo) <= key < GapHigh(kr, hi)
    requires Sorted(Entries(c)) && EntriesOf(LeavesOf(ts)) == InsertEntry(Entries(c), key, p)
    ensures Sorted(Entries(t)) && EntriesOf(LeavesOf(l + ts + r)) == InsertEntry(Entries(t), key, p)
  {
    EntriesWF(t, h, lo, hi);
    DescendWF(t, i, h, lo, hi);
    AroundChildParts(t, i, kl, l, c, kr, r);
    RowParts(0, kl, l, ks, ts, kr, r);
    LeftBelow(kl, l, h - 1, lo);
    RightAbove(kr, r, h - 1, hi);
    var el, er := EntriesOf(LeavesOf(l)), EntriesOf(LeavesOf(r));
    EntriesThree(LeavesOf(l), Leaves(c), LeavesOf(r));
    EntriesThree(LeavesOf(l), LeavesOf(ts), LeavesOf(r));
    assert AllBelow(el, key) by {
      forall j | 0 <= j < |el| ensures el[j].key < key { assert el[j] in el; }
    }
    assert AllAbove(er, key) by {
      forall j | 0 <= j < |er| ensures key < er[j].key { assert er[j] in er; }
    }
    InsertEntryLocal(el, Entries(c), er, key, p);
  }

  lemma EntriesThree(a: seq<LeafPage>, b: seq<LeafPage>, c: seq<LeafPage>)
    ensures EntriesOf(a + b + c) == EntriesOf(a) + EntriesOf(b) + EntriesOf(c)
  {
    EntriesConcat(a + b, c);
    EntriesConcat(a, b);
  }

  /** A child that did not split leaves its parent page as it is. */
  lemma SameKids(t: Tree, i: nat, ks: seq<int>, ts: seq<Tree>)
    requires t.Branch? && i < |t.kids| == |t.seps| + 1
    requires ks == [] && |ts| == 1 && ts[0].Id() == t.kids[i].Id()
    ensures NodeOf(Branch(t.bid, t.seps[..i] + ks + t.seps[i..], t.kids[..i] + ts + t.kids[i + 1..])) == NodeOf(t)
  {
    var tt := t.kids[..i] + ts + t.kids[i + 1..];
    assert t.seps[..i] + ks + t.seps[i..] == t.seps;
    assert TreeIds(tt) == TreeIds(t.kids);
  }

  /** A child that split adds one key and one child to its parent page. */
  lemma OneMoreKid(t: Tree, i: nat, ks: seq<int>, ts: seq<Tree>)
    requires t.Branch? && i < |t.kids| == |t.seps| + 1
    requires |ks| == 1 && |ts| == 2 && ts[0].Id() == t.kids[i].Id()
    ensures var n := NodeOf(t);
      NodeOf(Branch(t.bid, t.seps[..i] + ks + t.seps[i..], t.kids[..i] + ts + t.kids[i + 1..]))
      == n.(keys := n.keys[..i] + [ks[0]] + n.keys[i..],
            children := n.children[..i + 1] + [ts[1].Id()] + n.children[i + 1..])
  {
    var tt := t.kids[..i] + ts + t.kids[i + 1..];
    var ids := TreeIds(t.kids);
    assert ks == [ks[0]];
    assert TreeIds(tt) == ids[..i + 1] + [ts[1].Id()] + ids[i + 1..];
  }

  // ---------- The root ----------

  /** The pages and entries of a tree after one insertion. */
  ghost predicate InsertOutcome(s: seq<PageData>, s': seq<PageData>, t: Tree, root': PageId, t': Tree,
                                h': nat, lo: int, hi: int, key: int, p: RowPointer)
  {
    && TreeInv(s', root', t', h', lo, hi)
    && Contents(Entries(t')) == Added(Contents(Entries(t)), key, p)
    && Untouched(s, s', Ids(t))
    && (forall x :: x in Ids(t') ==> x in Ids(t) || |s| <= x)
    && (forall x :: x in Ids(t) ==> x in Ids(t'))
  }

  lemma RootKept(s: seq<PageData>, s': seq<PageData>, t: Tree, ts: seq<Tree>, h: nat, lo: int, hi: int, key: int, p: RowPointer)
    requires Cell(t, h, lo, hi) && RootOK(t) && |ts| == 1
    requires Grown(s, s', t, [], ts, h, lo, hi, NO_PAGE)
    requires Sorted(Entries(t)) && EntriesOf(LeavesOf(ts)) == InsertEntry(Entries(t), key, p)
    ensures InsertOutcome(s, s', t, t.Id(), ts[0], h, lo, hi, key, p)
  {
    var t' := ts[0];
    assert ts == [t'];
    LeavesSingle(t');
    IdsSingle(t');
    assert Cell(ts[0], h, LowBound([], lo, 0), HighBound([], hi, 0));
    InsertEntryContents(Entries(t), key, p);
  }

  /** A root that split gets a new root above it. */
  lemma RootGrown(s: seq<PageData>, s': seq<PageData>, s'': seq<PageData>, t: Tree, ks: seq<int>, ts: seq<Tree>,
                  h: nat, lo: int, hi: int, key: int, p: RowPointer)
    requires Grown(s, s', t, ks, ts, h, lo, hi, NO_PAGE) && |ts| == 2
    requires s'' == s' + [NodePage(NodeOf(Branch(|s'|, ks, ts)))]
    requires Sorted(Entries(t)) && EntriesOf(LeavesOf(ts)) == InsertEntry(Entries(t), key, p)
    ensures InsertOutcome(s, s'', t, |s'|, Branch(|s'|, ks, ts), h + 1, lo, hi, key, p)
  {
    RootGrownInv(s, s', s'', t, ks, ts, h, lo, hi);
    InsertEntryContents(Entries(t), key, p);
  }

  lemma RootGrownInv(s: seq<PageData>, s': seq<PageData>, s'': seq<PageData>, t: Tree, ks: seq<int>, ts: seq<Tree>,
                     h: nat, lo: int, hi: int)
    requires Grown(s, s', t, ks, ts, h, lo, hi, NO_PAGE) && |ts| == 2
    requires s'' == s' + [NodePage(NodeOf(Branch(|s'|, ks, ts)))]
    ensures TreeInv(s'', |s'|, Branch(|s'|, ks, ts), h + 1, lo, hi)
  {
    SepsSorted(ks, ts, h, lo, hi);
    IdsOfAllocated(s', ts);
    RepAllOutside(s', s'', ts, multiset{|s'|});
  }

  /** A key range grew no further than needed to hold `key`. */
  ghost predicate RangeGrows(lo: int, hi: int, lo': int, hi': int, key: int) {
    && (lo <= lo' || key <= lo')
    && (hi' <= hi || hi' <= key + 1)
  }

  /** Any key lies in the range of a tree once that range is widened. */
  lemma MakeRoom(t: Tree, h: nat, lo: int, hi: int, key: int) returns (lo': int, hi': int)
    requires Cell(t, h, lo, hi)
    ensures Cell(t, h, lo', hi') && lo' <= key < hi' && RangeGrows(lo, hi, lo', hi', key)
  {
    lo', hi' := if key < lo then key else lo, if hi <= key then key + 1 else hi;
    Widen(t, h, lo, hi, lo', hi');
  }

  // ---------- Descending into a child and coming back ----------

  /** The child that the search position of `key` selects is the one whose range holds it. */
  lemma Routed(t: Tree, h: nat, lo: int, hi: int, key: int)
    requires t.Branch? && WF(t, h, lo, hi) && lo <= key < hi
    ensures Increasing(t.seps)
    ensures var i := BisectRight(t.seps, key);
      i < |t.kids| == |t.seps| + 1 && LowBound(t.seps, lo, i) <= key < HighBound(t.seps, hi, i)
  {
    SepsSorted(t.seps, t.kids, h - 1, lo, hi);
  }

  /** What a branch guarantees about child `i` before the descent. */
  lemma ChildReady(s: seq<PageData>, t: Tree, i: nat, h: nat, lo: int, hi: int, after: PageId)
    requires t.Branch? && i < |t.kids| == |t.seps| + 1
    requires h > 0 && Cell(t, h, lo, hi) && Rep(s, t) && Distinct(Ids(t)) && Chain(Leaves(t), after)
    ensures Cell(t.kids[i], h - 1, LowBound(t.seps, lo, i), HighBound(t.seps, hi, i))
    ensures Rep(s, t.kids[i]) && Distinct(Ids(t.kids[i]))
    ensures Chain(Leaves(t.kids[i]), Or(FirstLeaf(LeavesOf(t.kids[i + 1..])), after))
  {
    var kl, l, c, kr, r := t.seps[..i], t.kids[..i], t.kids[i], t.seps[i..], t.kids[i + 1..];
    assert GapLow(kl, lo) == LowBound(t.seps, lo, i) && GapHigh(kr, hi) == HighBound(t.seps, hi, i);
    AroundChildWF(s, t, i, kl, l, c, kr, r, h, lo, hi, after);
  }

  /** Everything the pages and entries of a branch gain from growing one of its children. */
  lemma GrownChild(s: seq<PageData>, s': seq<PageData>, t: Tree, i: nat, ks: seq<int>, ts: seq<Tree>,
                   h: nat, lo: int, hi: int, after: PageId, key: int, p: RowPointer)
    requires t.Branch? && i < |t.kids| == |t.seps| + 1
    requires h > 0 && Cell(t, h, lo, hi) && Rep(s, t) && Distinct(Ids(t)) && Chain(Leaves(t), after)
    requires LowBound(t.seps, lo, i) <= key < HighBound(t.seps, hi, i)
    requires Grown(s, s', t.kids[i], ks, ts, h - 1, LowBound(t.seps, lo, i), HighBound(t.seps, hi, i),
                   Or(FirstLeaf(LeavesOf(t.kids[i + 1..])), after))
    requires Sorted(Entries(t.kids[i])) && EntriesOf(LeavesOf(ts)) == InsertEntry(Entries(t.kids[i]), key, p)
    ensures RowReady(s, s', t, t.seps[..i] + ks + t.seps[i..], t.kids[..i] + ts + t.kids[i + 1..], h - 1, lo, hi, after)
    ensures Sorted(Entries(t)) && EntriesOf(LeavesOf(t.kids[..i] + ts + t.kids[i + 1..])) == InsertEntry(Entries(t), key, p)
  {
    var kl, l, c, kr, r := t.seps[..i], t.kids[..i], t.kids[i], t.seps[i..], t.kids[i + 1..];
    assert GapLow(kl, lo) == LowBound(t.seps, lo, i) && GapHigh(kr, hi) == HighBound(t.seps, hi, i);
    GrownRow(s, s', t, i, kl, l, c, kr, r, ks, ts, h, lo, hi, after);
    GrownEntries(t, i, kl, l, c, kr, r, ks, ts, h, lo, hi, key, p);
  }

  /** The two branch pages that an overfull branch is divided into. */
  function BranchHalves(id: PageId, kk: seq<int>, tt: seq<Tree>, m: nat, id': PageId): (Tree, Tree)
    requires m < |kk| && |tt| == |kk| + 1
  {
    (Branch(id, kk[..m], tt[..m + 1]), Branch(id', kk[m + 1..], tt[m + 1..]))
  }

  lemma BranchHalvesNodes(id: PageId, kk: seq<int>, tt: seq<Tree>, m: nat, id': PageId)
    requires m < |kk| && |tt| == |kk| + 1
    ensures var (a, b) := BranchHalves(id, kk, tt, m, id'); var n := NodeOf(Branch(id, kk, tt));
      && NodeOf(a) == Node(false, n.keys[..m], [], n.children[..m + 1], NO_PAGE)
      && NodeOf(b) == Node(false, n.keys[m + 1..], [], n.children[m + 1..], NO_PAGE)
  {
    assert TreeIds(tt[..m + 1]) == TreeIds(tt)[..m + 1];
    assert TreeIds(tt[m + 1..]) == TreeIds(tt)[m + 1..];
  }
}
