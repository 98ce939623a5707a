/** The mathematical B+ tree that the pages of an index represent. */
module TreeModel {
  import opened Storage
  import opened EntryList

  const MAX_KEYS := 32
  const MIN_KEYS := MAX_KEYS / 2

  // ---------- Trees of pages ----------

  datatype LeafPage = LeafPage(id: PageId, es: seq<Entry>, next: PageId)

  datatype Tree = Leaf(leaf: LeafPage) | Branch(bid: PageId, seps: seq<int>, kids: seq<Tree>)
  {
    function Id(): PageId {
      if Leaf? then leaf.id else bid
    }

    function Size(): nat {
      if Leaf? then |leaf.es| else |seps|
    }

    ghost predicate Full() {
      MIN_KEYS <= Size()
    }
  }

  ghost predicate AllFull(ts: seq<Tree>) {
    forall i :: 0 <= i < |ts| ==> ts[i].Full()
  }

  function TreeIds(ts: seq<Tree>): (ids: seq<PageId>)
    ensures |ids| == |ts|
    ensures forall i :: 0 <= i < |ts| ==> ids[i] == ts[i].Id()
  {
    seq(|ts|, i requires 0 <= i < |ts| => ts[i].Id())
  }

  /** The page content that stands for the top of a tree. */
  function NodeOf(t: Tree): Node {
    if t.Leaf? then Node(true, Keys(t.leaf.es), Vals(t.leaf.es), [], t.leaf.next)
    else Node(false, t.seps, [], TreeIds(t.kids), NO_PAGE)
  }

  // ---------- Well-formedness ----------

  /** `t` has height `h`, its keys lie in `lo..hi`, and everything below its
      top node is fully occupied; the top node itself may hold too few keys. */
  ghost predicate WF(t: Tree, h: nat, lo: int, hi: int)
    decreases h, 0
  {
    && t.Size() <= MAX_KEYS
    && match t
       case Leaf(l) => h == 0 && Sorted(l.es) && Within(l.es, lo, hi) && NoneEmpty(l.es)
       case Branch(_, seps, kids) => h > 0 && AllFull(kids) && WFKids(seps, kids, h - 1, lo, hi)
  }

  ghost predicate Cell(t: Tree, h: nat, lo: int, hi: int)
    decreases h, 1
  {
    lo < hi && WF(t, h, lo, hi)
  }

  function LowBound(ks: seq<int>, lo: int, i: nat): int
    requires i <= |ks|
  {
    if i == 0 then lo else ks[i - 1]
  }

  function HighBound(ks: seq<int>, hi: int, i: nat): int
    requires i <= |ks|
  {
    if i == |ks| then hi else ks[i]
  }

  /** Children `ts` separated by `ks`, filling the key range `lo..hi`. */
  ghost predicate WFKids(ks: seq<int>, ts: seq<Tree>, h: nat, lo: int, hi: int)
    decreases h, 2
  {
    && |ts| == |ks| + 1
    && forall i :: 0 <= i < |ts| ==> Cell(ts[i], h, LowBound(ks, lo, i), HighBound(ks, hi, i))
  }

  /** Children to the left of a gap, each followed by its separator. */
  ghost predicate CellsLeft(ks: seq<int>, ts: seq<Tree>, h: nat, lo: int) {
    && |ts| == |ks|
    && forall i :: 0 <= i < |ts| ==> Cell(ts[i], h, LowBound(ks, lo, i), ks[i])
  }

  /** Children to the right of a gap, each preceded by its separator. */
  ghost predicate CellsRight(ks: seq<int>, ts: seq<Tree>, h: nat, hi: int) {
    && |ts| == |ks|
    && forall i :: 0 <= i < |ts| ==> Cell(ts[i], h, ks[i], HighBound(ks, hi, i + 1))
  }

  function GapLow(ks: seq<int>, lo: int): int {
    if ks == [] then lo else ks[|ks| - 1]
  }

  function GapHigh(ks: seq<int>, hi: int): int {
    if ks == [] then hi else ks[0]
  }

  /** A run of children can be cut out of its row ... */
  lemma Cut(kl: seq<int>, l: seq<Tree>, ks: seq<int>, ts: seq<Tree>, kr: seq<int>, r: seq<Tree>, h: nat, lo: int, hi: int)
    requires |kl| == |l| && |kr| == |r| && |ts| == |ks| + 1
    requires WFKids(kl + ks + kr, l + ts + r, h, lo, hi)
    ensures CellsLeft(kl, l, h, lo)
    ensures WFKids(ks, ts, h, GapLow(kl, lo), GapHigh(kr, hi))
    ensures CellsRight(kr, r, h, hi)
  {
    var kk, tt := kl + ks + kr, l + ts + r;
    forall i | 0 <= i < |l| ensures Cell(l[i], h, LowBound(kl, lo, i), kl[i]) {
      assert tt[i] == l[i] && Cell(tt[i], h, LowBound(kk, lo, i), HighBound(kk, hi, i));
    }
    forall i | 0 <= i < |ts|
      ensures Cell(ts[i], h, LowBound(ks, GapLow(kl, lo), i), HighBound(ks, GapHigh(kr, hi), i))
    {
      var j := |l| + i;
      assert tt[j] == ts[i] && Cell(tt[j], h, LowBound(kk, lo, j), HighBound(kk, hi, j));
    }
    forall i | 0 <= i < |r| ensures Cell(r[i], h, kr[i], HighBound(kr, hi, i + 1)) {
      var j := |l| + |ts| + i;
      assert tt[j] == r[i] && Cell(tt[j], h, LowBound(kk, lo, j), HighBound(kk, hi, j));
    }
  }

  /** ... and any other run that fills the same gap can take its place. */
  lemma Join(kl: seq<int>, l: seq<Tree>, ks: seq<int>, ts: seq<Tree>, kr: seq<int>, r: seq<Tree>, h: nat, lo: int, hi: int)
    requires CellsLeft(kl, l, h, lo)
    requires WFKids(ks, ts, h, GapLow(kl, lo), GapHigh(kr, hi))
    requires CellsRight(kr, r, h, hi)
    ensures WFKids(kl + ks + kr, l + ts + r, h, lo, hi)
  {
    var kk, tt := kl + ks + kr, l + ts + r;
    forall j | 0 <= j < |tt| ensures Cell(tt[j], h, LowBound(kk, lo, j), HighBound(kk, hi, j)) {
      if j < |l| {
        assert Cell(l[j], h, LowBound(kl, lo, j), kl[j]);
      } else if j < |l| + |ts| {
        var i := j - |l|;
        assert Cell(ts[i], h, LowBound(ks, GapLow(kl, lo), i), HighBound(ks, GapHigh(kr, hi), i));
      } else {
        var i := j - |l| - |ts|;
        assert Cell(r[i], h, kr[i], HighBound(kr, hi, i + 1));
      }
    }
  }

  /** Two neighbouring runs and the separator between them form one run ... */
  lemma RunsMerge(ks1: seq<int>, ts1: seq<Tree>, m: int, ks2: seq<int>, ts2: seq<Tree>, h: nat, lo: int, hi: int)
    requires WFKids(ks1, ts1, h, lo, m) && WFKids(ks2, ts2, h, m, hi)
    ensures WFKids(ks1 + [m] + ks2, ts1 + ts2, h, lo, hi)
  {
    var kk, tt := ks1 + [m] + ks2, ts1 + ts2;
    forall j | 0 <= j < |tt| ensures Cell(tt[j], h, LowBound(kk, lo, j), HighBound(kk, hi, j)) {
      if j < |ts1| {
        assert Cell(ts1[j], h, LowBound(ks1, lo, j), HighBound(ks1, m, j));
      } else {
        var i := j - |ts1|;
        assert Cell(ts2[i], h, LowBound(ks2, m, i), HighBound(ks2, hi, i));
      }
    }
  }

  /** ... and a run can be divided at any of its separators. */
  lemma RunsDivide(ks: seq<int>, ts: seq<Tree>, i: nat, h: nat, lo: int, hi: int)
    requires WFKids(ks, ts, h, lo, hi)
    requires i < |ks|
    ensures WFKids(ks[..i], ts[..i + 1], h, lo, ks[i])
    ensures WFKids(ks[i + 1..], ts[i + 1..], h, ks[i], hi)
  {
    var ks1, ts1, ks2, ts2 := ks[..i], ts[..i + 1], ks[i + 1..], ts[i + 1..];
    forall j | 0 <= j < |ts1| ensures Cell(ts1[j], h, LowBound(ks1, lo, j), HighBound(ks1, ks[i], j)) {
      assert Cell(ts[j], h, LowBound(ks, lo, j), HighBound(ks, hi, j));
    }
    forall j | 0 <= j < |ts2| ensures Cell(ts2[j], h, LowBound(ks2, ks[i], j), HighBound(ks2, hi, j)) {
      assert Cell(ts[i + 1 + j], h, LowBound(ks, lo, i + 1 + j), HighBound(ks, hi, i + 1 + j));
    }
  }

  /** Separators are strictly increasing and lie inside the range. */
  lemma {:induction false} SepsIncreasing(ks: seq<int>, ts: seq<Tree>, h: nat, lo: int, hi: int, i: nat, j: nat)
    requires WFKids(ks, ts, h, lo, hi)
    requires i < j <= |ts|
    ensures LowBound(ks, lo, i) < HighBound(ks, hi, j - 1)
    decreases j
  {
    assert Cell(ts[j - 1], h, LowBound(ks, lo, j - 1), HighBound(ks, hi, j - 1));
    if i + 1 < j {
      SepsIncreasing(ks, ts, h, lo, hi, i, j - 1);
    }
  }

  lemma SepsSorted(ks: seq<int>, ts: seq<Tree>, h: nat, lo: int, hi: int)
    requires WFKids(ks, ts, h, lo, hi)
    ensures lo < hi && Increasing(ks)
    ensures forall i :: 0 <= i < |ks| ==> lo < ks[i] < hi
  {
    SepsIncreasing(ks, ts, h, lo, hi, 0, |ts|);
    forall i, j | 0 <= i < j < |ks| ensures ks[i] < ks[j] {
      SepsIncreasing(ks, ts, h, lo, hi, i + 1, j + 1);
    }
    forall i | 0 <= i < |ks| ensures lo < ks[i] < hi {
      SepsIncreasing(ks, ts, h, lo, hi, 0, i + 1);
      SepsIncreasing(ks, ts, h, lo, hi, i + 1, |ts|);
    }
  }

  /** A tree stays well formed in a wider range. */
  lemma {:induction false} Widen(t: Tree, h: nat, lo: int, hi: int, lo': int, hi': int)
    requires WF(t, h, lo, hi)
    requires lo' <= lo && hi <= hi'
    ensures WF(t, h, lo', hi')
    decreases h
  {
    if t.Branch? {
      forall i | 0 <= i < |t.kids|
        ensures Cell(t.kids[i], h - 1, LowBound(t.seps, lo', i), HighBound(t.seps, hi', i))
      {
        assert Cell(t.kids[i], h - 1, LowBound(t.seps, lo, i), HighBound(t.seps, hi, i));
        Widen(t.kids[i], h - 1, LowBound(t.seps, lo, i), HighBound(t.seps, hi, i),
              LowBound(t.seps, lo', i), HighBound(t.seps, hi', i));
      }
    }
  }

  // ---------- Leaves, entries and page ids of a tree ----------

  function Leaves(t: Tree): seq<LeafPage>
    decreases t, 1
  {
    if t.Leaf? then [t.leaf] else LeavesOf(t.kids)
  }

  function LeavesOf(ts: seq<Tree>): seq<LeafPage>
    decreases ts, 0
  {
    if ts == [] then [] else Leaves(ts[0]) + LeavesOf(ts[1..])
  }

  lemma {:induction false} LeavesConcat(a: seq<Tree>, b: seq<Tree>)
    ensures LeavesOf(a + b) == LeavesOf(a) + LeavesOf(b)
    decreases |a|
  {
    if a == [] {
      assert a + b == b;
    } else {
      assert (a + b)[1..] == a[1..] + b;
      LeavesConcat(a[1..], b);
    }
  }

  lemma LeavesSingle(t: Tree)
    ensures LeavesOf([t]) == Leaves(t)
  {
    assert LeavesOf([]) == [];
  }

  function EntriesOf(ls: seq<LeafPage>): seq<Entry> {
    if ls == [] then [] else ls[0].es + EntriesOf(ls[1..])
  }

  lemma {:induction false} EntriesConcat(a: seq<LeafPage>, b: seq<LeafPage>)
    ensures EntriesOf(a + b) == EntriesOf(a) + EntriesOf(b)
    decreases |a|
  {
    if a == [] {
      assert a + b == b;
    } else {
      assert (a + b)[1..] == a[1..] + b;
      EntriesConcat(a[1..], b);
    }
  }

  /** The stored entries in key order. */
  function Entries(t: Tree): seq<Entry> {
    EntriesOf(Leaves(t))
  }

  /** Each leaf names its right neighbour; the last one names `after`. */
  ghost predicate Chain(ls: seq<LeafPage>, after: PageId) {
    forall i :: 0 <= i < |ls| ==> ChainedAt(ls, i, after)
  }

  ghost predicate ChainedAt(ls: seq<LeafPage>, i: nat, after: PageId)
    requires i < |ls|
  {
    ls[i].next == if i + 1 < |ls| then ls[i + 1].id else after
  }

  function Ids(t: Tree): multiset<PageId>
    decreases t, 1
  {
    if t.Leaf? then multiset{t.leaf.id} else multiset{t.bid} + IdsOf(t.kids)
  }

  function IdsOf(ts: seq<Tree>): multiset<PageId>
    decreases ts, 0
  {
    if ts == [] then multiset{} else Ids(ts[0]) + IdsOf(ts[1..])
  }

  lemma {:induction false} IdsConcat(a: seq<Tree>, b: seq<Tree>)
    ensures IdsOf(a + b) == IdsOf(a) + IdsOf(b)
    decreases |a|
  {
    if a == [] {
      assert a + b == b;
    } else {
      assert (a + b)[1..] == a[1..] + b;
      IdsConcat(a[1..], b);
    }
  }

  ghost predicate Distinct(m: multiset<PageId>) {
    forall x :: m[x] <= 1
  }

  // ---------- Representation of a tree by pages ----------

  /** Every page of `t` holds the node it should. */
  ghost predicate Rep(s: seq<PageData>, t: Tree)
    decreases t, 1
  {
    && t.Id() < |s|
    && s[t.Id()] == NodePage(NodeOf(t))
    && (t.Branch? ==> RepAll(s, t.kids))
  }

  ghost predicate RepAll(s: seq<PageData>, ts: seq<Tree>)
    decreases ts, 0
  {
    forall i :: 0 <= i < |ts| ==> Rep(s, ts[i])
  }

  /** `s'` holds the same content as `s` on the pages `ids`. */
  ghost predicate Agree(s: seq<PageData>, s': seq<PageData>, ids: multiset<PageId>) {
    forall x :: x in ids && x < |s| ==> x < |s'| && s'[x] == s[x]
  }

  lemma {:induction false} KidIds(ts: seq<Tree>, i: nat)
    requires i < |ts|
    ensures forall x :: x in Ids(ts[i]) ==> x in IdsOf(ts)
    decreases |ts|
  {
    if i > 0 {
      KidIds(ts[1..], i - 1);
      assert ts[1..][i - 1] == ts[i];
    }
  }

  lemma {:induction false} RepFrame(s: seq<PageData>, s': seq<PageData>, t: Tree)
    requires Rep(s, t) && Agree(s, s', Ids(t))
    ensures Rep(s', t)
    decreases t, 1
  {
    assert t.Id() in Ids(t);
    if t.Branch? {
      forall x | x in IdsOf(t.kids) && x < |s| ensures x < |s'| && s'[x] == s[x] {
        assert Ids(t)[x] >= IdsOf(t.kids)[x];
      }
      RepAllFrame(s, s', t.kids);
    }
  }

  lemma {:induction false} RepAllFrame(s: seq<PageData>, s': seq<PageData>, ts: seq<Tree>)
    requires RepAll(s, ts) && Agree(s, s', IdsOf(ts))
    ensures RepAll(s', ts)
    decreases ts, 0
  {
    forall i | 0 <= i < |ts| ensures Rep(s', ts[i]) {
      KidIds(ts, i);
      RepFrame(s, s', ts[i]);
    }
  }

  lemma {:induction false} IdsAllocated(s: seq<PageData>, t: Tree)
    requires Rep(s, t)
    ensures forall x :: x in Ids(t) ==> x < |s|
    decreases t, 1
  {
    if t.Branch? {
      IdsOfAllocated(s, t.kids);
    }
  }

  lemma {:induction false} IdsOfAllocated(s: seq<PageData>, ts: seq<Tree>)
    requires RepAll(s, ts)
    ensures forall x :: x in IdsOf(ts) ==> x < |s|
    decreases ts, 0
  {
    if ts != [] {
      assert Rep(s, ts[0]);
      IdsAllocated(s, ts[0]);
      forall i | 0 <= i < |ts[1..]| ensures Rep(s, ts[1..][i]) {
        assert ts[1..][i] == ts[i + 1];
      }
      IdsOfAllocated(s, ts[1..]);
    }
  }

  lemma RepAllOutside(s: seq<PageData>, s': seq<PageData>, ts: seq<Tree>, touched: multiset<PageId>)
    requires RepAll(s, ts)
    requires |s| <= |s'| && forall x :: 0 <= x < |s| && x !in touched ==> s'[x] == s[x]
    requires Distinct(touched + IdsOf(ts))
    ensures RepAll(s', ts)
  {
    forall x | x in IdsOf(ts) && x < |s| ensures x < |s'| && s'[x] == s[x] {
      assert (touched + IdsOf(ts))[x] <= 1;
    }
    RepAllFrame(s, s', ts);
  }

  lemma DistinctSub(m: multiset<PageId>, total: multiset<PageId>)
    requires m <= total && Distinct(total)
    ensures Distinct(m)
  {
  }

  // ---------- Bounds on the entries of a tree ----------

  /** The entries of a well-formed tree are sorted and lie in its range. */
  lemma {:induction false} EntriesWF(t: Tree, h: nat, lo: int, hi: int)
    requires WF(t, h, lo, hi)
    ensures Sorted(Entries(t)) && Within(Entries(t), lo, hi) && NoneEmpty(Entries(t))
    decreases h, 1
  {
    if t.Leaf? {
      EntriesLeaf(t.leaf);
    } else {
      EntriesKidsWF(t.seps, t.kids, h - 1, lo, hi);
    }
  }

  lemma EntriesLeaf(l: LeafPage)
    ensures EntriesOf([l]) == l.es
  {
    assert [l][1..] == [];
    assert EntriesOf([]) == [];
    assert EntriesOf([l]) == l.es + [];
  }

  lemma {:induction false} EntriesKidsWF(ks: seq<int>, ts: seq<Tree>, h: nat, lo: int, hi: int)
    requires WFKids(ks, ts, h, lo, hi)
    ensures var es := EntriesOf(LeavesOf(ts)); Sorted(es) && Within(es, lo, hi) && NoneEmpty(es)
    decreases h, 2, |ts|
  {
    assert Cell(ts[0], h, LowBound(ks, lo, 0), HighBound(ks, hi, 0));
    EntriesWF(ts[0], h, lo, HighBound(ks, hi, 0));
    if ks == [] {
      assert ts == [ts[0]];
      LeavesSingle(ts[0]);
    } else {
      RunsDivide(ks, ts, 0, h, lo, hi);
      SepsSorted(ks, ts, h, lo, hi);
      EntriesKidsWF(ks[1..], ts[1..], h, ks[0], hi);
      LeavesFirst(ts);
      hide *;
      EntriesConcat(Leaves(ts[0]), LeavesOf(ts[1..]));
      JoinedWF(EntriesOf(Leaves(ts[0])), EntriesOf(LeavesOf(ts[1..])), lo, ks[0], hi);
      EntriesMeaning(ts[0]);
    }
  }

  lemma EntriesMeaning(t: Tree)
    ensures Entries(t) == EntriesOf(Leaves(t))
    ensures t.Leaf? ==> Entries(t) == t.leaf.es
    ensures t.Branch? ==> Entries(t) == EntriesOf(LeavesOf(t.kids))
  {
    if t.Leaf? {
      EntriesLeaf(t.leaf);
    }
  }

  lemma LeavesFirst(ts: seq<Tree>)
    requires ts != []
    ensures LeavesOf(ts) == Leaves(ts[0]) + LeavesOf(ts[1..])
  {
  }

  lemma JoinedWF(a: seq<Entry>, b: seq<Entry>, lo: int, m: int, hi: int)
    requires Sorted(a) && Within(a, lo, m) && NoneEmpty(a) && Sorted(b) && Within(b, m, hi) && NoneEmpty(b) && lo < m < hi
    ensures Sorted(a + b) && Within(a + b, lo, hi) && NoneEmpty(a + b)
  {
  }
}
