/** How long the JSON text of a B+ tree node is, and why it fits into a page. */
module NodeFit {
  import opened Storage
  import opened BigEndian
  import opened Decimals
  import opened EntryList
  import opened TreeModel
  import opened TreePath
  import opened TreeGrowth
  import opened TreeRepair
  import opened TreeTheorems

  const NODE_HEADER_SIZE := 8

  /** Every node handed to the pager has this shape. */
  ghost predicate Writable(node: Node) {
    && |node.keys| <= MAX_KEYS
    && (node.isLeaf ==> |node.values| == |node.keys| && node.children == [])
    && (!node.isLeaf ==> node.values == [] && |node.children| == |node.keys| + 1)
  }

  // ---------- The text of a node ----------

  function Commas(xs: seq<string>): string {
    if xs == [] then ""
    else if |xs| == 1 then xs[0]
    else xs[0] + "," + Commas(xs[1..])
  }

  function Numbers(ks: seq<int>): seq<string> {
    seq(|ks|, i requires 0 <= i < |ks| => Decimal(ks[i]))
  }

  function PointerText(p: RowPointer): string {
    "[" + Decimal(p.pageId) + "," + Decimal(p.slotId) + "]"
  }

  function PointerTexts(ps: seq<RowPointer>): seq<string> {
    seq(|ps|, i requires 0 <= i < |ps| => PointerText(ps[i]))
  }

  function ListText(ps: seq<RowPointer>): string {
    "[" + Commas(PointerTexts(ps)) + "]"
  }

  function ListTexts(vs: seq<seq<RowPointer>>): seq<string> {
    seq(|vs|, i requires 0 <= i < |vs| => ListText(vs[i]))
  }

  /** The compact JSON text of a node. */
  function Payload(n: Node): string {
    "{\"is_leaf\":" + (if n.isLeaf then "true" else "false")
    + ",\"keys\":[" + Commas(Numbers(n.keys))
    + "],\"values\":[" + Commas(ListTexts(n.values))
    + "],\"children\":[" + Commas(Numbers(n.children))
    + "],\"next_leaf\":" + Decimal(n.nextLeaf) + "}"
  }

  /** The parts of a list, with commas between them. */
  lemma {:induction false} CommasBetween(a: seq<string>, b: seq<string>, x: string)
    ensures Commas([]) == "" && Commas([x]) == x
    ensures a != [] && b != [] ==> Commas(a + b) == Commas(a) + "," + Commas(b)
  {
    if a != [] && b != [] {
      assert (a + b)[1..] == a[1..] + b;
      if |a| > 1 {
        CommasBetween(a[1..], b, x);
      }
    }
  }

  /** The text of a leaf and of a branch. */
  lemma PayloadExamples()
    ensures Payload(Node(true, [-5, 70], [[RowPointer(1, 2)], [RowPointer(3, 4), RowPointer(3, 0)]], [], 0)) ==
      "{\"is_leaf\":" + "true" + ",\"keys\":[" + "-5,70" + "],\"values\":[" + "[[1,2]],[[3,4],[3,0]]" + "],\"children\":[" + ""
      + "],\"next_leaf\":" + "0" + "}"
    ensures Payload(Node(false, [6], [], [8, 9], 0)) ==
      "{\"is_leaf\":" + "false" + ",\"keys\":[" + "6" + "],\"values\":[" + "" + "],\"children\":[" + "8,9"
      + "],\"next_leaf\":" + "0" + "}"
  {
    hide *;
    TextExamples();
    PayloadIs(Node(true, [-5, 70], [[RowPointer(1, 2)], [RowPointer(3, 4), RowPointer(3, 0)]], [], 0));
    PayloadIs(Node(false, [6], [], [8, 9], 0));
  }

  lemma PayloadIs(n: Node)
    ensures Payload(n) ==
      "{\"is_leaf\":" + (if n.isLeaf then "true" else "false") + ",\"keys\":[" + Commas(Numbers(n.keys)) + "],\"values\":["
      + Commas(ListTexts(n.values)) + "],\"children\":[" + Commas(Numbers(n.children)) + "],\"next_leaf\":" + Decimal(n.nextLeaf) + "}"
  {
  }

  lemma TextExamples()
    ensures Commas(Numbers([-5, 70])) == "-5,70" && Commas(Numbers([6])) == "6" && Commas(Numbers([8, 9])) == "8,9"
    ensures Commas(Numbers([])) == "" && Commas(ListTexts([])) == "" && Decimal(0) == "0"
    ensures Commas(ListTexts([[RowPointer(1, 2)], [RowPointer(3, 4), RowPointer(3, 0)]])) == "[[1,2]],[[3,4],[3,0]]"
  {
    hide *;
    ExampleNumbers();
    ListExamples();
    TwoNumbers(-5, 70);
    TwoNumbers(6, 0);
    TwoNumbers(8, 9);
    TwoLists([RowPointer(1, 2)], [RowPointer(3, 4), RowPointer(3, 0)]);
    assert "-5" + "," + "70" == "-5,70" && "8" + "," + "9" == "8,9";
    assert "[[1,2]]" + "," + "[[3,4],[3,0]]" == "[[1,2]],[[3,4],[3,0]]";
  }

  lemma TwoNumbers(a: int, b: int)
    ensures Commas(Numbers([])) == "" && Commas(Numbers([a])) == Decimal(a) && Commas(Numbers([a, b])) == Decimal(a) + "," + Decimal(b)
  {
    hide Decimal;
    assert Numbers([a]) == [Decimal(a)] && Numbers([a, b]) == [Decimal(a), Decimal(b)];
    assert [Decimal(a), Decimal(b)][1..] == [Decimal(b)];
  }

  lemma TwoLists(a: seq<RowPointer>, b: seq<RowPointer>)
    ensures Commas(ListTexts([])) == "" && Commas(ListTexts([a, b])) == ListText(a) + "," + ListText(b)
  {
    hide ListText;
    assert ListTexts([a, b]) == [ListText(a), ListText(b)];
    assert [ListText(a), ListText(b)][1..] == [ListText(b)];
  }

  lemma ListExamples()
    ensures ListText([RowPointer(1, 2)]) == "[[1,2]]" && ListText([RowPointer(3, 4), RowPointer(3, 0)]) == "[[3,4],[3,0]]"
  {
    PointerExamples();
    hide Decimal, PointerText;
    assert PointerTexts([RowPointer(1, 2)]) == ["[1,2]"];
    assert PointerTexts([RowPointer(3, 4), RowPointer(3, 0)]) == ["[3,4]", "[3,0]"];
  }

  lemma PointerExamples()
    ensures PointerText(RowPointer(1, 2)) == "[1,2]" && PointerText(RowPointer(3, 4)) == "[3,4]" && PointerText(RowPointer(3, 0)) == "[3,0]"
  {
    ExampleNumbers();
    hide Decimal;
  }

  lemma ExampleNumbers()
    ensures Decimal(-5) == "-5" && Decimal(70) == "70" && Decimal(6) == "6" && Decimal(8) == "8" && Decimal(9) == "9"
    ensures Decimal(0) == "0" && Decimal(1) == "1" && Decimal(2) == "2" && Decimal(3) == "3" && Decimal(4) == "4"
  {
    assert Digits(70) == Digits(7) + "0";
  }

  predicate FitsPage(n: Node) {
    |Payload(n)| + NODE_HEADER_SIZE <= PAGE_SIZE
  }

  /** A node is too large for its page exactly when its text has more than 4088 characters, all of them ASCII: the fixed part
      of the text, and the keys, lists, children and link between. */
  lemma FitsIff(n: Node)
    ensures FitsPage(n) <==> |Payload(n)| <= 4088
    ensures |Payload(n)| == |Commas(Numbers(n.keys))| + |Commas(ListTexts(n.values))| + |Commas(Numbers(n.children))|
                            + |Decimal(n.nextLeaf)| + if n.isLeaf then 65 else 66
  {
    hide Commas, Numbers, ListTexts, Decimal;
  }

  // ---------- Lengths ----------

  lemma Powers()
    ensures Pow10(2) == 100 && Pow10(3) == 1000 && Pow10(9) == 10_0000_0000 && Pow10(10) == 100_0000_0000
    ensures Pow10(18) == 100_0000_0000_0000_0000 && Pow10(19) == 1000_0000_0000_0000_0000
  {
    assert Pow10(2) == 100;
    assert Pow10(4) == 1_0000;
    assert Pow10(6) == 100_0000;
    assert Pow10(8) == 1_0000_0000;
    assert Pow10(10) == 100_0000_0000;
    assert Pow10(12) == 1_0000_0000_0000;
    assert Pow10(14) == 100_0000_0000_0000;
    assert Pow10(16) == 1_0000_0000_0000_0000;
    assert Pow10(18) == 100_0000_0000_0000_0000;
  }

  lemma {:induction false} CommasLength(xs: seq<string>, m: nat)
    requires forall i :: 0 <= i < |xs| ==> |xs[i]| <= m
    ensures xs != [] ==> |Commas(xs)| + 1 <= |xs| * (m + 1)
    ensures xs == [] ==> |Commas(xs)| == 0
    decreases |xs|
  {
    if |xs| > 1 {
      CommasLength(xs[1..], m);
      OneMore(|xs|, m + 1);
    }
  }

  lemma {:induction false} CommasLongerThan(xs: seq<string>, m: nat)
    requires xs != [] && forall i :: 0 <= i < |xs| ==> m <= |xs[i]|
    ensures |xs| * (m + 1) <= |Commas(xs)| + 1
    decreases |xs|
  {
    if |xs| > 1 {
      CommasLongerThan(xs[1..], m);
      OneMore(|xs|, m + 1);
    }
  }

  predicate Unsigned32(n: nat) {
    n < 0x1_0000_0000
  }

  /** The number of slot entries for which a heap page has room behind its header. */
  const MAX_SLOTS := 816

  /** A pointer that a heap page can give out. */
  predicate StorablePointer(p: RowPointer) {
    Unsigned32(p.pageId) && p.slotId < MAX_SLOTS
  }

  lemma NumberLengths()
    ensures forall k: int :: Int64(k) ==> |Decimal(k)| <= 20
    ensures forall n: nat :: Unsigned32(n) ==> |Decimal(n)| <= 10
    ensures forall n: nat :: n < MAX_SLOTS ==> |Decimal(n)| <= 3
  {
    Powers();
    forall k: int | Int64(k) ensures |Decimal(k)| <= 20 {
      DigitsLength(if k < 0 then -k else k, 19);
    }
    forall n: nat | Unsigned32(n) ensures |Decimal(n)| <= 10 {
      DigitsLength(n, 10);
    }
    forall n: nat | n < MAX_SLOTS ensures |Decimal(n)| <= 3 {
      DigitsLength(n, 3);
    }
  }

  /** At most `m` pointers a key, and every number in the width the engine stores it in. */
  ghost predicate Narrow(n: Node, m: nat) {
    && (forall i :: 0 <= i < |n.keys| ==> Int64(n.keys[i]))
    && (forall i :: 0 <= i < |n.values| ==> |n.values[i]| <= m && forall p :: p in n.values[i] ==> StorablePointer(p))
    && (forall i :: 0 <= i < |n.children| ==> Unsigned32(n.children[i]))
    && Unsigned32(n.nextLeaf)
  }

  lemma ListLength(ps: seq<RowPointer>)
    requires |ps| <= 6 && forall p :: p in ps ==> StorablePointer(p)
    ensures |ListText(ps)| <= 103
  {
    NumberLengths();
    forall i | 0 <= i < |ps| ensures |PointerTexts(ps)[i]| <= 16 {
      assert ps[i] in ps;
    }
    CommasLength(PointerTexts(ps), 16);
    TimesMonotone(|ps|, 6, 17);
  }

  lemma ColumnLength(xs: seq<string>, count: nat, m: nat)
    requires |xs| <= count && count >= 1 && forall i :: 0 <= i < |xs| ==> |xs[i]| <= m
    ensures |Commas(xs)| < count * (m + 1)
  {
    CommasLength(xs, m);
    TimesMonotone(|xs|, count, m + 1);
  }

  /** A node of the shape the tree writes fits while no key has more than six pointers. */
  lemma NodeFits(n: Node)
    requires Writable(n) && Narrow(n, 6)
    ensures FitsPage(n)
  {
    NumberLengths();
    ColumnLength(Numbers(n.keys), MAX_KEYS, 20);
    forall i | 0 <= i < |n.values| ensures |ListTexts(n.values)[i]| <= 103 {
      ListLength(n.values[i]);
    }
    if n.isLeaf {
      ColumnLength(ListTexts(n.values), MAX_KEYS, 103);
    } else {
      ColumnLength(Numbers(n.children), MAX_KEYS + 1, 10);
    }
    assert |Decimal(n.nextLeaf)| <= 10;
  }

  // ---------- Every node of a tree ----------

  /** What the stored map may hold for the nodes to fit. */
  ghost predicate FewPointers(m: map<int, seq<RowPointer>>, most: nat) {
    forall k :: k in m ==> |m[k]| <= most && forall p :: p in m[k] ==> StorablePointer(p)
  }

  /** Every node of the tree is narrow. */
  ghost predicate AllNarrow(t: Tree) {
    Narrow(NodeOf(t), 6) && (t.Branch? ==> forall c :: c in t.kids ==> AllNarrow(c))
  }

  /** Every page of a tree whose keys are 64-bit numbers with at most six pointers each
      holds a node that fits. */
  lemma TreeNodesFit(s: seq<PageData>, root: PageId, t: Tree, h: nat, lo: int, hi: int)
    requires TreeInv(s, root, t, h, lo, hi) && |s| <= NO_PAGE && KeyRange(lo, hi)
    requires FewPointers(Contents(Entries(t)), 6)
    ensures AllNarrow(t)
    ensures forall x :: x in Ids(t) ==> x < |s| && s[x].NodePage? && Writable(s[x].node) && FitsPage(s[x].node)
  {
    TreeNarrow(s, root, t, h, lo, hi);
    PagesFit(s, t, h, lo, hi);
  }

  /** All keys are 64-bit numbers. */
  ghost predicate KeyRange(lo: int, hi: int) {
    -0x8000_0000_0000_0000 <= lo && hi <= 0x8000_0000_0000_0000
  }

  lemma TreeNarrow(s: seq<PageData>, root: PageId, t: Tree, h: nat, lo: int, hi: int)
    requires TreeInv(s, root, t, h, lo, hi) && |s| <= NO_PAGE && KeyRange(lo, hi)
    requires FewPointers(Contents(Entries(t)), 6)
    ensures AllNarrow(t)
  {
    hide AllNarrow;
    EntriesWF(t, h, lo, hi);
    forall e | e in Entries(t) ensures |e.ptrs| <= 6 && forall p :: p in e.ptrs ==> StorablePointer(p) {
      EntryInMap(Entries(t), e);
    }
    ChainNarrow(s, t);
    SubtreeNarrow(s, t, h, lo, hi);
  }

  lemma {:induction false} EntryInMap(es: seq<Entry>, e: Entry)
    requires Sorted(es) && e in es
    ensures e.key in Contents(es) && Contents(es)[e.key] == e.ptrs
  {
    if e != es[0] {
      var i :| 1 <= i < |es| && es[i] == e;
      assert es[1..][i - 1] == e;
      EntryInMap(es[1..], e);
    }
  }

  ghost predicate SmallEntries(es: seq<Entry>) {
    forall e :: e in es ==> |e.ptrs| <= 6 && forall p :: p in e.ptrs ==> StorablePointer(p)
  }

  ghost predicate NarrowLinks(ls: seq<LeafPage>) {
    forall l :: l in ls ==> Unsigned32(l.next)
  }

  lemma ChainNarrow(s: seq<PageData>, t: Tree)
    requires Chain(Leaves(t), NO_PAGE) && Rep(s, t) && |s| <= NO_PAGE
    ensures NarrowLinks(Leaves(t))
  {
    LeavesStored(s, t);
    var ls := Leaves(t);
    forall l | l in ls ensures Unsigned32(l.next) {
      var i :| 0 <= i < |ls| && ls[i] == l;
      assert ChainedAt(ls, i, NO_PAGE);
      if i + 1 < |ls| {
        assert ls[i + 1] in ls;
      }
    }
  }

  lemma {:induction false} SubtreeNarrow(s: seq<PageData>, t: Tree, h: nat, lo: int, hi: int)
    requires Cell(t, h, lo, hi) && Rep(s, t) && |s| <= NO_PAGE && KeyRange(lo, hi)
    requires SmallEntries(Entries(t)) && NarrowLinks(Leaves(t))
    ensures AllNarrow(t)
    decreases h
  {
    CellShape(t, h, lo, hi);
    if t.Leaf? {
      LeafNarrow(t.leaf, h, lo, hi);
    } else {
      hide *;
      BranchNarrow(s, t, h, lo, hi);
      forall c | c in t.kids ensures AllNarrow(c) {
        var i, l, u := KidNarrow(s, t, c, h, lo, hi);
        SubtreeNarrow(s, c, h - 1, l, u);
      }
      AllNarrowMeans(t);
    }
  }

  lemma AllNarrowMeans(t: Tree)
    ensures AllNarrow(t) <==> Narrow(NodeOf(t), 6) && (t.Branch? ==> forall c :: c in t.kids ==> AllNarrow(c))
  {
  }

  lemma LeafNarrow(l: LeafPage, h: nat, lo: int, hi: int)
    requires Cell(Leaf(l), h, lo, hi) && KeyRange(lo, hi)
    requires SmallEntries(Entries(Leaf(l))) && NarrowLinks(Leaves(Leaf(l)))
    ensures Narrow(NodeOf(Leaf(l)), 6)
  {
    assert WF(Leaf(l), h, lo, hi);
    EntriesLeaf(l);
    var n := NodeOf(Leaf(l));
    forall i | 0 <= i < |n.values| ensures |n.values[i]| <= 6 && forall p :: p in n.values[i] ==> StorablePointer(p) {
      assert l.es[i] in l.es;
    }
    assert l in Leaves(Leaf(l));
  }

  lemma BranchNarrow(s: seq<PageData>, t: Tree, h: nat, lo: int, hi: int)
    requires t.Branch? && Cell(t, h, lo, hi) && Rep(s, t) && |s| <= NO_PAGE && KeyRange(lo, hi)
    ensures Narrow(NodeOf(t), 6)
  {
    CellShape(t, h, lo, hi);
    SepsSorted(t.seps, t.kids, h - 1, lo, hi);
    var n := NodeOf(t);
    forall i | 0 <= i < |n.children| ensures Unsigned32(n.children[i]) {
      assert Rep(s, t.kids[i]);
    }
  }

  /** What a child takes over from its parent. */
  lemma KidNarrow(s: seq<PageData>, t: Tree, c: Tree, h: nat, lo: int, hi: int) returns (i: nat, l: int, u: int)
    requires t.Branch? && Cell(t, h, lo, hi) && Rep(s, t) && c in t.kids && KeyRange(lo, hi)
    requires SmallEntries(Entries(t)) && NarrowLinks(Leaves(t))
    ensures h > 0 && Cell(c, h - 1, l, u) && Rep(s, c) && KeyRange(l, u)
    ensures SmallEntries(Entries(c)) && NarrowLinks(Leaves(c))
  {
    hide *;
    i := KidPlace(t.kids, c);
    l, u := KidCell(t, i, h, lo, hi);
    KidRep(s, t, c);
    LeavesOfKids(t);
    KidEntries(t.kids, i);
  }

  lemma KidPlace(ts: seq<Tree>, c: Tree) returns (i: nat)
    requires c in ts
    ensures i < |ts| && ts[i] == c
  {
    i :| 0 <= i < |ts| && ts[i] == c;
  }

  lemma KidRep(s: seq<PageData>, t: Tree, c: Tree)
    requires t.Branch? && Rep(s, t) && c in t.kids
    ensures Rep(s, c)
  {
  }

  lemma LeavesOfKids(t: Tree)
    requires t.Branch?
    ensures Leaves(t) == LeavesOf(t.kids) && Entries(t) == EntriesOf(LeavesOf(t.kids))
  {
  }

  lemma KidCell(t: Tree, i: nat, h: nat, lo: int, hi: int) returns (l: int, u: int)
    requires t.Branch? && Cell(t, h, lo, hi) && i < |t.kids| && KeyRange(lo, hi)
    ensures h > 0 && i < |t.seps| + 1 && l == LowBound(t.seps, lo, i) && u == HighBound(t.seps, hi, i)
    ensures Cell(t.kids[i], h - 1, l, u) && KeyRange(l, u)
  {
    CellShape(t, h, lo, hi);
    l, u := LowBound(t.seps, lo, i), HighBound(t.seps, hi, i);
    assert Cell(t.kids[i], h - 1, l, u);
    SepsSorted(t.seps, t.kids, h - 1, lo, hi);
  }

  lemma KidEntries(ts: seq<Tree>, i: nat)
    requires i < |ts| && SmallEntries(EntriesOf(LeavesOf(ts))) && NarrowLinks(LeavesOf(ts))
    ensures SmallEntries(Entries(ts[i])) && NarrowLinks(Leaves(ts[i]))
  {
    KidLeaves(ts, i);
    EntriesThree(LeavesOf(ts[..i]), Leaves(ts[i]), LeavesOf(ts[i + 1..]));
    hide LeavesOf, Leaves, EntriesOf;
  }

  lemma KidLeaves(ts: seq<Tree>, i: nat)
    requires i < |ts|
    ensures LeavesOf(ts) == LeavesOf(ts[..i]) + Leaves(ts[i]) + LeavesOf(ts[i + 1..])
  {
    hide *;
    AroundOne(ts, i);
    LeavesThree(ts[..i], [ts[i]], ts[i + 1..]);
    LeavesSingle(ts[i]);
  }

  lemma AroundOne(ts: seq<Tree>, i: nat)
    requires i < |ts|
    ensures ts[..i] + [ts[i]] + ts[i + 1..] == ts
  {
  }

  lemma LeavesThree(a: seq<Tree>, b: seq<Tree>, c: seq<Tree>)
    ensures LeavesOf(a + b + c) == LeavesOf(a) + LeavesOf(b) + LeavesOf(c)
  {
    LeavesConcat(a + b, c);
    LeavesConcat(a, b);
  }

  ghost predicate NodeGood(s: seq<PageData>, x: PageId) {
    x < |s| && s[x].NodePage? && Writable(s[x].node) && FitsPage(s[x].node)
  }

  /** The pages of a tree of narrow nodes. */
  lemma {:induction false} PagesFit(s: seq<PageData>, t: Tree, h: nat, lo: int, hi: int)
    requires Cell(t, h, lo, hi) && Rep(s, t) && AllNarrow(t)
    ensures forall x :: x in Ids(t) ==> NodeGood(s, x)
    decreases h
  {
    hide *;
    CellShape(t, h, lo, hi);
    AllNarrowMeans(t);
    TopGood(s, t, h, lo, hi);
    IdsMeans(t);
    if t.Branch? {
      forall c | c in t.kids ensures forall x :: x in Ids(c) ==> NodeGood(s, x) {
        var i := KidPlace(t.kids, c);
        var l, u := KidBounds(t, i, h, lo, hi);
        KidRep(s, t, c);
        PagesFit(s, c, h - 1, l, u);
      }
      KidsGood(s, t.kids);
    }
  }

  lemma KidBounds(t: Tree, i: nat, h: nat, lo: int, hi: int) returns (l: int, u: int)
    requires t.Branch? && Cell(t, h, lo, hi) && i < |t.kids|
    ensures h > 0 && Cell(t.kids[i], h - 1, l, u)
  {
    CellShape(t, h, lo, hi);
    l, u := LowBound(t.seps, lo, i), HighBound(t.seps, hi, i);
    assert Cell(t.kids[i], h - 1, l, u);
  }

  lemma IdsMeans(t: Tree)
    ensures Ids(t) == if t.Leaf? then multiset{t.leaf.id} else multiset{t.bid} + IdsOf(t.kids)
  {
  }

  lemma TopGood(s: seq<PageData>, t: Tree, h: nat, lo: int, hi: int)
    requires Cell(t, h, lo, hi) && Rep(s, t) && Narrow(NodeOf(t), 6)
    ensures NodeGood(s, if t.Leaf? then t.leaf.id else t.bid)
  {
    hide FitsPage;
    CellShape(t, h, lo, hi);
    NodeFits(NodeOf(t));
  }

  lemma {:induction false} KidsGood(s: seq<PageData>, ts: seq<Tree>)
    requires forall c :: c in ts ==> forall x :: x in Ids(c) ==> NodeGood(s, x)
    ensures forall x :: x in IdsOf(ts) ==> NodeGood(s, x)
    decreases |ts|
  {
    if ts != [] {
      hide NodeGood, Ids;
      assert ts[0] in ts;
      assert forall c :: c in ts[1..] ==> c in ts;
      KidsGood(s, ts[1..]);
    }
  }
}
