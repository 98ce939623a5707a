/** A tree whose nodes all fit, and an insertion after which one does not: with seven pointers for one key. */
module Overflows {
  import opened Storage
  import opened Decimals
  import opened EntryList
  import opened TreeModel
  import opened TreePath
  import opened TreeGrowth
  import opened TreeTheorems
  import opened NodeFit
  import opened Descents

  const LOWEST_KEY := -0x8000_0000_0000_0000

  /** The pointer number `j` of key number `k`. */
  function SamplePointer(k: nat, j: nat): RowPointer {
    RowPointer(4_000_000_000 + k, 100 + j)
  }

  /** Six pointers for one key. */
  function FullList(k: nat): (ps: seq<RowPointer>)
    ensures |ps| == 6 && forall j :: 0 <= j < 6 ==> ps[j] == SamplePointer(k, j)
  {
    seq(6, j requires 0 <= j < 6 => SamplePointer(k, j))
  }

  /** 32 keys with six pointers each. */
  function FullEntries(): (es: seq<Entry>)
    ensures |es| == 32 && forall k :: 0 <= k < 32 ==> es[k] == Entry(LOWEST_KEY + k, FullList(k))
  {
    seq(32, k requires 0 <= k < 32 => Entry(LOWEST_KEY + k, FullList(k)))
  }

  function FullLeaf(): LeafPage {
    LeafPage(0, FullEntries(), NO_PAGE)
  }

  function FullPages(): seq<PageData> {
    [NodePage(NodeOf(Leaf(FullLeaf())))]
  }

  /** The node after one more pointer for the first key. */
  ghost function OverfullNode(): Node {
    var n := NodeOf(Leaf(FullLeaf()));
    n.(values := n.values[0 := n.values[0] + [SamplePointer(0, 6)]])
  }

  lemma FullTree()
    ensures TreeInv(FullPages(), 0, Leaf(FullLeaf()), 0, LOWEST_KEY, LOWEST_KEY + 32)
    ensures Entries(Leaf(FullLeaf())) == FullEntries() && Sorted(FullEntries()) && Increasing(Keys(FullEntries()))
  {
    LeafRun(FullLeaf());
    EntriesLeaf(FullLeaf());
    assert Sorted(FullEntries()) && Within(FullEntries(), LOWEST_KEY, LOWEST_KEY + 32);
    assert NoneEmpty(FullEntries()) by {
      forall i | 0 <= i < 32 ensures FullEntries()[i].ptrs != [] {
        assert |FullList(i)| == 6;
      }
    }
    assert WF(Leaf(FullLeaf()), 0, LOWEST_KEY, LOWEST_KEY + 32);
    assert ChainedAt([FullLeaf()], 0, NO_PAGE);
  }

  lemma FullFew()
    ensures FewPointers(Contents(FullEntries()), 6)
  {
    var m := Contents(FullEntries());
    FullTree();
    hide FullEntries, Contents, TreeInv, Entries;
    forall k | k in m ensures |m[k]| <= 6 && forall p :: p in m[k] ==> StorablePointer(p) {
      ContentsKey(FullEntries(), k);
      var i :| 0 <= i < 32 && FullEntries()[i].key == k;
      EntryInMap(FullEntries(), FullEntries()[i]);
    }
  }

  lemma PointerLength(k: nat, j: nat)
    requires k < 32 && j < 7
    ensures |PointerText(SamplePointer(k, j))| >= 16
  {
    Powers();
    DigitsLength(4_000_000_000 + k, 9);
    DigitsLength(100 + j, 2);
    hide Digits, Pow10;
  }

  lemma LongList(ps: seq<RowPointer>)
    requires ps != [] && forall j :: 0 <= j < |ps| ==> |PointerText(ps[j])| >= 16
    ensures |ListText(ps)| >= 17 * |ps| + 1
  {
    hide PointerText;
    CommasLongerThan(PointerTexts(ps), 16);
  }

  lemma FullListLengths(k: nat)
    requires k < 32
    ensures |ListText(FullList(k))| >= 103 && |ListText(FullList(k) + [SamplePointer(k, 6)])| >= 120
  {
    hide PointerText, ListText, SamplePointer;
    forall j | 0 <= j < 7 ensures |PointerText(SamplePointer(k, j))| >= 16 {
      PointerLength(k, j);
    }
    LongList(FullList(k));
    LongList(FullList(k) + [SamplePointer(k, 6)]);
  }

  lemma KeysLong()
    ensures |Commas(Numbers(Keys(FullEntries())))| + 1 >= 32 * 21
  {
    var ks := Keys(FullEntries());
    Powers();
    forall i | 0 <= i < 32 ensures |Numbers(ks)[i]| >= 20 {
      assert ks[i] == FullEntries()[i].key;
      DigitsLength(-ks[i], 18);
    }
    hide Numbers, FullEntries;
    CommasLongerThan(Numbers(ks), 20);
  }

  lemma ListsLong(vs: seq<seq<RowPointer>>)
    requires |vs| == 32 && vs[0] == FullList(0) + [SamplePointer(0, 6)] && forall k :: 1 <= k < 32 ==> vs[k] == FullList(k)
    ensures |Commas(ListTexts(vs))| + 1 >= 121 + 31 * 104
  {
    var xs := ListTexts(vs);
    FullListLengths(0);
    forall i | 0 <= i < 31 ensures |xs[1..][i]| >= 103 {
      FullListLengths(i + 1);
      assert xs[1..][i] == xs[i + 1] == ListText(vs[i + 1]);
    }
    hide ListText, ListTexts, FullList;
    CommasLongerThan(xs[1..], 103);
  }

  /** One list of seven and 31 of six are too much. */
  lemma TooLong()
    ensures !FitsPage(OverfullNode())
  {
    var n := OverfullNode();
    KeysLong();
    OverfullParts();
    ListsLong(n.values);
    LinkLong();
    hide OverfullNode, FullEntries, FullList, Payload, Commas, Numbers, ListTexts, Decimal;
    PayloadAtLeast(n);
  }

  lemma OverfullParts()
    ensures var n := OverfullNode();
      && n.keys == Keys(FullEntries()) && n.nextLeaf == NO_PAGE
      && |n.values| == 32 && n.values[0] == FullList(0) + [SamplePointer(0, 6)] && forall k :: 1 <= k < 32 ==> n.values[k] == FullList(k)
  {
  }

  lemma LinkLong()
    ensures |Decimal(NO_PAGE)| >= 10
  {
    Powers();
    DigitsLength(NO_PAGE, 9);
  }

  lemma PayloadAtLeast(n: Node)
    ensures |Payload(n)| >= 65 + |Commas(Numbers(n.keys))| + |Commas(ListTexts(n.values))| + |Decimal(n.nextLeaf)|
  {
    hide Commas, Numbers, ListTexts, Decimal;
  }

  lemma SeventhAt()
    ensures var n := NodeOf(Leaf(FullLeaf()));
      Increasing(n.keys) && |n.values| == |n.keys| == 32 && WithPointer(n, LOWEST_KEY, SamplePointer(0, 6)) == OverfullNode()
  {
    FullTree();
    var n := NodeOf(Leaf(FullLeaf()));
    assert n.keys[0] == LOWEST_KEY;
    hide FullEntries, FullList, Keys, Vals;
  }

  /** Before the insertion every list has six pointers and the node fits; the seventh pointer of one key makes it too large,
      though no pointer is listed twice and all are such as a heap page can give out. */
  lemma SeventhPointer()
    ensures TreeInv(FullPages(), 0, Leaf(FullLeaf()), 0, LOWEST_KEY, LOWEST_KEY + 32) && KeyRange(LOWEST_KEY, LOWEST_KEY + 32)
    ensures FewPointers(Contents(Entries(Leaf(FullLeaf()))), 6) && FitsPage(FullPages()[0].node)
    ensures StorablePointer(SamplePointer(0, 6)) && forall k :: 0 <= k < 32 ==> SamplePointer(0, 6) !in FullList(k)
    ensures forall k, j, k', j' :: 0 <= k < 32 && 0 <= j < 6 && 0 <= k' < 32 && 0 <= j' < 6 && FullList(k)[j] == FullList(k')[j'] ==>
      k == k' && j == j'
    ensures InsertFrom(FullPages(), 0, LOWEST_KEY, SamplePointer(0, 6), 0).Some?
    ensures !InsertFits(FullPages(), 0, LOWEST_KEY, SamplePointer(0, 6), 0)
  {
    FullTree();
    FullFew();
    FullFits();
    TooLong();
    SeventhAt();
    hide FitsPage, FullEntries, NodeOf, TreeInv, FewPointers, WithPointer, OverfullNode, Contents, Entries;
    assert FullPages()[0] == NodePage(NodeOf(Leaf(FullLeaf())));
    OverfullKeys();
    LeafInsertion(FullPages(), FullLeaf(), LOWEST_KEY, SamplePointer(0, 6));
  }

  lemma OverfullKeys()
    ensures |OverfullNode().keys| == 32
  {
  }

  /** An insertion into a tree of one leaf. */
  lemma LeafInsertion(s: seq<PageData>, l: LeafPage, key: int, p: RowPointer)
    requires l.id < |s| && s[l.id] == NodePage(NodeOf(Leaf(l)))
    requires var n := NodeOf(Leaf(l)); Increasing(n.keys) && |n.values| == |n.keys| && |WithPointer(n, key, p).keys| <= MAX_KEYS
    ensures InsertFrom(s, l.id, key, p, 0).Some?
    ensures InsertFits(s, l.id, key, p, 0) <==> FitsPage(WithPointer(NodeOf(Leaf(l)), key, p))
  {
    hide FitsPage, WithPointer;
    ReachEnd(s, l, key, 0);
  }

  lemma FullFits()
    ensures FitsPage(FullPages()[0].node)
  {
    FullTree();
    FullFew();
    hide FitsPage, FullEntries, FullList;
    var t := Leaf(FullLeaf());
    TreeNodesFit(FullPages(), 0, t, 0, LOWEST_KEY, LOWEST_KEY + 32);
    assert 0 in Ids(t);
  }
}
