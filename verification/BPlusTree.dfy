/** The persistent integer-key B+ tree. */
module BPlusTrees {
  import opened Storage
  import opened BigEndian
  import opened EntryList
  import opened TreeModel
  import opened TreePath
  import opened TreeGrowth
  import opened TreeShrink
  import opened TreeRepair
  import opened TreeDelete
  import opened NodeFit
  import opened Misfits
  import opened NarrowGrowth
  import opened Descents
  import LeafRepair
  import BranchRepair

  /** The key and page handed up by a node that was split. */
  datatype Split = Split(key: int, page: PageId)

  /** What a split report says about the run of subtrees it left behind. */
  ghost predicate Reported(split: Option<Split>, ks: seq<int>, ts: seq<Tree>) {
    match split
    case None => |ts| == 1 && ks == []
    case Some(sp) => |ts| == 2 && ks == [sp.key] && ts[1].Id() == sp.page
  }

  /** The page of a new root above two halves. */
  lemma NewRootNode(s: seq<PageData>, s': seq<PageData>, t: Tree, split: Split, ks: seq<int>, ts: seq<Tree>, h: nat, lo: int, hi: int, id: PageId)
    requires Reported(Some(split), ks, ts) && Grown(s, s', t, ks, ts, h, lo, hi, NO_PAGE)
    ensures |ts| == 2
    ensures var root := Node(false, [split.key], [], [t.Id(), split.page], NO_PAGE);
      NodeOf(Branch(id, ks, ts)) == root && Writable(root)
  {
    assert ts[0].Id() == t.Id();
    hide Grown;
  }

  /** The key and the page of a split report fit the widths they are stored in. */
  ghost predicate SplitNarrow(split: Option<Split>) {
    split.Some? ==> Int64(split.value.key) && Unsigned32(split.value.page)
  }

  lemma NewRootFits(s: seq<PageData>, s': seq<PageData>, t: Tree, split: Split, ks: seq<int>, ts: seq<Tree>, h: nat, lo: int, hi: int, root: Node)
    requires Reported(Some(split), ks, ts) && Grown(s, s', t, ks, ts, h, lo, hi, NO_PAGE)
    requires root == Node(false, [split.key], [], [t.Id(), split.page], NO_PAGE) && Writable(root)
    ensures SplitNarrow(Some(split)) && |s'| <= NO_PAGE ==> FitsPage(root)
  {
    GrownTop(s, s', t, ks, ts, h, lo, hi);
    hide *;
    if SplitNarrow(Some(split)) && |s'| <= NO_PAGE {
      NarrowRoot(split, t.Id());
      NarrowFits(root);
    }
  }

  lemma GrownTop(s: seq<PageData>, s': seq<PageData>, t: Tree, ks: seq<int>, ts: seq<Tree>, h: nat, lo: int, hi: int)
    requires Grown(s, s', t, ks, ts, h, lo, hi, NO_PAGE)
    ensures t.Id() < |s'|
  {
    assert Rep(s', ts[0]);
  }

  lemma NarrowRoot(split: Split, id: PageId)
    requires SplitNarrow(Some(split)) && id < NO_PAGE
    ensures Narrow(Node(false, [split.key], [], [id, split.page], NO_PAGE), 6)
  {
  }

  /** The page of a new, empty tree. */
  lemma EmptyFits(root: Node)
    requires root == Node(true, [], [], [], NO_PAGE)
    ensures FitsPage(root)
  {
    hide FitsPage;
    NarrowFits(root);
  }

  lemma EmptyTree(s: seq<PageData>, id: PageId)
    requires id < |s| && s[id] == NodePage(Node(true, [], [], [], NO_PAGE))
    ensures var t := Leaf(LeafPage(id, [], NO_PAGE));
      TreeInv(s, id, t, 0, 0, 1) && EntryList.Contents(Entries(t)) == map[] && Ids(t) == multiset{id}
  {
    var t := Leaf(LeafPage(id, [], NO_PAGE));
    LeafRun(t.leaf);
    assert NodeOf(t) == Node(true, [], [], [], NO_PAGE);
  }

  lemma Appended(s: seq<PageData>, s': seq<PageData>, node: Node)
    requires s' == (s + [ZeroPage()])[|s| := NodePage(node)]
    ensures s' == s + [NodePage(node)]
  {
  }

  /** A node on the way down, as its page shows it. */
  lemma AtNode(s: seq<PageData>, t: Tree, h: nat, lo: int, hi: int, key: int)
    requires Cell(t, h, lo, hi) && Rep(s, t) && lo <= key < hi
    ensures t.Id() < |s| && s[t.Id()] == NodePage(NodeOf(t)) && (t.Leaf? <==> h == 0) && WF(t, h, lo, hi)
    ensures NodeOf(t).isLeaf <==> t.Leaf?
    ensures t.Leaf? ==> t.Id() == t.leaf.id
    ensures t.Branch? ==> NodeOf(t).keys == t.seps && Increasing(t.seps) && NodeOf(t).children == TreeIds(t.kids) && |t.kids| == |t.seps| + 1
    ensures t.Branch? ==> var i := BisectRight(t.seps, key); i < |t.kids| && LowBound(t.seps, lo, i) <= key < HighBound(t.seps, hi, i)
  {
    CellShape(t, h, lo, hi);
    assert WF(t, h, lo, hi);
    if t.Branch? {
      Routed(t, h, lo, hi, key);
    }
  }

  lemma OnlyLeaf(l: LeafPage, after: PageId)
    requires Chain(Leaves(Leaf(l)), after)
    ensures l.next == after && Entries(Leaf(l)) == l.es
  {
    LeafRun(l);
    assert ChainedAt([l], 0, after);
  }

  /** The keys of a branch of 64-bit keys, and the key range of a child. */
  lemma BranchKeys(s: seq<PageData>, t: Tree, i: nat, h: nat, lo: int, hi: int)
    requires t.Branch? && Cell(t, h, lo, hi) && Rep(s, t) && i < |t.kids| == |t.seps| + 1
    ensures KeyRange(lo, hi) && |s| <= NO_PAGE ==> Narrow(NodeOf(t), 6)
    ensures KeyRange(lo, hi) ==> KeyRange(LowBound(t.seps, lo, i), HighBound(t.seps, hi, i))
  {
    hide *;
    if KeyRange(lo, hi) {
      var l, u := KidCell(t, i, h, lo, hi);
      if |s| <= NO_PAGE {
        BranchNarrow(s, t, h, lo, hi);
      }
    }
  }

  /** What is known of a branch one of whose children has grown. */
  lemma GrownParts(s: seq<PageData>, s': seq<PageData>, t: Tree, i: nat, ks: seq<int>, ts: seq<Tree>, h: nat, lo: int, hi: int, after: PageId)
    requires t.Branch? && h > 0 && i < |t.kids| == |t.seps| + 1
    requires Grown(s, s', t.kids[i], ks, ts, h - 1, LowBound(t.seps, lo, i), HighBound(t.seps, hi, i),
                   Or(FirstLeaf(LeavesOf(t.kids[i + 1..])), after))
    ensures |ts| > 0 && ts[0].Id() == t.kids[i].Id() && |s| <= |s'|
    ensures WFKids(ks, ts, h - 1, LowBound(t.seps, lo, i), HighBound(t.seps, hi, i))
  {
  }

  lemma TreeParts(s: seq<PageData>, root: PageId, t: Tree, h: nat, lo: int, hi: int)
    requires TreeInv(s, root, t, h, lo, hi)
    ensures t.Id() == root && Cell(t, h, lo, hi) && RootOK(t) && Chain(Leaves(t), NO_PAGE) && Distinct(Ids(t)) && Rep(s, t)
  {
  }

  /** Widening a range of 64-bit keys by a 64-bit key. */
  lemma WiderKeys(lo: int, hi: int, l: int, u: int, key: int)
    requires RangeGrows(lo, hi, l, u, key)
    ensures KeyRange(lo, hi) && Int64(key) ==> KeyRange(l, u)
  {
  }

  lemma GrownSize(s: seq<PageData>, s': seq<PageData>, t: Tree, ks: seq<int>, ts: seq<Tree>, h: nat, lo: int, hi: int, after: PageId)
    requires Grown(s, s', t, ks, ts, h, lo, hi, after)
    ensures |s| <= |s'|
  {
  }

  lemma NoSplit(ks: seq<int>, ts: seq<Tree>)
    requires Reported(None, ks, ts)
    ensures ks == [] && |ts| == 1
  {
  }

  lemma InsertEnds(s: seq<PageData>, s': seq<PageData>, t: Tree, root': PageId, t': Tree, h': nat, lo: int, hi: int, key: int, p: RowPointer)
    requires InsertOutcome(s, s', t, root', t', h', lo, hi, key, p)
    ensures TreeInv(s', root', t', h', lo, hi) && Untouched(s, s', Ids(t))
    ensures EntryList.Contents(Entries(t')) == Added(EntryList.Contents(Entries(t)), key, p)
    ensures forall x :: x in Ids(t') ==> x in Ids(t) || |s| <= x
    ensures forall x :: x in Ids(t) ==> x in Ids(t')
  {
  }

  /** One step of a descent: the branch visited and the child taken. */
  datatype PathStep = PathStep(id: PageId, node: Node, childIndex: nat)

  /** The recorded path runs through the frames of `fs` to the page `hole`. */
  ghost predicate PathMatches(path: seq<PathStep>, fs: Ctx, hole: PageId)
    decreases fs
  {
    if fs.Top? then path == []
    else
      && path != []
      && path[|path| - 1] == PathStep(fs.f.id, FrameNode(fs.f, hole), |fs.f.l|)
      && PathMatches(path[..|path| - 1], fs.up, fs.f.id)
  }

  lemma DeleteDone(s: seq<PageData>, s': seq<PageData>, root: PageId, t: Tree, t': Tree, h': nat, fs: Ctx, l: Tree, lo: int, hi: int)
    requires Repaired(s, s', root, t', h', fs, l, lo, hi) && CtxIds(fs) + Ids(l) == Ids(t)
    ensures TreeInv(s', root, t', h', lo, hi) && |s'| == |s| && Untouched(s, s', Ids(t))
    ensures Entries(t') == EntriesOf(AllLeaves(fs, l)) && Untouched(s, s', Ids(t'))
    ensures forall x :: x in Ids(t') ==> x in Ids(t)
    ensures CollapsesAt(fs, l) ==> t' == Melted(fs, l)
  {
  }

  lemma LeafCollapses(s: seq<PageData>, root: PageId, fs: Ctx, lf: LeafPage, lo: int, hi: int)
    requires Open(s, root, fs, Leaf(lf), 0, lo, hi)
    ensures |lf.es| < MIN_KEYS && Collapses(fs) ==> CollapsesAt(fs, Leaf(lf))
  {
  }

  /** The state of the descent towards `key`: page `id` holds the subtree `t`, `path` leads there. */
  ghost predicate Descent(s: seq<PageData>, whole: Tree, height: nat, path: seq<PathStep>, fs: Ctx, t: Tree, h: nat,
                          id: PageId, node: Node, lo: int, hi: int, key: int)
  {
    && OnPath(s, whole, fs, t, h, lo, hi, key)
    && PathMatches(path, fs, id) && t.Id() == id && node == NodeOf(t)
    && |path| + h == height
  }

  lemma DescentStarts(s: seq<PageData>, root: PageId, t: Tree, h: nat, lo: int, hi: int, key: int)
    requires t.Id() == root && Rep(s, t) && RootOK(t) && Cell(t, h, lo, hi) && lo <= key < hi
    ensures Descent(s, t, h, [], Top, t, h, root, NodeOf(t), lo, hi, key)
    ensures root < |s| && s[root] == NodePage(NodeOf(t))
  {
    OnPathStart(s, root, t, h, lo, hi, key);
  }

  lemma DescentEnds(s: seq<PageData>, whole: Tree, height: nat, path: seq<PathStep>, fs: Ctx, t: Tree, h: nat,
                    id: PageId, node: Node, lo: int, hi: int, key: int)
    returns (lf: LeafPage)
    requires node.isLeaf && Descent(s, whole, height, path, fs, t, h, id, node, lo, hi, key)
    ensures Fits(s, fs, Leaf(lf), 0, lo, hi) && Plug(fs, Leaf(lf)) == whole
    ensures HoleLow(fs, lo) <= key < HoleHigh(fs, hi)
    ensures PathMatches(path, fs, id) && id == lf.id && node == NodeOf(Leaf(lf))
    ensures |path| == height
    ensures forall p :: RootShrinks(whole, key, p) <==> Collapses(fs) && RunsShort(lf, key, p)
    ensures MeltsAlike(whole, fs, Leaf(lf), key)
  {
    OnPathView(s, whole, fs, t, h, lo, hi, key);
    OnPathEnd(s, whole, fs, t, h, lo, hi, key);
    lf := t.leaf;
  }

  /** Plain facts about the parent of an open node. */
  lemma MergeFacts(s: seq<PageData>, root: PageId, fs: Ctx, t: Tree, h: nat, lo: int, hi: int)
    requires fs.In? && Open(s, root, fs, t, h, lo, hi)
    ensures fs.f.id < |s| && s[fs.f.id] == NodePage(FrameNode(fs.f, t.Id()))
    ensures root < |s| && (fs.f.id == root <==> fs.up.Top?)
    ensures t.Id() != root
    ensures fs.f.l != [] ==> Last(fs.f.l).Id() != root
  {
    RootElsewhere(s, root, fs, t, h, lo, hi);
    FrameRoot(s, root, fs, t, h, lo, hi);
  }

  lemma PathGrows(path: seq<PathStep>, fs: Ctx, t: Tree, i: nat)
    requires t.Branch? && i < |t.kids| == |t.seps| + 1 && PathMatches(path, fs, t.bid)
    ensures PathMatches(path + [PathStep(t.bid, NodeOf(t), i)], In(FrameAt(t, i), fs), t.kids[i].Id())
    ensures NodeOf(t).children[i] == t.kids[i].Id()
  {
    FillNode(FrameAt(t, i), t.kids[i]);
    FrameFill(t, i);
    assert (path + [PathStep(t.bid, NodeOf(t), i)])[..|path|] == path;
  }

  /** A root that was given up keeps its old content, and its first child is the new root. */
  ghost predicate StaleRoot(s: seq<PageData>, s': seq<PageData>, root: PageId, root': PageId) {
    && root < |s| == |s'| && s'[root] == s[root]
    && s[root].NodePage? && s[root].node.children != [] && s[root].node.children[0] == root'
  }

  /** The tree left behind by a repair that started with `t` in the hole of `fs`: only pages of that tree were written,
      all pages below the hole belong to it and are as before, and it is known what it is if the root was given up. */
  ghost predicate Repaired(s: seq<PageData>, s': seq<PageData>, root: PageId, t': Tree, h': nat, fs: Ctx, t: Tree, lo: int, hi: int) {
    && Closed(s, s', root, t', h', lo, hi, EntriesOf(AllLeaves(fs, t)), CtxIds(fs) + Ids(t))
    && Untouched(s, s', Ids(t')) && (t.Branch? ==> IdsOf(t.kids) <= Ids(t')) && KeptBelow(s, s', t)
    && (CollapsesAt(fs, t) ==> t' == Melted(fs, t))
  }

  /** A repair by which no page left the tree. */
  lemma RepairedInPlace(s: seq<PageData>, s': seq<PageData>, root: PageId, t': Tree, h': nat, fs: Ctx, t: Tree, lo: int, hi: int)
    requires Closed(s, s', root, t', h', lo, hi, EntriesOf(AllLeaves(fs, t)), CtxIds(fs) + Ids(t))
    requires Ids(t') == CtxIds(fs) + Ids(t) && !CollapsesAt(fs, t) && KeptBelow(s, s', t)
    ensures Repaired(s, s', root, t', h', fs, t, lo, hi)
  {
    hide TreeInv, CollapsesAt, EntriesOf, AllLeaves, CtxIds;
  }

  /** A root that has only one child left is replaced by it. */
  lemma RootGivenUp(s: seq<PageData>, root: PageId, t: Tree, h: nat, lo: int, hi: int)
    requires Open(s, root, Top, t, h, lo, hi) && t.Branch? && t.seps == []
    ensures |t.kids| == 1 && h > 0 && t.kids[0].Id() != root
    ensures Repaired(s, s, t.kids[0].Id(), t.kids[0], h - 1, Top, t, lo, hi)
  {
    hide Open, Closed;
    RootReplaced(s, root, t, h, lo, hi);
    assert t.kids == [t.kids[0]];
    IdsSingle(t.kids[0]);
  }

  /** A merge, and the repair that it made necessary one level up. */
  lemma RepairedAbove(s0: seq<PageData>, s1: seq<PageData>, s2: seq<PageData>, root: PageId, root': PageId, t': Tree, h': nat, fs: Ctx, t: Tree,
                      pt: Tree, h: nat, lo: int, hi: int)
    requires Merged(s0, s1, root, fs, t, pt, h, lo, hi) && Repaired(s1, s2, root', t', h', fs.up, pt, lo, hi) && KeptBelow(s0, s1, t)
    ensures Repaired(s0, s2, root', t', h', fs, t, lo, hi)
  {
    hide Open, TreeInv, EntriesOf, AllLeaves, CtxIds, Ids, IdsOf, Pooled;
    ClosedMore(s0, s1, s2, root', t', h', lo, hi, EntriesOf(AllLeaves(fs, t)), CtxIds(fs.up) + Ids(pt), CtxIds(fs) + Ids(t));
    PageKept(pt, t');
  }

  lemma BelowStays(s: seq<PageData>, s': seq<PageData>, root: PageId, t': Tree, h': nat, fs: Ctx, pt: Tree, lo: int, hi: int)
    requires Repaired(s, s', root, t', h', fs, pt, lo, hi) && pt.Branch?
    ensures Agree(s, s', IdsOf(pt.kids)) && forall x :: x in IdsOf(pt.kids) ==> x in Ids(t')
  {
    hide Closed, Ids, IdsOf, Untouched, CollapsesAt;
    PageKept(pt, t');
  }

  lemma PageKept(pt: Tree, t': Tree)
    requires pt.Branch? && IdsOf(pt.kids) <= Ids(t')
    ensures forall x :: x in IdsOf(pt.kids) ==> x in Ids(t')
  {
  }

  /** What a deletion says about nodes that are too large: if all nodes fitted before, the flag is raised if and only if one of the
      nodes that are left does not, and that is impossible as long as the lists are short. */
  lemma DeleteFlag(s: seq<PageData>, s': seq<PageData>, o: bool, o': bool, t: Tree, h: nat, lo: int, hi: int,
                   root': PageId, t': Tree, h': nat, l: int, u: int, key: int, p: RowPointer)
    requires Cell(t, h, lo, hi) && p in Lookup(EntryList.Contents(Entries(t)), key) && RangeGrows(lo, hi, l, u, key)
    requires TreeInv(s', root', t', h', l, u) && Flagged(s, s', o, o', Ids(t')) && forall x :: x in Ids(t') ==> x in Ids(t)
    requires EntryList.Contents(Entries(t')) == Removed(EntryList.Contents(Entries(t)), key, p)
    ensures AllFit(s, Ids(t)) ==> (o' <==> o || !AllFit(s', Ids(t')))
    ensures KeyRange(lo, hi) && |s'| <= NO_PAGE && FewPointers(EntryList.Contents(Entries(t)), 6) ==> o' == o
  {
    hide *;
    if AllFit(s, Ids(t)) {
      FlagExact(s, s', o, o', Ids(t), Ids(t'));
    }
    if KeyRange(lo, hi) && |s'| <= NO_PAGE && FewPointers(EntryList.Contents(Entries(t)), 6) {
      KeyInside(t, h, lo, hi, key, p);
      WiderKeys(lo, hi, l, u, key);
      StillFewPointers(EntryList.Contents(Entries(t)), key, p);
      TreeNodesFit(s', root', t', h', l, u);
      NoneMisfits(s, s', o, o', Ids(t'));
    }
  }

  lemma NothingDeleted(s: seq<PageData>, o: bool, ids: multiset<PageId>, lo: int, hi: int, key: int)
    ensures RangeGrows(lo, hi, lo, hi, key) && Untouched(s, s, ids) && (AllFit(s, ids) ==> (o <==> o || !AllFit(s, ids)))
  {
  }

  lemma NoneMisfits(s: seq<PageData>, s': seq<PageData>, o: bool, o': bool, ids: multiset<PageId>)
    requires Flagged(s, s', o, o', ids) && forall x :: x in ids ==> x < |s'| && s'[x].NodePage? && FitsPage(s'[x].node)
    ensures o' == o
  {
    hide FitsPage;
  }

  lemma KeyInside(t: Tree, h: nat, lo: int, hi: int, key: int, p: RowPointer)
    requires Cell(t, h, lo, hi) && p in Lookup(EntryList.Contents(Entries(t)), key)
    ensures lo <= key < hi && (KeyRange(lo, hi) ==> Int64(key))
  {
    EntriesWF(t, h, lo, hi);
    ContentsKey(Entries(t), key);
    hide Entries, EntryList.Contents;
  }

  lemma StillFewPointers(m: map<int, seq<RowPointer>>, key: int, p: RowPointer)
    requires FewPointers(m, 6)
    ensures FewPointers(Removed(m, key, p), 6)
  {
    if p in Lookup(m, key) {
      FewerPointers(m[key], p);
    }
  }

  lemma {:induction false} FewerPointers(ps: seq<RowPointer>, p: RowPointer)
    ensures |RemoveFirst(ps, p)| <= |ps| && forall q :: q in RemoveFirst(ps, p) ==> q in ps
  {
    if ps != [] && ps[0] != p {
      FewerPointers(ps[1..], p);
    }
  }

  /** The page `id` with content `node` is one key short; `path` leads to it. */
  ghost predicate AtHole(s: seq<PageData>, root: PageId, path: seq<PathStep>, id: PageId, node: Node, fs: Ctx, t: Tree,
                         h: nat, lo: int, hi: int)
  {
    && fs.In? && PathMatches(path, fs, id)
    && Open(s, root, fs, t, h, lo, hi) && t.Size() == MIN_KEYS - 1
    && t.Id() == id && node == NodeOf(t)
  }

  class BPlusTree {
    const pager: Pager
    var rootPageId: PageId
    ghost var tree: Tree
    ghost var height: nat
    ghost var lo: int
    ghost var hi: int

    ghost predicate Valid()
      reads this, pager
    {
      TreeInv(pager.pages, rootPageId, tree, height, lo, hi)
    }

    /** The map from key to row pointers that the index stores. */
    ghost function Contents(): map<int, seq<RowPointer>>
      reads this
    {
      EntryList.Contents(Entries(tree))
    }

    lemma Meaning()
      ensures Valid() <==> TreeInv(pager.pages, rootPageId, tree, height, lo, hi)
      ensures Contents() == EntryList.Contents(Entries(tree))
    {
    }

    /** Creates a tree with one empty leaf as its root. */
    constructor Create(pager: Pager)
      modifies pager
      ensures Valid() && this.pager == pager && lo == 0 && hi == 1
      ensures Contents() == map[]
      ensures rootPageId == |old(pager.pages)| && Ids(tree) == multiset{rootPageId}
      ensures |pager.pages| == |old(pager.pages)| + 1 && old(pager.pages) <= pager.pages
      ensures pager.oversize == old(pager.oversize)
    {
      this.pager := pager;
      var id := pager.AllocatePage();
      var root := Node(true, [], [], [], NO_PAGE);
      rootPageId := id;
      tree, height, lo, hi := Leaf(LeafPage(id, [], NO_PAGE)), 0, 0, 1;
      new;
      WriteNode(id, root);
      hide FitsPage, ZeroPage;
      EmptyFits(root);
      EmptyTree(pager.pages, id);
    }

    /** Opens the tree stored under `root`. */
    constructor (pager: Pager, root: PageId, ghost t: Tree, ghost h: nat, ghost lo: int, ghost hi: int)
      requires TreeInv(pager.pages, root, t, h, lo, hi)
      ensures Valid() && this.pager == pager && rootPageId == root
      ensures tree == t && height == h && this.lo == lo && this.hi == hi
    {
      this.pager, rootPageId := pager, root;
      tree, height, this.lo, this.hi := t, h, lo, hi;
    }

    method ReadNode(id: PageId) returns (node: Node)
      requires id < |pager.pages| && pager.pages[id].NodePage?
      ensures pager.pages[id] == NodePage(node)
    {
      node := pager.pages[id].node;
    }

    method WriteNode(id: PageId, node: Node)
      requires id < |pager.pages| && Writable(node)
      modifies pager
      ensures pager.pages == old(pager.pages)[id := NodePage(node)]
      ensures pager.oversize == (old(pager.oversize) || !FitsPage(node))
    {
      if !FitsPage(node) {
        pager.oversize := true;
      }
      pager.pages := pager.pages[id := NodePage(node)];
    }

    // ---------- Insertion ----------

    /** Adds `pointer` to the list of `key`. */
    method Insert(key: int, pointer: RowPointer)
      requires Valid()
      modifies this, pager
      ensures Valid()
      ensures Contents() == Added(old(Contents()), key, pointer)
      ensures Untouched(old(pager.pages), pager.pages, old(Ids(tree)))
      ensures forall x :: x in Ids(tree) ==> x in old(Ids(tree)) || |old(pager.pages)| <= x
      ensures forall x :: x in old(Ids(tree)) ==> x in Ids(tree)
      ensures RangeGrows(old(lo), old(hi), lo, hi, key)
      ensures var plain := InsertFrom(old(pager.pages), old(rootPageId), key, pointer, old(height));
        plain.Some? ==> pager.pages == plain.value && rootPageId == old(rootPageId)
      ensures KeyRange(old(lo), old(hi)) && Int64(key) && |pager.pages| <= NO_PAGE ==>
        pager.oversize == (old(pager.oversize) || !InsertFits(old(pager.pages), old(rootPageId), key, pointer, old(height)))
      ensures KeyRange(old(lo), old(hi)) && Int64(key) && |pager.pages| <= NO_PAGE && FewPointers(Contents(), 6) ==>
        pager.oversize == old(pager.oversize)
    {
      hide *;
      ghost var s0, t0, m0 := pager.pages, tree, Contents();
      Meaning();
      TreeParts(s0, rootPageId, tree, height, lo, hi);
      ghost var l, u := MakeRoom(tree, height, lo, hi, key);
      WiderKeys(lo, hi, l, u, key);
      if KeyRange(lo, hi) && Int64(key) && |s0| <= NO_PAGE && FewPointers(Added(m0, key, pointer), 6) {
        LightInsertion(s0, rootPageId, tree, height, lo, hi, key, pointer);
        LightFits(s0, tree, height, l, u, key, pointer);
      }
      var split, ks, ts := InsertRecursive(rootPageId, key, pointer, tree, height, l, u, NO_PAGE);
      GrownSize(s0, pager.pages, tree, ks, ts, height, l, u, NO_PAGE);
      if split.None? {
        NoSplit(ks, ts);
        RootKept(s0, pager.pages, tree, ts, height, l, u, key, pointer);
        tree, lo, hi := ts[0], l, u;
      } else {
        GrowRoot(split.value, ks, ts, s0, l, u, key, pointer);
      }
      InsertEnds(s0, pager.pages, t0, rootPageId, tree, height, lo, hi, key, pointer);
      Meaning();
    }

    /** Puts a new root above the two halves of the old one. */
    method GrowRoot(split: Split, ghost ks: seq<int>, ghost ts: seq<Tree>, ghost s0: seq<PageData>,
                    ghost l: int, ghost u: int, ghost key: int, ghost pointer: RowPointer)
      requires Reported(Some(split), ks, ts) && tree.Id() == rootPageId
      requires Grown(s0, pager.pages, tree, ks, ts, height, l, u, NO_PAGE)
      requires Sorted(Entries(tree)) && EntriesOf(LeavesOf(ts)) == InsertEntry(Entries(tree), key, pointer)
      modifies this, pager
      ensures InsertOutcome(s0, pager.pages, old(tree), rootPageId, tree, height, lo, hi, key, pointer)
      ensures lo == l && hi == u && |old(pager.pages)| <= |pager.pages|
      ensures SplitNarrow(Some(split)) && |pager.pages| <= NO_PAGE ==> pager.oversize == old(pager.oversize)
    {
      hide FitsPage, Narrow, Grown, InsertOutcome, Sorted, Reported, Writable, NodeOf, EntriesOf, LeavesOf, Entries, InsertEntry, ZeroPage;
      ghost var s1 := pager.pages;
      var id := pager.AllocatePage();
      var root := Node(false, [split.key], [], [rootPageId, split.page], NO_PAGE);
      NewRootNode(s0, s1, tree, split, ks, ts, height, l, u, id);
      WriteNode(id, root);
      NewRootFits(s0, s1, tree, split, ks, ts, height, l, u, root);
      Appended(s1, pager.pages, root);
      RootGrown(s0, s1, pager.pages, tree, ks, ts, height, l, u, key, pointer);
      rootPageId := id;
      tree, height, lo, hi := Branch(id, ks, ts), height + 1, l, u;
    }

    method InsertRecursive(pageId: PageId, key: int, pointer: RowPointer,
                           ghost t: Tree, ghost h: nat, ghost lo: int, ghost hi: int, ghost after: PageId)
      returns (split: Option<Split>, ghost ks: seq<int>, ghost ts: seq<Tree>)
      requires t.Id() == pageId && Cell(t, h, lo, hi) && lo <= key < hi
      requires Rep(pager.pages, t) && Distinct(Ids(t)) && Chain(Leaves(t), after)
      modifies pager
      ensures Reported(split, ks, ts)
      ensures Grown(old(pager.pages), pager.pages, t, ks, ts, h, lo, hi, after)
      ensures Sorted(Entries(t)) && EntriesOf(LeavesOf(ts)) == InsertEntry(Entries(t), key, pointer)
      ensures var plain := InsertFrom(old(pager.pages), pageId, key, pointer, h); plain.Some? ==> split.None? && pager.pages == plain.value
      ensures KeyRange(lo, hi) && |pager.pages| <= NO_PAGE ==> SplitNarrow(split)
      ensures KeyRange(lo, hi) && |pager.pages| <= NO_PAGE ==>
        pager.oversize == (old(pager.oversize) || !InsertFits(old(pager.pages), pageId, key, pointer, h))
      decreases h
    {
      hide *;
      AtNode(pager.pages, t, h, lo, hi, key);
      PlainInsert(pager.pages, t, h, lo, hi, key, pointer);
      var node := ReadNode(pageId);
      if node.isLeaf {
        OnlyLeaf(t.leaf, after);
        split, ks, ts := InsertIntoLeaf(pageId, node, key, pointer, t.leaf, lo, hi);
        return;
      }
      var i := BisectRight(node.keys, key);
      var child := node.children[i];
      ChildReady(pager.pages, t, i, h, lo, hi, after);
      ghost var s0 := pager.pages;
      BranchKeys(s0, t, i, h, lo, hi);
      var below, cks, cts := InsertRecursive(child, key, pointer, t.kids[i], h - 1, LowBound(t.seps, lo, i), HighBound(t.seps, hi, i),
                                             Or(FirstLeaf(LeavesOf(t.kids[i + 1..])), after));
      GrownChild(s0, pager.pages, t, i, cks, cts, h, lo, hi, after, key, pointer);
      GrownParts(s0, pager.pages, t, i, cks, cts, h, lo, hi, after);
      split, ks, ts := FinishInsert(pageId, node, below, s0, t, i, cks, cts, h, lo, hi, after);
    }

    /** Takes up the report of the child that was inserted into. */
    method FinishInsert(pageId: PageId, node0: Node, below: Option<Split>, ghost s0: seq<PageData>, ghost t: Tree, ghost i: nat,
                        ghost cks: seq<int>, ghost cts: seq<Tree>, ghost h: nat, ghost lo: int, ghost hi: int, ghost after: PageId)
      returns (split: Option<Split>, ghost ks: seq<int>, ghost ts: seq<Tree>)
      requires t.Branch? && t.Id() == pageId && NodeOf(t) == node0 && h > 0 && WF(t, h, lo, hi)
      requires pageId < |s0| && s0[pageId] == NodePage(node0)
      requires i < |t.kids| == |t.seps| + 1 && Reported(below, cks, cts) && cts[0].Id() == t.kids[i].Id()
      requires WFKids(cks, cts, h - 1, LowBound(t.seps, lo, i), HighBound(t.seps, hi, i))
      requires RowReady(s0, pager.pages, t, t.seps[..i] + cks + t.seps[i..], t.kids[..i] + cts + t.kids[i + 1..], h - 1, lo, hi, after)
      modifies pager
      ensures Reported(split, ks, ts)
      ensures Grown(s0, pager.pages, t, ks, ts, h, lo, hi, after)
      ensures LeavesOf(ts) == LeavesOf(t.kids[..i] + cts + t.kids[i + 1..])
      ensures |old(pager.pages)| <= |pager.pages|
      ensures below.None? ==> split.None? && pager.pages == old(pager.pages)
      ensures Narrow(node0, 6) && SplitNarrow(below) && |pager.pages| <= NO_PAGE ==>
        pager.oversize == old(pager.oversize) && SplitNarrow(split)
    {
      hide Narrow;
      ghost var kk, tt := t.seps[..i] + cks + t.seps[i..], t.kids[..i] + cts + t.kids[i + 1..];
      if below.None? {
        split, ks, ts := None, [], [Branch(pageId, kk, tt)];
        SameKids(t, i, cks, cts);
        CloseRow(s0, pager.pages, pager.pages, t, kk, tt, h - 1, lo, hi, after);
      } else {
        var node := node0;
        var Split(promoted, newChild) := below.value;
        PromotedPlace(t, i, cks, cts, h, lo, hi);
        OneMoreKid(t, i, cks, cts);
        var at := BisectRight(node.keys, promoted);
        node := node.(keys := node.keys[..at] + [promoted] + node.keys[at..],
                      children := node.children[..at + 1] + [newChild] + node.children[at + 1..]);
        if Narrow(node0, 6) && SplitNarrow(below) {
          NewChild(node0, at, promoted, newChild);
        }
        split, ks, ts := StoreBranch(pageId, node, s0, t, kk, tt, h, lo, hi, after);
      }
    }

    /** Writes a branch back, in two pages when it has become too large. */
    method StoreBranch(pageId: PageId, node: Node, ghost s0: seq<PageData>, ghost t: Tree,
                       ghost kk: seq<int>, ghost tt: seq<Tree>, ghost h: nat, ghost lo: int, ghost hi: int, ghost after: PageId)
      returns (split: Option<Split>, ghost ks: seq<int>, ghost ts: seq<Tree>)
      requires h > 0 && |kk| <= MAX_KEYS + 1 && RowReady(s0, pager.pages, t, kk, tt, h - 1, lo, hi, after)
      requires t.bid == pageId && node == NodeOf(Branch(pageId, kk, tt))
      modifies pager
      ensures Reported(split, ks, ts)
      ensures Grown(s0, pager.pages, t, ks, ts, h, lo, hi, after)
      ensures LeavesOf(ts) == LeavesOf(tt) && (split.None? <==> |kk| <= 32)
      ensures |old(pager.pages)| <= |pager.pages|
      ensures Narrow(node, 6) && |pager.pages| <= NO_PAGE ==> pager.oversize == old(pager.oversize) && SplitNarrow(split)
    {
      hide Narrow, FitsPage;
      ghost var s1 := pager.pages;
      NarrowFits(node);
      if |node.keys| <= MAX_KEYS {
        WriteNode(pageId, node);
        split, ks, ts := None, [], [Branch(pageId, kk, tt)];
        CloseRow(s0, s1, pager.pages, t, kk, tt, h - 1, lo, hi, after);
      } else {
        split := SplitInternal(pageId, node);
        ghost var m := |kk| / 2;
        ghost var (a, b) := BranchHalves(pageId, kk, tt, m, |s1|);
        BranchHalvesNodes(pageId, kk, tt, m, |s1|);
        ks, ts := [kk[m]], [a, b];
        CloseRowSplit(s0, s1, pager.pages, t, kk, tt, m, h - 1, lo, hi, after);
      }
    }

    method InsertIntoLeaf(pageId: PageId, leaf0: Node, key: int, pointer: RowPointer,
                          ghost l: LeafPage, ghost lo: int, ghost hi: int)
      returns (split: Option<Split>, ghost ks: seq<int>, ghost ts: seq<Tree>)
      requires l.id == pageId && NodeOf(Leaf(l)) == leaf0 && Cell(Leaf(l), 0, lo, hi) && lo <= key < hi
      requires pageId < |pager.pages|
      modifies pager
      ensures Reported(split, ks, ts)
      ensures Grown(old(pager.pages), pager.pages, Leaf(l), ks, ts, 0, lo, hi, l.next)
      ensures EntriesOf(LeavesOf(ts)) == InsertEntry(l.es, key, pointer)
      ensures split.None? <==> |InsertEntry(l.es, key, pointer)| <= 32
      ensures Increasing(leaf0.keys) && |leaf0.values| == |leaf0.keys|
      ensures var leaf := WithPointer(leaf0, key, pointer);
        |leaf.keys| <= MAX_KEYS ==> split.None? && pager.pages == old(pager.pages)[pageId := NodePage(leaf)]
      ensures pager.oversize == (old(pager.oversize) || !StoredFits(WithPointer(leaf0, key, pointer), |old(pager.pages)|))
      ensures KeyRange(lo, hi) && |pager.pages| <= NO_PAGE ==> SplitNarrow(split)
    {
      hide StoredFits;
      var leaf := leaf0;
      ghost var l' := InsertedLeaf(l, key, pointer);
      InsertedLeafCell(l, key, pointer, lo, hi);
      InsertedLeafNode(l, key, pointer);
      var index := BisectLeft(leaf.keys, key);
      if index < |leaf.keys| && leaf.keys[index] == key {
        leaf := leaf.(values := leaf.values[index := leaf.values[index] + [pointer]]);
      } else {
        leaf := leaf.(keys := leaf.keys[..index] + [key] + leaf.keys[index..],
                      values := leaf.values[..index] + [[pointer]] + leaf.values[index..]);
      }
      split, ks, ts := StoreLeaf(pageId, leaf, l, l', lo, hi);
    }

    /** Writes a leaf back, in two pages when it has become too large. */
    method StoreLeaf(pageId: PageId, leaf: Node, ghost l: LeafPage, ghost l': LeafPage, ghost lo: int, ghost hi: int)
      returns (split: Option<Split>, ghost ks: seq<int>, ghost ts: seq<Tree>)
      requires l.id == pageId < |pager.pages| && l'.id == pageId && l'.next == l.next
      requires NodeOf(Leaf(l')) == leaf && lo < hi && Sorted(l'.es) && Within(l'.es, lo, hi) && NoneEmpty(l'.es)
      requires |l.es| <= |l'.es| <= MAX_KEYS + 1
      modifies pager
      ensures Reported(split, ks, ts)
      ensures Grown(old(pager.pages), pager.pages, Leaf(l), ks, ts, 0, lo, hi, l.next)
      ensures EntriesOf(LeavesOf(ts)) == l'.es
      ensures split.None? <==> |l'.es| <= 32
      ensures |leaf.keys| <= MAX_KEYS ==> split.None? && pager.pages == old(pager.pages)[pageId := NodePage(leaf)]
      ensures pager.oversize == (old(pager.oversize) || !StoredFits(leaf, |old(pager.pages)|))
      ensures KeyRange(lo, hi) && |pager.pages| <= NO_PAGE ==> SplitNarrow(split)
    {
      hide FitsPage;
      ghost var s0 := pager.pages;
      if |leaf.keys| <= MAX_KEYS {
        WriteNode(pageId, leaf);
        split, ks, ts := None, [], [Leaf(l')];
        GrownLeaf(s0, pager.pages, l, l', lo, hi, l.next);
      } else {
        split := SplitLeaf(pageId, leaf);
        ghost var m := |leaf.keys| / 2;
        ghost var (a, b) := LeafHalves(l', m, |s0|);
        LeafHalvesNodes(l', m, |s0|);
        ks, ts := [b.es[0].key], [Leaf(a), Leaf(b)];
        GrownLeafHalves(s0, pager.pages, l, l', m, lo, hi);
      }
    }

    method SplitLeaf(pageId: PageId, leaf0: Node) returns (split: Option<Split>)
      requires pageId < |pager.pages| && leaf0.isLeaf && leaf0.children == []
      requires MAX_KEYS < |leaf0.keys| == |leaf0.values| <= MAX_KEYS + 1
      modifies pager
      ensures var m, id := |leaf0.keys| / 2, |old(pager.pages)|;
        && split == Some(Split(leaf0.keys[m], id))
        && pager.pages == old(pager.pages)
             [pageId := NodePage(Node(true, leaf0.keys[..m], leaf0.values[..m], [], id))]
           + [NodePage(Node(true, leaf0.keys[m..], leaf0.values[m..], [], leaf0.nextLeaf))]
      ensures pager.oversize == (old(pager.oversize) || !StoredFits(leaf0, |old(pager.pages)|))
    {
      hide FitsPage;
      var leaf := leaf0;
      var splitAt := |leaf.keys| / 2;
      var newPage := pager.AllocatePage();
      var newLeaf := Node(true, leaf.keys[splitAt..], leaf.values[splitAt..], [], leaf.nextLeaf);
      leaf := leaf.(keys := leaf.keys[..splitAt], values := leaf.values[..splitAt], nextLeaf := newPage);
      WriteNode(pageId, leaf);
      WriteNode(newPage, newLeaf);
      split := Some(Split(newLeaf.keys[0], newPage));
    }

    method SplitInternal(pageId: PageId, node0: Node) returns (split: Option<Split>)
      requires pageId < |pager.pages| && !node0.isLeaf && node0.values == [] && node0.nextLeaf == NO_PAGE
      requires MAX_KEYS < |node0.keys| <= MAX_KEYS + 1 && |node0.children| == |node0.keys| + 1
      modifies pager
      ensures var m, id := |node0.keys| / 2, |old(pager.pages)|;
        && split == Some(Split(node0.keys[m], id))
        && pager.pages == old(pager.pages)
             [pageId := NodePage(Node(false, node0.keys[..m], [], node0.children[..m + 1], NO_PAGE))]
           + [NodePage(Node(false, node0.keys[m + 1..], [], node0.children[m + 1..], NO_PAGE))]
      ensures Narrow(node0, 6) && |pager.pages| <= NO_PAGE ==> pager.oversize == old(pager.oversize) && SplitNarrow(split)
    {
      hide Narrow, FitsPage;
      var node := node0;
      var splitAt := |node.keys| / 2;
      var promoted := node.keys[splitAt];
      var newPage := pager.AllocatePage();
      var newInternal := Node(false, node.keys[splitAt + 1..], [], node.children[splitAt + 1..], NO_PAGE);
      node := node.(keys := node.keys[..splitAt], children := node.children[..splitAt + 1]);
      WriteNode(pageId, node);
      WriteNode(newPage, newInternal);
      split := Some(Split(promoted, newPage));
      if Narrow(node0, 6) && |pager.pages| <= NO_PAGE {
        BranchHalvesNarrow(node0, splitAt);
        NarrowFits(node);
        NarrowFits(newInternal);
      }
    }

    // ---------- Search ----------

    /** All row pointers stored for `key`. */
    method Search(key: int) returns (pointers: seq<RowPointer>)
      requires Valid()
      ensures pointers == Lookup(Contents(), key)
      ensures pointers == SearchFrom(pager.pages, rootPageId, key, height)
    {
      ghost var l, u := MakeRoom(tree, height, lo, hi, key);
      SearchTree(pager.pages, tree, height, l, u, key);
      DescentStarts(pager.pages, rootPageId, tree, height, l, u, key);
      var leafId, leaf, path, fs, lf := FindLeafWithPath(key, l, u);
      LeafView(tree, fs, lf, pager.pages, l, u, key);
      var index := BisectLeft(leaf.keys, key);
      if index < |leaf.keys| && leaf.keys[index] == key {
        return leaf.values[index];
      }
      return [];
    }

    /** Goes down to the leaf whose range holds `key`, recording the branches passed. */
    method FindLeafWithPath(key: int, ghost l: int, ghost u: int)
      returns (leafId: PageId, leaf: Node, path: seq<PathStep>, ghost fs: Ctx, ghost lf: LeafPage)
      requires Descent(pager.pages, tree, height, [], Top, tree, height, rootPageId, NodeOf(tree), l, u, key)
      requires rootPageId < |pager.pages| && pager.pages[rootPageId] == NodePage(NodeOf(tree))
      ensures Fits(pager.pages, fs, Leaf(lf), 0, l, u) && Plug(fs, Leaf(lf)) == tree
      ensures HoleLow(fs, l) <= key < HoleHigh(fs, u)
      ensures PathMatches(path, fs, leafId) && leafId == lf.id && leaf == NodeOf(Leaf(lf))
      ensures |path| == height
      ensures forall p :: RootShrinks(tree, key, p) <==> Collapses(fs) && RunsShort(lf, key, p)
      ensures MeltsAlike(tree, fs, Leaf(lf), key)
    {
      hide *;
      leafId := rootPageId;
      leaf := ReadNode(leafId);
      path := [];
      ghost var t, h := tree, height;
      fs := Top;
      while !leaf.isLeaf
        invariant Descent(pager.pages, tree, height, path, fs, t, h, leafId, leaf, l, u, key)
        decreases h
      {
        leafId, leaf, path, fs, t := StepDown(key, leafId, leaf, path, fs, t, h, l, u);
        h := h - 1;
      }
      lf := DescentEnds(pager.pages, tree, height, path, fs, t, h, leafId, leaf, l, u, key);
    }

    /** One iteration of the descent: records the branch and reads the child that `key` belongs to. */
    method StepDown(key: int, id: PageId, node: Node, path: seq<PathStep>, ghost fs: Ctx, ghost t: Tree, ghost h: nat, ghost l: int, ghost u: int)
      returns (id': PageId, node': Node, path': seq<PathStep>, ghost fs': Ctx, ghost t': Tree)
      requires !node.isLeaf && Descent(pager.pages, tree, height, path, fs, t, h, id, node, l, u, key)
      ensures h > 0 && Descent(pager.pages, tree, height, path', fs', t', h - 1, id', node', l, u, key)
    {
      hide OnPath, Fits, TreeInv, Rep;
      OnPathView(pager.pages, tree, fs, t, h, l, u, key);
      var i := BisectRight(node.keys, key);
      OnPathStep(pager.pages, tree, fs, t, i, h, l, u, key);
      PathGrows(path, fs, t, i);
      path' := path + [PathStep(id, node, i)];
      id' := node.children[i];
      fs', t' := In(FrameAt(t, i), fs), t.kids[i];
      node' := ReadNode(id');
    }

    // ---------- Deletion ----------

    /** Removes `pointer` from the list of `key`; says whether it was there. */
    method Delete(key: int, pointer: RowPointer) returns (found: bool)
      requires Valid()
      modifies this, pager
      ensures Valid()
      ensures found <==> pointer in Lookup(old(Contents()), key)
      ensures Contents() == Removed(old(Contents()), key, pointer)
      ensures !found ==> pager.pages == old(pager.pages) && rootPageId == old(rootPageId)
      ensures |pager.pages| == |old(pager.pages)| && Untouched(old(pager.pages), pager.pages, old(Ids(tree)))
      ensures forall x :: x in Ids(tree) ==> x in old(Ids(tree))
      ensures Untouched(old(pager.pages), pager.pages, Ids(tree))
      ensures rootPageId != old(rootPageId) <==> found && RootShrinks(old(tree), key, pointer)
      ensures rootPageId != old(rootPageId) ==> StaleRoot(old(pager.pages), pager.pages, old(rootPageId), rootPageId)
      ensures rootPageId != old(rootPageId) ==> tree == MeltedRoot(old(tree), key, pointer)
      ensures RangeGrows(old(lo), old(hi), lo, hi, key)
      ensures AllFit(old(pager.pages), old(Ids(tree))) ==>
        (pager.oversize <==> old(pager.oversize) || !AllFit(pager.pages, Ids(tree)))
      ensures KeyRange(old(lo), old(hi)) && |pager.pages| <= NO_PAGE && FewPointers(old(Contents()), 6) ==>
        pager.oversize == old(pager.oversize)
    {
      hide *;
      ghost var s0, o0, t0, lo0, hi0 := pager.pages, pager.oversize, tree, lo, hi;
      Meaning();
      TreeParts(s0, rootPageId, tree, height, lo, hi);
      ghost var l, u := MakeRoom(tree, height, lo, hi, key);
      ghost var t', h';
      DescentStarts(s0, rootPageId, tree, height, l, u, key);
      LookupRemoved(Contents(), key, pointer);
      found, t', h' := DeletePages(key, pointer, l, u);
      if found {
        tree, height, lo, hi := t', h', l, u;
        Meaning();
        DeleteFlag(s0, pager.pages, o0, pager.oversize, t0, old(height), lo0, hi0, rootPageId, t', h', l, u, key, pointer);
      } else {
        Meaning();
        NothingDeleted(s0, o0, Ids(tree), lo, hi, key);
      }
    }

    /** The deletion as the pages see it. */
    method DeletePages(key: int, pointer: RowPointer, ghost l: int, ghost u: int) returns (found: bool, ghost t': Tree, ghost h': nat)
      requires Descent(pager.pages, tree, height, [], Top, tree, height, rootPageId, NodeOf(tree), l, u, key)
      requires rootPageId < |pager.pages| && pager.pages[rootPageId] == NodePage(NodeOf(tree))
      requires tree.Id() == rootPageId && Chain(Leaves(tree), NO_PAGE) && Distinct(Ids(tree)) && l < u
      modifies this`rootPageId, pager
      ensures found <==> pointer in Lookup(EntryList.Contents(Entries(tree)), key)
      ensures found ==> TreeInv(pager.pages, rootPageId, t', h', l, u)
      ensures found ==> EntryList.Contents(Entries(t')) == Removed(EntryList.Contents(Entries(tree)), key, pointer)
      ensures found ==> forall x :: x in Ids(t') ==> x in Ids(tree)
      ensures !found ==> pager.pages == old(pager.pages) && rootPageId == old(rootPageId) && pager.oversize == old(pager.oversize)
      ensures |pager.pages| == |old(pager.pages)| && Untouched(old(pager.pages), pager.pages, Ids(tree))
      ensures found ==> Untouched(old(pager.pages), pager.pages, Ids(t'))
      ensures Flagged(old(pager.pages), pager.pages, old(pager.oversize), pager.oversize, Ids(t'))
      ensures rootPageId != old(rootPageId) <==> found && RootShrinks(tree, key, pointer)
      ensures rootPageId != old(rootPageId) ==> StaleRoot(old(pager.pages), pager.pages, old(rootPageId), rootPageId)
      ensures rootPageId != old(rootPageId) ==> t' == MeltedRoot(tree, key, pointer)
    {
      var leafId, leaf, path, fs, lf := FindLeafWithPath(key, l, u);
      LeafView(tree, fs, lf, pager.pages, l, u, key);
      var index := BisectLeft(leaf.keys, key);
      if index >= |leaf.keys| || leaf.keys[index] != key || pointer !in leaf.values[index] {
        FlaggedNone(pager.pages, pager.oversize, Ids(tree));
        return false, tree, height;
      }
      found := true;
      t', h' := DeleteFromLeaf(leafId, leaf, path, index, key, pointer, fs, lf, l, u);
      MeltLeaf(tree, fs, lf, index, key, pointer);
    }

    /** The key is in the leaf, at `index`, and the pointer in its list. */
    method DeleteFromLeaf(leafId: PageId, leaf: Node, path: seq<PathStep>, index: nat, ghost key: int, pointer: RowPointer,
                          ghost fs: Ctx, ghost lf: LeafPage, ghost l: int, ghost u: int)
      returns (ghost t': Tree, ghost h': nat)
      requires Fits(pager.pages, fs, Leaf(lf), 0, l, u) && l < u && Plug(fs, Leaf(lf)) == tree
      requires HoleLow(fs, l) <= key < HoleHigh(fs, u)
      requires PathMatches(path, fs, leafId) && leafId == lf.id && leaf == NodeOf(Leaf(lf))
      requires index < |lf.es| && lf.es[index].key == key && pointer in lf.es[index].ptrs
      requires tree.Id() == rootPageId && Chain(Leaves(tree), NO_PAGE) && Distinct(Ids(tree))
      modifies this`rootPageId, pager
      ensures TreeInv(pager.pages, rootPageId, t', h', l, u)
      ensures EntryList.Contents(Entries(t')) == Removed(EntryList.Contents(Entries(tree)), key, pointer)
      ensures forall x :: x in Ids(t') ==> x in Ids(tree)
      ensures |pager.pages| == |old(pager.pages)| && Untouched(old(pager.pages), pager.pages, Ids(tree))
      ensures Untouched(old(pager.pages), pager.pages, Ids(t'))
      ensures Flagged(old(pager.pages), pager.pages, old(pager.oversize), pager.oversize, Ids(t'))
      ensures rootPageId != old(rootPageId) <==> Collapses(fs) && RunsShort(lf, key, pointer)
      ensures rootPageId != old(rootPageId) ==> t' == Melted(fs, Leaf(Thinned(lf, index, pointer)))
      ensures rootPageId != old(rootPageId) ==> StaleRoot(old(pager.pages), pager.pages, old(rootPageId), rootPageId)
    {
      hide *;
      ghost var s0 := pager.pages;
      DeleteOpen(s0, rootPageId, tree, fs, lf, index, key, pointer, l, u);
      LeafCollapses(s0, rootPageId, fs, Thinned(lf, index, pointer), l, u);
      t', h' := TakeOut(leafId, leaf, path, index, pointer, fs, lf, l, u);
      DeleteDone(s0, pager.pages, rootPageId, tree, t', h', fs, Leaf(Thinned(lf, index, pointer)), l, u);
    }

    /** Takes `pointer` out of entry `index` of a leaf and stores the result. */
    method TakeOut(leafId: PageId, leaf0: Node, path: seq<PathStep>, index: nat, pointer: RowPointer,
                   ghost fs: Ctx, ghost lf: LeafPage, ghost lo: int, ghost hi: int)
      returns (ghost t': Tree, ghost h': nat)
      requires index < |lf.es| && Open(pager.pages, rootPageId, fs, Leaf(Thinned(lf, index, pointer)), 0, lo, hi)
      requires PathMatches(path, fs, leafId) && leafId == lf.id && leaf0 == NodeOf(Leaf(lf))
      modifies this`rootPageId, pager
      ensures Repaired(old(pager.pages), pager.pages, rootPageId, t', h', fs, Leaf(Thinned(lf, index, pointer)), lo, hi)
      ensures Flagged(old(pager.pages), pager.pages, old(pager.oversize), pager.oversize, Ids(t'))
      ensures rootPageId != old(rootPageId) <==> |Thinned(lf, index, pointer).es| < MIN_KEYS && Collapses(fs)
      ensures rootPageId != old(rootPageId) ==> StaleRoot(old(pager.pages), pager.pages, old(rootPageId), rootPageId)
    {
      var leaf := leaf0;
      ThinnedNode(lf, index, pointer);
      var rest := RemoveFirst(leaf.values[index], pointer);
      if rest == [] {
        leaf := leaf.(keys := leaf.keys[..index] + leaf.keys[index + 1..], values := leaf.values[..index] + leaf.values[index + 1..]);
      } else {
        leaf := leaf.(values := leaf.values[index := rest]);
      }
      t', h' := StoreThinned(leafId, leaf, path, Thinned(lf, index, pointer), fs, lo, hi);
    }

    /** Writes back a leaf that lost a pointer and repairs the tree around it. */
    method StoreThinned(leafId: PageId, leaf: Node, path: seq<PathStep>, ghost lf: LeafPage, ghost fs: Ctx, ghost lo: int, ghost hi: int)
      returns (ghost t': Tree, ghost h': nat)
      requires Open(pager.pages, rootPageId, fs, Leaf(lf), 0, lo, hi)
      requires PathMatches(path, fs, leafId) && leafId == lf.id && leaf == NodeOf(Leaf(lf))
      modifies this`rootPageId, pager
      ensures Repaired(old(pager.pages), pager.pages, rootPageId, t', h', fs, Leaf(lf), lo, hi)
      ensures Flagged(old(pager.pages), pager.pages, old(pager.oversize), pager.oversize, Ids(t'))
      ensures rootPageId != old(rootPageId) <==> |lf.es| < MIN_KEYS && Collapses(fs)
      ensures rootPageId != old(rootPageId) ==> StaleRoot(old(pager.pages), pager.pages, old(rootPageId), rootPageId)
    {
      hide Closed, Repaired, Flagged, KeptBelow, EntriesOf, AllLeaves, CtxIds, Ids;
      OpenRoot(pager.pages, rootPageId, fs, Leaf(lf), 0, lo, hi);
      if leafId == rootPageId {
        t', h' := StoreLeafAlone(leafId, leaf, lf, fs, lo, hi);
      } else if |leaf.keys| >= MIN_KEYS {
        t', h' := StoreAndRefresh(leafId, leaf, path, lf, fs, lo, hi);
      } else {
        t', h' := RebalanceLeaf(leafId, leaf, path, lf, fs, lo, hi);
      }
    }

    method StoreLeafAlone(leafId: PageId, leaf: Node, ghost lf: LeafPage, ghost fs: Ctx, ghost lo: int, ghost hi: int)
      returns (ghost t': Tree, ghost h': nat)
      requires Open(pager.pages, rootPageId, fs, Leaf(lf), 0, lo, hi) && (fs.In? ==> MIN_KEYS <= |lf.es|)
      requires leafId == lf.id && leaf == NodeOf(Leaf(lf))
      modifies pager
      ensures Repaired(old(pager.pages), pager.pages, rootPageId, t', h', fs, Leaf(lf), lo, hi)
      ensures Flagged(old(pager.pages), pager.pages, old(pager.oversize), pager.oversize, Ids(t'))
    {
      hide Open, Closed, Repaired, Flagged, KeptBelow, FitsPage, EntriesOf, AllLeaves, CtxIds, Ids, Plug, CtxWF, CtxRep, Chain;
      ghost var s0, o0, t := pager.pages, pager.oversize, Leaf(lf);
      OpenRoot(s0, rootPageId, fs, t, 0, lo, hi);
      assert RootOK(t) && (fs.In? ==> t.Full());
      WriteNode(leafId, leaf);
      TopWritten(s0, pager.pages, rootPageId, fs, t, 0, lo, hi, leaf, o0);
      Close(s0, pager.pages, rootPageId, fs, t, 0, lo, hi);
      t', h' := Plug(fs, Leaf(lf)), fs.Depth();
      RepairedInPlace(s0, pager.pages, rootPageId, t', h', fs, t, lo, hi);
    }

    /** Writes a sufficiently full leaf and sets the separator before it to its first key. */
    method StoreAndRefresh(leafId: PageId, leaf: Node, path: seq<PathStep>, ghost lf: LeafPage, ghost fs: Ctx, ghost lo: int, ghost hi: int)
      returns (ghost t': Tree, ghost h': nat)
      requires fs.In? && Open(pager.pages, rootPageId, fs, Leaf(lf), 0, lo, hi) && MIN_KEYS <= |lf.es|
      requires PathMatches(path, fs, leafId) && leafId == lf.id && leaf == NodeOf(Leaf(lf))
      modifies pager
      ensures Repaired(old(pager.pages), pager.pages, rootPageId, t', h', fs, Leaf(lf), lo, hi)
      ensures Flagged(old(pager.pages), pager.pages, old(pager.oversize), pager.oversize, Ids(t'))
    {
      hide Open, Closed, Repaired, Flagged, KeptBelow, FitsPage, EntriesOf, AllLeaves, CtxIds, Ids, CtxWF, CtxRep;
      ghost var s0, o0 := pager.pages, pager.oversize;
      var PathStep(parentId, parent, i) := path[|path| - 1];
      if i > 0 {
        LeafRepair.LeftLeaf(s0, rootPageId, fs, lf, lo, hi);
        LeafFits(s0, rootPageId, fs, lf, lo, hi);
        WriteNode(leafId, leaf);
        parent := parent.(keys := parent.keys[i - 1 := leaf.keys[0]]);
        WriteNode(parentId, parent);
        ParentWritten(s0, pager.pages, rootPageId, fs, Leaf(lf), 0, lo, hi, leaf, parent, o0);
        t', h' := Refresh(s0, pager.pages, rootPageId, fs, lf, lo, hi, leaf, parent);
        RepairedInPlace(s0, pager.pages, rootPageId, t', h', fs, Leaf(lf), lo, hi);
      } else {
        t', h' := StoreLeafAlone(leafId, leaf, lf, fs, lo, hi);
      }
    }

    // ---------- Repair after a deletion ----------

    /** Gives the underfull leaf a key from a neighbour, or pools it with one. */
    method RebalanceLeaf(leafId: PageId, leaf: Node, path: seq<PathStep>, ghost lf: LeafPage, ghost fs: Ctx, ghost lo: int, ghost hi: int)
      returns (ghost t': Tree, ghost h': nat)
      requires AtHole(pager.pages, rootPageId, path, leafId, leaf, fs, Leaf(lf), 0, lo, hi)
      modifies this`rootPageId, pager
      ensures Repaired(old(pager.pages), pager.pages, rootPageId, t', h', fs, Leaf(lf), lo, hi)
      ensures Flagged(old(pager.pages), pager.pages, old(pager.oversize), pager.oversize, Ids(t'))
      ensures rootPageId != old(rootPageId) <==> Collapses(fs)
      ensures rootPageId != old(rootPageId) ==> StaleRoot(old(pager.pages), pager.pages, old(rootPageId), rootPageId)
    {
      hide Repaired, Open;
      var left, right := ReadNeighbours(path[|path| - 1], leafId, Leaf(lf), fs, 0, lo, hi);
      if left.Some? && |left.value.1.keys| > MIN_KEYS {
        t', h' := BorrowFromLeftLeaf(leafId, leaf, path, left.value.0, left.value.1, lf, fs, lo, hi);
      } else if right.Some? && |right.value.1.keys| > MIN_KEYS {
        t', h' := BorrowFromRightLeaf(leafId, leaf, path, right.value.0, right.value.1, lf, fs, lo, hi);
      } else if left.Some? {
        t', h' := MergeIntoLeftLeaf(leafId, leaf, path, left.value.0, left.value.1, lf, fs, lo, hi);
      } else {
        t', h' := MergeRightIntoLeaf(leafId, leaf, path, right.value.0, right.value.1, lf, fs, lo, hi);
      }
    }

    /** Reads the neighbours of the child that a path step leads to, where they exist. */
    method ReadNeighbours(step: PathStep, id: PageId, ghost t: Tree, ghost fs: Ctx, ghost h: nat, ghost lo: int, ghost hi: int)
      returns (left: Option<(PageId, Node)>, right: Option<(PageId, Node)>)
      requires fs.In? && Open(pager.pages, rootPageId, fs, t, h, lo, hi) && t.Id() == id
      requires step == PathStep(fs.f.id, FrameNode(fs.f, id), |fs.f.l|)
      ensures left.Some? <==> fs.f.l != []
      ensures right.Some? <==> fs.f.r != []
      ensures left.Some? || right.Some?
      ensures left.Some? ==> left.value == (Last(fs.f.l).Id(), NodeOf(Last(fs.f.l))) && Last(fs.f.l).Full()
      ensures right.Some? ==> right.value == (fs.f.r[0].Id(), NodeOf(fs.f.r[0])) && fs.f.r[0].Full()
    {
      left, right := None, None;
      var PathStep(_, parent, i) := step;
      if i > 0 {
        LeftPair(pager.pages, rootPageId, fs, t, h, lo, hi);
        var leftId := parent.children[i - 1];
        var node := ReadNode(leftId);
        left := Some((leftId, node));
      }
      if i + 1 < |parent.children| {
        RightPair(pager.pages, rootPageId, fs, t, h, lo, hi);
        var rightId := parent.children[i + 1];
        var node := ReadNode(rightId);
        right := Some((rightId, node));
      }
    }

    method BorrowFromLeftLeaf(leafId: PageId, leaf0: Node, path: seq<PathStep>, leftId: PageId, left0: Node,
                              ghost lf: LeafPage, ghost fs: Ctx, ghost lo: int, ghost hi: int)
      returns (ghost t': Tree, ghost h': nat)
      requires AtHole(pager.pages, rootPageId, path, leafId, leaf0, fs, Leaf(lf), 0, lo, hi)
      requires fs.f.l != [] && leftId == Last(fs.f.l).Id() && left0 == NodeOf(Last(fs.f.l)) && |left0.keys| > MIN_KEYS
      modifies pager
      ensures Repaired(old(pager.pages), pager.pages, rootPageId, t', h', fs, Leaf(lf), lo, hi)
      ensures Flagged(old(pager.pages), pager.pages, old(pager.oversize), pager.oversize, Ids(t'))
      ensures !Collapses(fs)
    {
      hide Open, Closed, Repaired, Flagged, KeptBelow, FitsPage, EntriesOf, AllLeaves, CtxIds, Ids, CtxWF, CtxRep;
      LeafRepair.LeftLeaf(pager.pages, rootPageId, fs, lf, lo, hi);
      ghost var s0, o0 := pager.pages, pager.oversize;
      var PathStep(parentId, parent, i) := path[|path| - 1];
      var left, leaf, n := left0, leaf0, |left0.keys| - 1;
      leaf := leaf.(keys := [left.keys[n]] + leaf.keys, values := [left.values[n]] + leaf.values);
      left := left.(keys := left.keys[..n], values := left.values[..n]);
      parent := parent.(keys := parent.keys[i - 1 := leaf.keys[0]]);
      WriteNode(leftId, left);
      WriteNode(leafId, leaf);
      WriteNode(parentId, parent);
      NeighbourWritten(s0, pager.pages, rootPageId, fs, Leaf(lf), 0, lo, hi, leftId, left, leaf, parent, o0);
      t', h' := LeafRepair.BorrowLeft(s0, pager.pages, rootPageId, fs, lf, lo, hi, left, leaf, parent);
      RepairedInPlace(s0, pager.pages, rootPageId, t', h', fs, Leaf(lf), lo, hi);
    }

    method BorrowFromRightLeaf(leafId: PageId, leaf0: Node, path: seq<PathStep>, rightId: PageId, right0: Node,
                               ghost lf: LeafPage, ghost fs: Ctx, ghost lo: int, ghost hi: int)
      returns (ghost t': Tree, ghost h': nat)
      requires AtHole(pager.pages, rootPageId, path, leafId, leaf0, fs, Leaf(lf), 0, lo, hi)
      requires fs.f.r != [] && rightId == fs.f.r[0].Id() && right0 == NodeOf(fs.f.r[0]) && |right0.keys| > MIN_KEYS
      modifies pager
      ensures Repaired(old(pager.pages), pager.pages, rootPageId, t', h', fs, Leaf(lf), lo, hi)
      ensures Flagged(old(pager.pages), pager.pages, old(pager.oversize), pager.oversize, Ids(t'))
      ensures !Collapses(fs)
    {
      hide Open, Closed, Repaired, Flagged, KeptBelow, FitsPage, EntriesOf, AllLeaves, CtxIds, Ids, CtxWF, CtxRep;
      LeafRepair.RightLeaf(pager.pages, rootPageId, fs, lf, lo, hi);
      ghost var s0, o0 := pager.pages, pager.oversize;
      var PathStep(parentId, parent, i) := path[|path| - 1];
      var right, leaf := right0, leaf0;
      leaf := leaf.(keys := leaf.keys + [right.keys[0]], values := leaf.values + [right.values[0]]);
      right := right.(keys := right.keys[1..], values := right.values[1..]);
      parent := parent.(keys := parent.keys[i := right.keys[0]]);
      WriteNode(rightId, right);
      WriteNode(leafId, leaf);
      WriteNode(parentId, parent);
      NeighbourWritten(s0, pager.pages, rootPageId, fs, Leaf(lf), 0, lo, hi, rightId, right, leaf, parent, o0);
      t', h' := LeafRepair.BorrowRight(s0, pager.pages, rootPageId, fs, lf, lo, hi, leaf, right, parent);
      RepairedInPlace(s0, pager.pages, rootPageId, t', h', fs, Leaf(lf), lo, hi);
    }

    method MergeIntoLeftLeaf(leafId: PageId, leaf: Node, path: seq<PathStep>, leftId: PageId, left0: Node,
                             ghost lf: LeafPage, ghost fs: Ctx, ghost lo: int, ghost hi: int)
      returns (ghost t': Tree, ghost h': nat)
      requires AtHole(pager.pages, rootPageId, path, leafId, leaf, fs, Leaf(lf), 0, lo, hi)
      requires fs.f.l != [] && leftId == Last(fs.f.l).Id() && left0 == NodeOf(Last(fs.f.l))
      requires Tight(fs.f)
      modifies this`rootPageId, pager
      ensures Repaired(old(pager.pages), pager.pages, rootPageId, t', h', fs, Leaf(lf), lo, hi)
      ensures Flagged(old(pager.pages), pager.pages, old(pager.oversize), pager.oversize, Ids(t'))
      ensures rootPageId != old(rootPageId) <==> Collapses(fs)
      ensures rootPageId != old(rootPageId) ==> StaleRoot(old(pager.pages), pager.pages, old(rootPageId), rootPageId)
    {
      hide Open, Closed, Repaired, Merged, Flagged, KeptBelow, FitsPage, Fuse, Pooled, StaleRoot, EntriesOf, AllLeaves, CtxIds, Ids, IdsOf, CtxWF, CtxRep;
      LeafRepair.LeftLeaf(pager.pages, rootPageId, fs, lf, lo, hi);
      ghost var s0, o0 := pager.pages, pager.oversize;
      var PathStep(parentId, parent, i) := path[|path| - 1];
      var left := left0;
      left := left.(keys := left.keys + leaf.keys, values := left.values + leaf.values, nextLeaf := leaf.nextLeaf);
      parent := parent.(keys := parent.keys[..i - 1] + parent.keys[i..], children := parent.children[..i] + parent.children[i + 1..]);
      WriteNode(leftId, left);
      ghost var s1 := pager.pages;
      ghost var pt := LeafRepair.MergeLeft(s0, s1, rootPageId, fs, lf, lo, hi, left);
      MergeWritten(s0, s1, rootPageId, fs, Leaf(lf), pt, 0, lo, hi, leftId, left, o0);
      MergeFacts(s0, rootPageId, fs, Leaf(lf), 0, lo, hi);
      t', h' := FinishMerge(parentId, parent, path, s0, o0, pt, Leaf(lf), 0, fs, lo, hi);
    }

    method MergeRightIntoLeaf(leafId: PageId, leaf0: Node, path: seq<PathStep>, rightId: PageId, right: Node,
                              ghost lf: LeafPage, ghost fs: Ctx, ghost lo: int, ghost hi: int)
      returns (ghost t': Tree, ghost h': nat)
      requires AtHole(pager.pages, rootPageId, path, leafId, leaf0, fs, Leaf(lf), 0, lo, hi)
      requires fs.f.l == [] && fs.f.r != [] && rightId == fs.f.r[0].Id() && right == NodeOf(fs.f.r[0])
      requires Tight(fs.f)
      modifies this`rootPageId, pager
      ensures Repaired(old(pager.pages), pager.pages, rootPageId, t', h', fs, Leaf(lf), lo, hi)
      ensures Flagged(old(pager.pages), pager.pages, old(pager.oversize), pager.oversize, Ids(t'))
      ensures rootPageId != old(rootPageId) <==> Collapses(fs)
      ensures rootPageId != old(rootPageId) ==> StaleRoot(old(pager.pages), pager.pages, old(rootPageId), rootPageId)
    {
      hide Open, Closed, Repaired, Merged, Flagged, KeptBelow, FitsPage, Fuse, Pooled, StaleRoot, EntriesOf, AllLeaves, CtxIds, Ids, IdsOf, CtxWF, CtxRep;
      LeafRepair.RightLeaf(pager.pages, rootPageId, fs, lf, lo, hi);
      ghost var s0, o0 := pager.pages, pager.oversize;
      var PathStep(parentId, parent, i) := path[|path| - 1];
      var leaf := leaf0;
      leaf := leaf.(keys := leaf.keys + right.keys, values := leaf.values + right.values, nextLeaf := right.nextLeaf);
      parent := parent.(keys := parent.keys[..i] + parent.keys[i + 1..], children := parent.children[..i + 1] + parent.children[i + 2..]);
      WriteNode(leafId, leaf);
      ghost var s1 := pager.pages;
      ghost var pt := LeafRepair.MergeRight(s0, s1, rootPageId, fs, lf, lo, hi, leaf);
      MergeWritten(s0, s1, rootPageId, fs, Leaf(lf), pt, 0, lo, hi, leafId, leaf, o0);
      MergeFacts(s0, rootPageId, fs, Leaf(lf), 0, lo, hi);
      t', h' := FinishMerge(parentId, parent, path, s0, o0, pt, Leaf(lf), 0, fs, lo, hi);
    }

    /** After a merge below it, the parent is finished at its own level. */
    method FinishMerge(parentId: PageId, parent: Node, path: seq<PathStep>, ghost s0: seq<PageData>, ghost o0: bool, ghost pt: Tree,
                       ghost t: Tree, ghost h: nat, ghost fs: Ctx, ghost lo: int, ghost hi: int)
      returns (ghost t': Tree, ghost h': nat)
      requires Merged(s0, pager.pages, rootPageId, fs, t, pt, h, lo, hi) && Tight(fs.f)
      requires PathMatches(path, fs, t.Id()) && parentId == pt.bid && parent == NodeOf(pt)
      requires rootPageId < |s0| == |pager.pages| && pager.pages[rootPageId] == s0[rootPageId]
      requires fs.In? && fs.f.id < |s0| && s0[fs.f.id] == NodePage(FrameNode(fs.f, t.Id()))
      requires parent.children != [] && parent.children[0] == FrameNode(fs.f, t.Id()).children[0]
      requires pt.bid == rootPageId <==> fs.up.Top?
      requires KeptBelow(s0, pager.pages, t) && Flagged(s0, pager.pages, o0, pager.oversize, IdsOf(pt.kids))
      modifies this`rootPageId, pager
      ensures Repaired(s0, pager.pages, rootPageId, t', h', fs, t, lo, hi)
      ensures Flagged(s0, pager.pages, o0, pager.oversize, Ids(t'))
      ensures rootPageId != old(rootPageId) <==> Collapses(fs)
      ensures rootPageId != old(rootPageId) ==> StaleRoot(s0, pager.pages, old(rootPageId), rootPageId)
      decreases fs, 0, 0
    {
      hide Open, Closed, Repaired, Flagged, KeptBelow, Pooled, EntriesOf, AllLeaves, CtxIds, Ids;
      ghost var s1, o1 := pager.pages, pager.oversize;
      t', h' := FinishParent(parentId, parent, path[..|path| - 1], pt, h + 1, fs.up, lo, hi);
      BelowStays(s1, pager.pages, rootPageId, t', h', fs.up, pt, lo, hi);
      FlaggedTrans(s0, s1, pager.pages, o0, o1, pager.oversize, IdsOf(pt.kids), Ids(t'));
      RepairedAbove(s0, s1, pager.pages, old(rootPageId), rootPageId, t', h', fs, t, pt, h, lo, hi);
    }

    /** Stores a parent that lost a child, replaces a root that has only one child left,
        or passes the shortage on. */
    method FinishParent(parentId: PageId, parent: Node, path: seq<PathStep>, ghost pt: Tree, ghost h: nat, ghost fs: Ctx, ghost lo: int, ghost hi: int)
      returns (ghost t': Tree, ghost h': nat)
      requires pt.Branch? && pt.bid == parentId && parent == NodeOf(pt)
      requires PathMatches(path, fs, parentId) && Open(pager.pages, rootPageId, fs, pt, h, lo, hi)
      modifies this`rootPageId, pager
      ensures Repaired(old(pager.pages), pager.pages, rootPageId, t', h', fs, pt, lo, hi)
      ensures Flagged(old(pager.pages), pager.pages, old(pager.oversize), pager.oversize, Ids(t'))
      ensures rootPageId != old(rootPageId) <==> CollapsesAt(fs, pt)
      ensures rootPageId != old(rootPageId) ==>
        if fs.Top? then pager.pages == old(pager.pages) && parent.children != [] && rootPageId == parent.children[0]
        else StaleRoot(old(pager.pages), pager.pages, old(rootPageId), rootPageId)
      decreases fs, 2
    {
      hide Closed, Repaired, Flagged, KeptBelow, EntriesOf, AllLeaves, CtxIds, Ids;
      OpenRoot(pager.pages, rootPageId, fs, pt, h, lo, hi);
      if parentId == rootPageId {
        if !parent.isLeaf && |parent.keys| == 0 && parent.children != [] {
          RootGivenUp(pager.pages, rootPageId, pt, h, lo, hi);
          FlaggedNone(pager.pages, pager.oversize, Ids(pt.kids[0]));
          rootPageId := parent.children[0];
          t', h' := pt.kids[0], h - 1;
        } else {
          t', h' := StoreParent(parentId, parent, pt, h, fs, lo, hi);
        }
      } else if |parent.keys| >= MIN_KEYS {
        t', h' := StoreParent(parentId, parent, pt, h, fs, lo, hi);
      } else {
        t', h' := RebalanceInternal(parentId, parent, path, pt, h, fs, lo, hi);
      }
    }

    method StoreParent(parentId: PageId, parent: Node, ghost pt: Tree, ghost h: nat, ghost fs: Ctx, ghost lo: int, ghost hi: int)
      returns (ghost t': Tree, ghost h': nat)
      requires pt.Branch? && pt.bid == parentId && parent == NodeOf(pt)
      requires Open(pager.pages, rootPageId, fs, pt, h, lo, hi)
      requires if fs.Top? then RootOK(pt) else pt.Full()
      modifies pager
      ensures Repaired(old(pager.pages), pager.pages, rootPageId, t', h', fs, pt, lo, hi)
      ensures Flagged(old(pager.pages), pager.pages, old(pager.oversize), pager.oversize, Ids(t'))
    {
      hide Open, Closed, Repaired, Flagged, KeptBelow, FitsPage, EntriesOf, AllLeaves, CtxIds, Ids, Plug, CtxWF, CtxRep, Chain;
      ghost var s0, o0 := pager.pages, pager.oversize;
      OpenRoot(s0, rootPageId, fs, pt, h, lo, hi);
      WriteNode(parentId, parent);
      TopWritten(s0, pager.pages, rootPageId, fs, pt, h, lo, hi, parent, o0);
      Close(s0, pager.pages, rootPageId, fs, pt, h, lo, hi);
      t', h' := Plug(fs, pt), h + fs.Depth();
      RepairedInPlace(s0, pager.pages, rootPageId, t', h', fs, pt, lo, hi);
    }

    /** Gives the underfull branch a child from a neighbour, or pools it with one. */
    method RebalanceInternal(nodeId: PageId, node: Node, path: seq<PathStep>, ghost t: Tree, ghost h: nat, ghost fs: Ctx, ghost lo: int, ghost hi: int)
      returns (ghost t': Tree, ghost h': nat)
      requires t.Branch? && AtHole(pager.pages, rootPageId, path, nodeId, node, fs, t, h, lo, hi)
      modifies this`rootPageId, pager
      ensures Repaired(old(pager.pages), pager.pages, rootPageId, t', h', fs, t, lo, hi)
      ensures Flagged(old(pager.pages), pager.pages, old(pager.oversize), pager.oversize, Ids(t'))
      ensures rootPageId != old(rootPageId) <==> Collapses(fs)
      ensures rootPageId != old(rootPageId) ==> StaleRoot(old(pager.pages), pager.pages, old(rootPageId), rootPageId)
      decreases fs, 1
    {
      hide Repaired, Open;
      var left, right := ReadNeighbours(path[|path| - 1], nodeId, t, fs, h, lo, hi);
      if left.Some? && |left.value.1.keys| > MIN_KEYS {
        t', h' := BorrowFromLeftBranch(nodeId, node, path, left.value.0, left.value.1, t, h, fs, lo, hi);
      } else if right.Some? && |right.value.1.keys| > MIN_KEYS {
        t', h' := BorrowFromRightBranch(nodeId, node, path, right.value.0, right.value.1, t, h, fs, lo, hi);
      } else if left.Some? {
        t', h' := MergeIntoLeftBranch(nodeId, node, path, left.value.0, left.value.1, t, h, fs, lo, hi);
      } else {
        t', h' := MergeRightIntoBranch(nodeId, node, path, right.value.0, right.value.1, t, h, fs, lo, hi);
      }
    }

    method BorrowFromLeftBranch(nodeId: PageId, node0: Node, path: seq<PathStep>, leftId: PageId, left0: Node,
                                ghost t: Tree, ghost h: nat, ghost fs: Ctx, ghost lo: int, ghost hi: int)
      returns (ghost t': Tree, ghost h': nat)
      requires t.Branch? && AtHole(pager.pages, rootPageId, path, nodeId, node0, fs, t, h, lo, hi)
      requires fs.f.l != [] && leftId == Last(fs.f.l).Id() && left0 == NodeOf(Last(fs.f.l)) && |left0.keys| > MIN_KEYS
      modifies pager
      ensures Repaired(old(pager.pages), pager.pages, rootPageId, t', h', fs, t, lo, hi)
      ensures Flagged(old(pager.pages), pager.pages, old(pager.oversize), pager.oversize, Ids(t'))
      ensures !Collapses(fs)
    {
      hide Open, Closed, Repaired, Flagged, KeptBelow, FitsPage, EntriesOf, AllLeaves, CtxIds, Ids, CtxWF, CtxRep;
      BranchRepair.LeftBranch(pager.pages, rootPageId, fs, t, h, lo, hi);
      ghost var s0, o0 := pager.pages, pager.oversize;
      var PathStep(parentId, parent, i) := path[|path| - 1];
      var left, node, n := left0, node0, |left0.keys| - 1;
      node := node.(keys := [parent.keys[i - 1]] + node.keys, children := [left.children[n + 1]] + node.children);
      parent := parent.(keys := parent.keys[i - 1 := left.keys[n]]);
      left := left.(keys := left.keys[..n], children := left.children[..n + 1]);
      WriteNode(leftId, left);
      WriteNode(nodeId, node);
      WriteNode(parentId, parent);
      NeighbourWritten(s0, pager.pages, rootPageId, fs, t, h, lo, hi, leftId, left, node, parent, o0);
      t', h' := BranchRepair.BorrowLeft(s0, pager.pages, rootPageId, fs, t, h, lo, hi, left, node, parent);
      RepairedInPlace(s0, pager.pages, rootPageId, t', h', fs, t, lo, hi);
    }

    method BorrowFromRightBranch(nodeId: PageId, node0: Node, path: seq<PathStep>, rightId: PageId, right0: Node,
                                 ghost t: Tree, ghost h: nat, ghost fs: Ctx, ghost lo: int, ghost hi: int)
      returns (ghost t': Tree, ghost h': nat)
      requires t.Branch? && AtHole(pager.pages, rootPageId, path, nodeId, node0, fs, t, h, lo, hi)
      requires fs.f.r != [] && rightId == fs.f.r[0].Id() && right0 == NodeOf(fs.f.r[0]) && |right0.keys| > MIN_KEYS
      modifies pager
      ensures Repaired(old(pager.pages), pager.pages, rootPageId, t', h', fs, t, lo, hi)
      ensures Flagged(old(pager.pages), pager.pages, old(pager.oversize), pager.oversize, Ids(t'))
      ensures !Collapses(fs)
    {
      hide Open, Closed, Repaired, Flagged, KeptBelow, FitsPage, EntriesOf, AllLeaves, CtxIds, Ids, CtxWF, CtxRep;
      BranchRepair.RightBranch(pager.pages, rootPageId, fs, t, h, lo, hi);
      ghost var s0, o0 := pager.pages, pager.oversize;
      var PathStep(parentId, parent, i) := path[|path| - 1];
      var right, node := right0, node0;
      node := node.(keys := node.keys + [parent.keys[i]], children := node.children + [right.children[0]]);
      parent := parent.(keys := parent.keys[i := right.keys[0]]);
      right := right.(keys := right.keys[1..], children := right.children[1..]);
      WriteNode(rightId, right);
      WriteNode(nodeId, node);
      WriteNode(parentId, parent);
      NeighbourWritten(s0, pager.pages, rootPageId, fs, t, h, lo, hi, rightId, right, node, parent, o0);
      t', h' := BranchRepair.BorrowRight(s0, pager.pages, rootPageId, fs, t, h, lo, hi, node, right, parent);
      RepairedInPlace(s0, pager.pages, rootPageId, t', h', fs, t, lo, hi);
    }

    method MergeIntoLeftBranch(nodeId: PageId, node: Node, path: seq<PathStep>, leftId: PageId, left0: Node,
                               ghost t: Tree, ghost h: nat, ghost fs: Ctx, ghost lo: int, ghost hi: int)
      returns (ghost t': Tree, ghost h': nat)
      requires t.Branch? && AtHole(pager.pages, rootPageId, path, nodeId, node, fs, t, h, lo, hi)
      requires fs.f.l != [] && leftId == Last(fs.f.l).Id() && left0 == NodeOf(Last(fs.f.l))
      requires Tight(fs.f)
      modifies this`rootPageId, pager
      ensures Repaired(old(pager.pages), pager.pages, rootPageId, t', h', fs, t, lo, hi)
      ensures Flagged(old(pager.pages), pager.pages, old(pager.oversize), pager.oversize, Ids(t'))
      ensures rootPageId != old(rootPageId) <==> Collapses(fs)
      ensures rootPageId != old(rootPageId) ==> StaleRoot(old(pager.pages), pager.pages, old(rootPageId), rootPageId)
      decreases fs, 0, 1
    {
      hide Open, Closed, Repaired, Merged, Flagged, KeptBelow, FitsPage, Fuse, Pooled, StaleRoot, EntriesOf, AllLeaves, CtxIds, Ids, IdsOf, CtxWF, CtxRep;
      BranchRepair.LeftBranch(pager.pages, rootPageId, fs, t, h, lo, hi);
      ghost var s0, o0 := pager.pages, pager.oversize;
      var PathStep(parentId, parent, i) := path[|path| - 1];
      var left := left0;
      left := left.(keys := left.keys + [parent.keys[i - 1]] + node.keys, children := left.children + node.children);
      parent := parent.(keys := parent.keys[..i - 1] + parent.keys[i..], children := parent.children[..i] + parent.children[i + 1..]);
      WriteNode(leftId, left);
      ghost var pt := BranchRepair.MergeLeft(s0, pager.pages, rootPageId, fs, t, h, lo, hi, left);
      MergeWritten(s0, pager.pages, rootPageId, fs, t, pt, h, lo, hi, leftId, left, o0);
      MergeFacts(s0, rootPageId, fs, t, h, lo, hi);
      t', h' := FinishMerge(parentId, parent, path, s0, o0, pt, t, h, fs, lo, hi);
    }

    method MergeRightIntoBranch(nodeId: PageId, node0: Node, path: seq<PathStep>, rightId: PageId, right: Node,
                                ghost t: Tree, ghost h: nat, ghost fs: Ctx, ghost lo: int, ghost hi: int)
      returns (ghost t': Tree, ghost h': nat)
      requires t.Branch? && AtHole(pager.pages, rootPageId, path, nodeId, node0, fs, t, h, lo, hi)
      requires fs.f.l == [] && fs.f.r != [] && rightId == fs.f.r[0].Id() && right == NodeOf(fs.f.r[0])
      requires Tight(fs.f)
      modifies this`rootPageId, pager
      ensures Repaired(old(pager.pages), pager.pages, rootPageId, t', h', fs, t, lo, hi)
      ensures Flagged(old(pager.pages), pager.pages, old(pager.oversize), pager.oversize, Ids(t'))
      ensures rootPageId != old(rootPageId) <==> Collapses(fs)
      ensures rootPageId != old(rootPageId) ==> StaleRoot(old(pager.pages), pager.pages, old(rootPageId), rootPageId)
      decreases fs, 0, 1
    {
      hide Open, Closed, Repaired, Merged, Flagged, KeptBelow, FitsPage, Fuse, Pooled, StaleRoot, EntriesOf, AllLeaves, CtxIds, Ids, IdsOf, CtxWF, CtxRep;
      BranchRepair.RightBranch(pager.pages, rootPageId, fs, t, h, lo, hi);
      ghost var s0, o0 := pager.pages, pager.oversize;
      var PathStep(parentId, parent, i) := path[|path| - 1];
      var node := node0;
      node := node.(keys := node.keys + [parent.keys[i]] + right.keys, children := node.children + right.children);
      parent := parent.(keys := parent.keys[..i] + parent.keys[i + 1..], children := parent.children[..i + 1] + parent.children[i + 2..]);
      WriteNode(nodeId, node);
      ghost var pt := BranchRepair.MergeRight(s0, pager.pages, rootPageId, fs, t, h, lo, hi, node);
      MergeWritten(s0, pager.pages, rootPageId, fs, t, pt, h, lo, hi, nodeId, node, o0);
      MergeFacts(s0, rootPageId, fs, t, h, lo, hi);
      t', h' := FinishMerge(parentId, parent, path, s0, o0, pt, t, h, fs, lo, hi);
    }
  }
}
