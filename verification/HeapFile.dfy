/** Append-oriented storage for the rows of one table. */
module HeapFiles {
  import opened Storage
  import opened HeapPages
  import opened HeapModel
  import opened Records

  datatype HeapError = BadRow(error: RecordError) | NotAHeapPage | SlotOutOfRange | RowDeleted

  datatype Outcome<+T> = Done(value: T) | Failed(error: HeapError)

  function LiveRow(item: Item): seq<(RowPointer, Row)> {
    if item.live then [(item.pointer, item.row)] else []
  }

  /** The live rows in scan order. */
  function LiveRows(items: seq<Item>): seq<(RowPointer, Row)> {
    if items == [] then []
    else LiveRows(items[..|items| - 1]) + LiveRow(items[|items| - 1])
  }

  lemma {:induction false} LiveRowsConcat(a: seq<Item>, b: seq<Item>)
    ensures LiveRows(a + b) == LiveRows(a) + LiveRows(b)
    decreases |b|
  {
    if b == [] {
      assert a + b == a;
    } else {
      assert (a + b)[..|a + b| - 1] == a + b[..|b| - 1];
      LiveRowsConcat(a, b[..|b| - 1]);
    }
  }

  /** A live slot contributes its pointer and row at its place, and a deleted slot nothing. */
  lemma LiveRowsAre(p: RowPointer, row: Row, a: seq<Item>, b: seq<Item>)
    ensures LiveRows([]) == [] && LiveRows([Item(p, row, true)]) == [(p, row)] && LiveRows([Item(p, row, false)]) == []
    ensures LiveRows(a + b) == LiveRows(a) + LiveRows(b)
  {
    LiveRowsConcat(a, b);
    assert [Item(p, row, true)][..0] == [] && [Item(p, row, false)][..0] == [];
  }

  /** Only pages of `own`, and new ones, were written. */
  ghost predicate Foreign(s: seq<PageData>, s': seq<PageData>, own: set<PageId>) {
    |s| <= |s'| && forall x :: 0 <= x < |s| && x !in own ==> s'[x] == s[x]
  }

  // ---------- The insertion loop ----------

  /** The insertion loop stands at position `k` of the chain: no earlier page had room for `n` bytes,
      and nothing has changed except that an empty page may have been appended. */
  ghost predicate Searching(s0: seq<PageData>, hs0: seq<HeapPage>, n: nat, s: seq<PageData>, hs: seq<HeapPage>, k: nat, pageId: PageId) {
    && k < |hs| && hs[k].id == pageId
    && (forall j :: 0 <= j < k && j < |hs0| ==> !HasRoom(hs0[j].slots, n))
    && if hs == hs0 then s == s0
       else k == |hs0| && hs == hs0 + [HeapPage(|s0|, [])] && |s| == |s0| + 1 && Foreign(s0, s, HeapIds(hs0))
  }

  ghost predicate HeaderOf(h: Header, hs: seq<HeapPage>, k: nat)
    requires k < |hs|
  {
    Used(hs[k].slots) <= PAGE_SIZE && h == Header(NextId(hs, k), |hs[k].slots|, FreeStart(hs[k].slots))
  }

  lemma SearchStarts(s: seq<PageData>, schema: Schema, first: PageId, hs: seq<HeapPage>, n: nat)
    requires HeapInv(s, schema, first, hs)
    ensures Searching(s, hs, n, s, hs, 0, first)
  {
  }

  lemma SearchStep(s0: seq<PageData>, hs0: seq<HeapPage>, n: nat, s: seq<PageData>, hs: seq<HeapPage>, k: nat, pageId: PageId, h: Header)
    requires Searching(s0, hs0, n, s, hs, k, pageId) && !HasRoom(hs[k].slots, n)
    requires HeaderOf(h, hs, k) && h.next != NO_PAGE
    ensures k < |hs0| && Searching(s0, hs0, n, s, hs, k + 1, h.next)
  {
  }

  lemma LastPage(s0: seq<PageData>, hs0: seq<HeapPage>, n: nat, s: seq<PageData>, hs: seq<HeapPage>, k: nat, pageId: PageId,
                 schema: Schema, first: PageId)
    requires HeapInv(s, schema, first, hs) && Searching(s0, hs0, n, s, hs, k, pageId) && n <= MAX_RECORD
    requires !HasRoom(hs[k].slots, n) && NextId(hs, k) == NO_PAGE
    ensures k + 1 == |hs0| && hs == hs0 && s == s0 && forall j :: 0 <= j < |hs0| ==> !HasRoom(hs0[j].slots, n)
  {
    assert k + 1 < |hs| ==> PageRep(s, hs, k + 1);
  }

  lemma Appended(s0: seq<PageData>, hs0: seq<HeapPage>, n: nat, s: seq<PageData>, fresh_: PageData, last: PageData)
    requires hs0 != [] && hs0[|hs0| - 1].id < |s0| && forall j :: 0 <= j < |hs0| ==> !HasRoom(hs0[j].slots, n)
    requires s == (s0 + [fresh_])[hs0[|hs0| - 1].id := last]
    ensures Searching(s0, hs0, n, s, hs0 + [HeapPage(|s0|, [])], |hs0|, |s0|)
  {
    assert hs0[|hs0| - 1].id in HeapIds(hs0);
  }

  lemma PlacedHere(s0: seq<PageData>, hs0: seq<HeapPage>, record: seq<byte>, s: seq<PageData>, hs: seq<HeapPage>, k: nat,
                   pageId: PageId, page: PageData)
    requires Searching(s0, hs0, |record|, s, hs, k, pageId) && HasRoom(hs[k].slots, |record|) && pageId < |s|
    ensures hs[k := HeapPage(pageId, hs[k].slots + [Slot(record, true)])] == Placed(hs0, |s0|, record)
    ensures RowPointer(pageId, |hs[k].slots|) == PlacedAt(hs0, |s0|, |record|)
    ensures |s| == |s0| + (if FirstFit(hs0, |record|) == |hs0| then 1 else 0)
    ensures Foreign(s0, s[pageId := page], HeapIds(hs0))
  {
    FirstFitIs(hs0, |record|, k);
    if hs == hs0 {
      assert pageId in HeapIds(hs0);
    } else {
      assert [] + [Slot(record, true)] == [Slot(record, true)];
    }
  }

  lemma SlotsDecodable(schema: Schema, hs: seq<HeapPage>, k: nat, record: seq<byte>, row: Row)
    requires AllDecodable(schema, hs) && k < |hs| && Reads(schema, row, record)
    ensures var ss := hs[k].slots + [Slot(record, true)]; forall j :: 0 <= j < |ss| ==> Decodable(schema, ss[j].record)
  {
  }

  lemma PlacedIds(hs: seq<HeapPage>, newId: PageId, record: seq<byte>)
    ensures HeapIds(Placed(hs, newId, record)) <= HeapIds(hs) + {newId}
  {
  }

  // ---------- Single slots ----------

  /** The item that a pointer names. */
  function FindItem(items: seq<Item>, p: RowPointer): (r: Option<Item>)
    ensures r.None? <==> forall i :: 0 <= i < |items| ==> items[i].pointer != p
    ensures r.Some? ==> r.value.pointer == p && r.value in items
  {
    if items == [] then None else if items[0].pointer == p then Some(items[0]) else FindItem(items[1..], p)
  }

  lemma FindItemIs(items: seq<Item>, i: nat)
    requires i < |items| && DistinctPointers(items)
    ensures FindItem(items, items[i].pointer) == Some(items[i])
  {
    var r := FindItem(items, items[i].pointer);
    var j :| 0 <= j < |items| && items[j] == r.value;
  }

  lemma {:induction false} FindItemConcat(a: seq<Item>, b: seq<Item>, p: RowPointer)
    ensures FindItem(a + b, p) == if FindItem(a, p).Some? then FindItem(a, p) else FindItem(b, p)
    decreases |a|
  {
    if a == [] {
      assert a + b == b;
    } else {
      assert (a + b)[1..] == a[1..] + b;
      FindItemConcat(a[1..], b, p);
    }
  }

  lemma FindOnPage(schema: Schema, h: HeapPage, p: RowPointer)
    ensures FindItem(PageItems(schema, h), p) ==
      if h.id == p.pageId && p.slotId < |h.slots| then Some(SlotItem(schema, h.id, h.slots, p.slotId)) else None
  {
    var items := PageItems(schema, h);
    assert DistinctPointers(items);
    if h.id == p.pageId && p.slotId < |h.slots| {
      FindItemIs(items, p.slotId);
    }
  }

  /** A pointer into page `k` names the item of that slot, if there is one. */
  lemma {:induction false} SlotFound(schema: Schema, hs: seq<HeapPage>, p: RowPointer, k: nat)
    requires k < |hs| && hs[k].id == p.pageId && Acyclic(hs)
    ensures FindItem(Items(schema, hs), p) ==
      if p.slotId < |hs[k].slots| then Some(SlotItem(schema, p.pageId, hs[k].slots, p.slotId)) else None
    decreases k
  {
    FindOnPage(schema, hs[0], p);
    FindItemConcat(PageItems(schema, hs[0]), Items(schema, hs[1..]), p);
    if k > 0 {
      SlotFound(schema, hs[1..], p, k - 1);
    } else {
      FindNothing(schema, hs[1..], p);
    }
  }

  lemma {:induction false} FindNothing(schema: Schema, hs: seq<HeapPage>, p: RowPointer)
    requires forall i :: 0 <= i < |hs| ==> hs[i].id != p.pageId
    ensures FindItem(Items(schema, hs), p).None?
    decreases |hs|
  {
    if hs != [] {
      FindOnPage(schema, hs[0], p);
      FindItemConcat(PageItems(schema, hs[0]), Items(schema, hs[1..]), p);
      FindNothing(schema, hs[1..], p);
    }
  }

  /** Only the new pointer is found differently after an insertion. */
  lemma AddedFinds(a: seq<Item>, b: seq<Item>, item: Item)
    requires DistinctPointers(b) && ItemAdded(a, b, item)
    ensures FindItem(a, item.pointer).None? && FindItem(b, item.pointer) == Some(item)
    ensures forall p :: p != item.pointer ==> FindItem(b, p) == FindItem(a, p)
  {
    var k :| 0 <= k <= |a| && b == InsertItem(a, k, item);
    assert b[k] == item;
    forall i | 0 <= i < |a| ensures a[i].pointer != item.pointer {
      OtherPlace(a, k, item, i);
    }
    FindItemIs(b, k);
    forall p | p != item.pointer ensures FindItem(b, p) == FindItem(a, p) {
      FindElsewhere(a, k, item, p);
    }
  }

  lemma OtherPlace(a: seq<Item>, k: nat, item: Item, i: nat)
    requires k <= |a| && i < |a| && DistinctPointers(InsertItem(a, k, item))
    ensures a[i].pointer != item.pointer
  {
    var b := InsertItem(a, k, item);
    var j := if i < k then i else i + 1;
    assert b[j] == a[i] && b[k] == item;
  }

  lemma FindElsewhere(a: seq<Item>, k: nat, item: Item, p: RowPointer)
    requires k <= |a| && p != item.pointer
    ensures FindItem(InsertItem(a, k, item), p) == FindItem(a, p)
  {
    assert a == a[..k] + a[k..];
    FindItemConcat(a[..k], a[k..], p);
    FindItemConcat(a[..k] + [item], a[k..], p);
    FindItemConcat(a[..k], [item], p);
    assert [item][1..] == [];
  }

  lemma ItemsStep(schema: Schema, hs: seq<HeapPage>, k: nat)
    requires k < |hs|
    ensures Items(schema, hs[..k + 1]) == Items(schema, hs[..k]) + PageItems(schema, hs[k])
  {
    assert hs[..k + 1] == hs[..k] + [hs[k]];
    ItemsConcat(schema, hs[..k], [hs[k]]);
    assert Items(schema, [hs[k]]) == PageItems(schema, hs[k]) + Items(schema, []);
  }

  /** The position of a page in the chain. */
  lemma PagePosition(hs: seq<HeapPage>, id: PageId) returns (k: nat)
    requires id in HeapIds(hs)
    ensures k < |hs| && hs[k].id == id
  {
    k :| 0 <= k < |hs| && hs[k].id == id;
  }

  lemma FlagDecodable(schema: Schema, hs: seq<HeapPage>, k: nat, j: nat, live: bool)
    requires AllDecodable(schema, hs) && k < |hs| && j < |hs[k].slots|
    ensures var ss := hs[k].slots[j := Slot(hs[k].slots[j].record, live)]; forall i :: 0 <= i < |ss| ==> Decodable(schema, ss[i].record)
  {
  }

  lemma {:induction false} FlagNothing(hs: seq<HeapPage>, p: RowPointer, live: bool)
    requires forall i :: 0 <= i < |hs| && hs[i].id == p.pageId && p.slotId < |hs[i].slots| ==> hs[i].slots[p.slotId].live == live
    ensures Flagged(hs, p, live) == hs
  {
    if hs != [] {
      assert hs == [hs[0]] + hs[1..];
      if hs[0].id == p.pageId && p.slotId < |hs[0].slots| {
        var ss := hs[0].slots;
        assert ss[p.slotId := Slot(ss[p.slotId].record, live)] == ss;
        assert HeapPage(hs[0].id, ss) == hs[0];
      } else {
        FlagNothing(hs[1..], p, live);
      }
    }
  }

  lemma {:induction false} FlaggedIds(hs: seq<HeapPage>, p: RowPointer, live: bool)
    ensures |Flagged(hs, p, live)| == |hs| && forall i :: 0 <= i < |hs| ==> Flagged(hs, p, live)[i].id == hs[i].id
    decreases |hs|
  {
    if hs != [] {
      FlaggedIds(hs[1..], p, live);
    }
  }

  lemma FlaggedSameIds(hs: seq<HeapPage>, p: RowPointer, live: bool)
    ensures HeapIds(Flagged(hs, p, live)) == HeapIds(hs)
  {
    FlaggedIds(hs, p, live);
    var hs' := Flagged(hs, p, live);
    forall x ensures x in HeapIds(hs') <==> x in HeapIds(hs) {
      if i :| 0 <= i < |hs| && hs[i].id == x {
        assert hs'[i].id == x;
      }
    }
  }

  /** The chain with one slot of page `k` marked, when that slot exists and is marked otherwise. */
  function FlaggedPage(hs: seq<HeapPage>, k: nat, j: nat, live: bool): seq<HeapPage>
    requires k < |hs|
  {
    var ss := hs[k].slots;
    if j < |ss| && ss[j].live != live then hs[k := HeapPage(hs[k].id, ss[j := Slot(ss[j].record, live)])] else hs
  }

  lemma FlaggedIsPage(hs: seq<HeapPage>, p: RowPointer, live: bool, k: nat)
    requires Acyclic(hs) && k < |hs| && hs[k].id == p.pageId
    ensures Flagged(hs, p, live) == FlaggedPage(hs, k, p.slotId, live)
  {
    if p.slotId < |hs[k].slots| && hs[k].slots[p.slotId].live != live {
      FlaggedAt(hs, p, live, k);
    } else {
      FlagNothing(hs, p, live);
    }
  }

  class HeapFile {
    const pager: Pager
    const schema: Schema
    const firstPageId: PageId
    ghost var chain: seq<HeapPage>

    ghost predicate Valid()
      reads this, pager
    {
      HeapInv(pager.pages, schema, firstPageId, chain)
    }

    /** Every slot of the table in scan order. */
    ghost function Contents(): seq<Item>
      reads this
    {
      Items(schema, chain)
    }

    lemma Meaning()
      ensures Valid() <==> HeapInv(pager.pages, schema, firstPageId, chain)
      ensures Contents() == Items(schema, chain)
    {
    }

    /** Opens the heap that starts at `firstPageId`. */
    constructor (pager: Pager, schema: Schema, firstPageId: PageId, ghost chain: seq<HeapPage>)
      requires HeapInv(pager.pages, schema, firstPageId, chain)
      ensures Valid() && this.pager == pager && this.schema == schema && this.firstPageId == firstPageId && this.chain == chain
    {
      this.pager, this.schema, this.firstPageId := pager, schema, firstPageId;
      this.chain := chain;
    }

    /** Allocates the first page of a new table. */
    constructor Create(pager: Pager, schema: Schema)
      requires |pager.pages| < NO_PAGE
      modifies pager`pages
      ensures Valid() && this.pager == pager && this.schema == schema
      ensures Contents() == []
      ensures firstPageId == |old(pager.pages)| && HeapIds(chain) == {firstPageId}
      ensures |pager.pages| == |old(pager.pages)| + 1 && old(pager.pages) <= pager.pages
    {
      this.pager, this.schema := pager, schema;
      var id := pager.AllocatePage();
      firstPageId := id;
      chain := [HeapPage(id, [])];
      new;
      var page := new byte[PAGE_SIZE];
      InitHeapPage(page);
      WritePage(id, page);
      assert PageRep(pager.pages, chain, 0);
      assert Items(schema, chain[1..]) == [];
    }

    /** A private copy of a page's bytes. */
    method ReadPage(id: PageId) returns (page: array<byte>)
      requires id < |pager.pages| && pager.pages[id].Bytes? && |pager.pages[id].data| == PAGE_SIZE
      ensures fresh(page) && page[..] == pager.pages[id].data
    {
      var data := pager.pages[id].data;
      page := new byte[PAGE_SIZE](i requires 0 <= i < |data| => data[i]);
      assert page[..] == data;
    }

    method WritePage(id: PageId, page: array<byte>)
      requires id < |pager.pages|
      modifies pager`pages
      ensures pager.pages == old(pager.pages)[id := Bytes(page[..])]
    {
      pager.pages := pager.pages[id := Bytes(page[..])];
    }

    // ---------- Insertion ----------

    /** Inserts a row into the first page with room, or into a new page at the end of the chain. */
    method Insert(row: Row) returns (r: Outcome<RowPointer>)
      requires Valid() && |pager.pages| < NO_PAGE
      requires RowMatches(schema, row) && RowStorable(row) ==> |RowBytes(row)| <= MAX_RECORD
      modifies this, pager`pages
      ensures Valid()
      ensures r.Done? <==> RowMatches(schema, row) && RowStorable(row)
      ensures r.Failed? ==> chain == old(chain) && pager.pages == old(pager.pages)
      ensures r.Failed? ==> r.error.BadRow? && Unencodable(schema, row, r.error.error)
      ensures r.Done? ==> chain == Placed(old(chain), |old(pager.pages)|, RowBytes(row))
      ensures r.Done? ==> r.value == PlacedAt(old(chain), |old(pager.pages)|, |RowBytes(row)|)
      ensures r.Done? ==> forall k :: (
          && 0 <= k < |old(chain)| && 12 + 5 * (|old(chain)[k].slots| + 1) + Used(old(chain)[k].slots) + |RowBytes(row)| <= 4096
          && forall j :: 0 <= j < k ==> 12 + 5 * (|old(chain)[j].slots| + 1) + Used(old(chain)[j].slots) + |RowBytes(row)| > 4096) ==>
        r.value == RowPointer(old(chain)[k].id, |old(chain)[k].slots|) && |pager.pages| == |old(pager.pages)|
      ensures (
          && r.Done?
          && forall j :: 0 <= j < |old(chain)| ==> 12 + 5 * (|old(chain)[j].slots| + 1) + Used(old(chain)[j].slots) + |RowBytes(row)| > 4096) ==>
        r.value == RowPointer(|old(pager.pages)|, 0) && |pager.pages| == |old(pager.pages)| + 1
      ensures r.Done? ==> ItemAdded(old(Contents()), Contents(), Item(r.value, row, true))
      ensures r.Done? ==> |pager.pages| == |old(pager.pages)|
                          + (if FirstFit(old(chain), |RowBytes(row)|) == |old(chain)| then 1 else 0)
      ensures Foreign(old(pager.pages), pager.pages, HeapIds(old(chain)))
      ensures HeapIds(chain) <= HeapIds(old(chain)) + {|old(pager.pages)|}
    {
      var encoded := EncodeRecord(schema, row);
      if encoded.Err? {
        return Failed(BadRow(encoded.error));
      }
      ghost var s0, hs0 := pager.pages, chain;
      var pointer := InsertRecord(encoded.value, row);
      PlacedItems(schema, hs0, |s0|, row, encoded.value);
      PlacedIds(hs0, |s0|, encoded.value);
      PlacedFirst(hs0, |s0|, |encoded.value|);
      return Done(pointer);
    }

    /** The search along the chain. */
    method InsertRecord(record: seq<byte>, ghost row: Row) returns (pointer: RowPointer)
      requires Valid() && |pager.pages| < NO_PAGE && Reads(schema, row, record) && |record| <= MAX_RECORD
      modifies this, pager`pages
      ensures Valid()
      ensures chain == Placed(old(chain), |old(pager.pages)|, record)
      ensures pointer == PlacedAt(old(chain), |old(pager.pages)|, |record|)
      ensures |pager.pages| == |old(pager.pages)| + (if FirstFit(old(chain), |record|) == |old(chain)| then 1 else 0)
      ensures Foreign(old(pager.pages), pager.pages, HeapIds(old(chain)))
    {
      ghost var s0, hs0 := pager.pages, chain;
      var pageId := firstPageId;
      ghost var k := 0;
      SearchStarts(s0, schema, pageId, hs0, |record|);
      hide *;
      while true
        invariant Valid() && Searching(s0, hs0, |record|, pager.pages, chain, k, pageId)
        decreases |hs0| - k
      {
        var header, slotId := TryPage(pageId, record, row, k, s0, hs0);
        if slotId.Some? {
          return RowPointer(pageId, slotId.value);
        }
        if header.next == NO_PAGE {
          pageId := AppendPage(pageId, header, k, s0, hs0, |record|);
        } else {
          SearchStep(s0, hs0, |record|, pager.pages, chain, k, pageId, header);
          pageId := header.next;
        }
        k := k + 1;
      }
    }

    /** One look at a page: either the record goes in, or nothing changes. */
    method TryPage(pageId: PageId, record: seq<byte>, ghost row: Row, ghost k: nat, ghost s0: seq<PageData>, ghost hs0: seq<HeapPage>)
      returns (header: Header, slotId: Option<nat>)
      requires Valid() && Searching(s0, hs0, |record|, pager.pages, chain, k, pageId) && Reads(schema, row, record)
      modifies this, pager`pages
      ensures slotId.None? ==> chain == old(chain) && pager.pages == old(pager.pages)
      ensures slotId.None? ==> k < |chain| && !HasRoom(chain[k].slots, |record|) && HeaderOf(header, chain, k)
      ensures Valid()
      ensures slotId.Some? ==> chain == Placed(hs0, |s0|, record)
      ensures slotId.Some? ==> RowPointer(pageId, slotId.value) == PlacedAt(hs0, |s0|, |record|)
      ensures slotId.Some? ==> |pager.pages| == |s0| + (if FirstFit(hs0, |record|) == |hs0| then 1 else 0)
      ensures slotId.Some? ==> Foreign(s0, pager.pages, HeapIds(hs0))
    {
      hide Holds, HeaderBytes, Reads, AllDecodable, Foreign, HasRoom;
      assert PageRep(pager.pages, chain, k);
      ghost var ss, next := chain[k].slots, NextId(chain, k);
      var page := ReadHeapPage(pageId, next, ss);
      HeaderHeld(page[..], next, ss);
      Sizes(page[..], next, ss);
      var h := ReadHeader(page);
      header := h.value;
      slotId := TryInsertIntoPage(page, record, next, ss);
      if slotId.Some? {
        ghost var ss' := ss + [Slot(record, true)];
        SlotsDecodable(schema, chain, k, record, row);
        PageWritten(pager.pages, schema, firstPageId, chain, k, page[..], ss');
        PlacedHere(s0, hs0, record, pager.pages, chain, k, pageId, Bytes(page[..]));
        WritePage(pageId, page);
        chain := chain[k := HeapPage(pageId, ss')];
      }
    }

    method ReadHeapPage(pageId: PageId, ghost next: PageId, ghost ss: seq<Slot>) returns (page: array<byte>)
      requires pageId < |pager.pages| && pager.pages[pageId].Bytes? && Holds(pager.pages[pageId].data, next, ss)
      ensures fresh(page) && page.Length == PAGE_SIZE && page[..] == pager.pages[pageId].data
    {
      page := ReadPage(pageId);
    }

    /** Links a new empty page behind the last one. */
    method AppendPage(pageId: PageId, header: Header, ghost k: nat, ghost s0: seq<PageData>, ghost hs0: seq<HeapPage>, ghost n: nat)
      returns (nextId: PageId)
      requires Valid() && Searching(s0, hs0, n, pager.pages, chain, k, pageId) && n <= MAX_RECORD && |s0| < NO_PAGE
      requires !HasRoom(chain[k].slots, n) && HeaderOf(header, chain, k) && header.next == NO_PAGE
      modifies this, pager`pages
      ensures Valid() && k < |hs0| && Searching(s0, hs0, n, pager.pages, chain, k + 1, nextId)
    {
      hide Holds, HeaderBytes, AllDecodable;
      LastPage(s0, hs0, n, pager.pages, chain, k, pageId, schema, firstPageId);
      assert PageRep(pager.pages, chain, k);
      ghost var ss := chain[k].slots;
      var page := ReadHeapPage(pageId, NO_PAGE, ss);
      Sizes(page[..], NO_PAGE, ss);
      nextId := pager.AllocatePage();
      var nextPage := new byte[PAGE_SIZE];
      InitHeapPage(nextPage);
      WritePage(nextId, nextPage);
      LinkHolds(page[..], NO_PAGE, ss, nextId);
      WriteHeader(page, Header(nextId, header.slotCount, header.freeStart));
      WritePage(pageId, page);
      PageLinked(s0, schema, firstPageId, chain, nextPage[..], page[..]);
      assert pager.pages == (s0 + [Bytes(nextPage[..])])[pageId := Bytes(page[..])];
      chain := chain + [HeapPage(nextId, [])];
      Appended(s0, hs0, n, pager.pages, Bytes(nextPage[..]), Bytes(page[..]));
    }

    // ---------- Single slots ----------

    /** Marks a row deleted without moving bytes around; a row that is deleted already stays so. */
    method Delete(pointer: RowPointer) returns (r: Outcome<()>)
      requires Valid() && pointer.pageId in HeapIds(chain)
      modifies this, pager`pages
      ensures Valid() && chain == Flagged(old(chain), pointer, false)
      ensures Contents() == Marked(old(Contents()), pointer, false)
      ensures r == if FindItem(old(Contents()), pointer).Some? then Done(()) else Failed(SlotOutOfRange)
      ensures |pager.pages| == |old(pager.pages)| && Foreign(old(pager.pages), pager.pages, HeapIds(chain))
      ensures HeapIds(chain) == HeapIds(old(chain))
    {
      hide Holds, HeapInv;
      ghost var k := SlotKnown(pointer, false);
      var page, header := ReadPageOf(pointer.pageId, k);
      if pointer.slotId >= header.slotCount {
        return Failed(SlotOutOfRange);
      }
      var e := ReadSlotOf(page, pointer.slotId, k);
      if e.flags == SLOT_LIVE {
        WriteFlag(page, pointer, e, SLOT_DELETED, k);
      }
      return Done(());
    }

    /** Marks a deleted row live again. */
    method Restore(pointer: RowPointer) returns (r: Outcome<()>)
      requires Valid() && pointer.pageId in HeapIds(chain)
      modifies this, pager`pages
      ensures Valid() && chain == Flagged(old(chain), pointer, true)
      ensures Contents() == Marked(old(Contents()), pointer, true)
      ensures r == if FindItem(old(Contents()), pointer).Some? then Done(()) else Failed(SlotOutOfRange)
      ensures |pager.pages| == |old(pager.pages)| && Foreign(old(pager.pages), pager.pages, HeapIds(chain))
      ensures HeapIds(chain) == HeapIds(old(chain))
    {
      hide Holds, HeapInv;
      ghost var k := SlotKnown(pointer, true);
      var page, header := ReadPageOf(pointer.pageId, k);
      if pointer.slotId >= header.slotCount {
        return Failed(SlotOutOfRange);
      }
      var e := ReadSlotOf(page, pointer.slotId, k);
      if e.flags != SLOT_LIVE {
        WriteFlag(page, pointer, e, SLOT_LIVE, k);
      }
      return Done(());
    }

    /** Reads one live row by pointer. */
    method Get(pointer: RowPointer) returns (r: Outcome<Row>)
      requires Valid() && pointer.pageId in HeapIds(chain)
      ensures r == match FindItem(Contents(), pointer)
                   case None => Failed(SlotOutOfRange)
                   case Some(item) => if item.live then Done(item.row) else Failed(RowDeleted)
    {
      hide Holds, HeapInv;
      ghost var k := SlotKnown(pointer, true);
      var page, header := ReadPageOf(pointer.pageId, k);
      if pointer.slotId >= header.slotCount {
        return Failed(SlotOutOfRange);
      }
      var e := ReadSlotOf(page, pointer.slotId, k);
      if e.flags != SLOT_LIVE {
        return Failed(RowDeleted);
      }
      r := DecodeSlot(page, pointer.slotId, e, k);
    }

    /** All that a pointer into page `k` is known to stand for. */
    lemma SlotKnown(pointer: RowPointer, live: bool) returns (k: nat)
      requires Valid() && pointer.pageId in HeapIds(chain)
      ensures k < |chain| && chain[k].id == pointer.pageId
      ensures FindItem(Contents(), pointer) ==
        if pointer.slotId < |chain[k].slots| then Some(SlotItem(schema, pointer.pageId, chain[k].slots, pointer.slotId)) else None
      ensures Flagged(chain, pointer, live) == FlaggedPage(chain, k, pointer.slotId, live)
      ensures Items(schema, Flagged(chain, pointer, live)) == Marked(Contents(), pointer, live)
      ensures HeapIds(Flagged(chain, pointer, live)) == HeapIds(chain)
    {
      assert Acyclic(chain);
      hide *;
      k := PagePosition(chain, pointer.pageId);
      SlotFound(schema, chain, pointer, k);
      FlaggedItems(schema, chain, pointer, live);
      FlaggedSameIds(chain, pointer, live);
      FlaggedIsPage(chain, pointer, live, k);
    }

    method ReadPageOf(pageId: PageId, ghost k: nat) returns (page: array<byte>, header: Header)
      requires Valid() && k < |chain| && chain[k].id == pageId
      ensures fresh(page) && pageId < |pager.pages| && pager.pages[pageId] == Bytes(page[..])
      ensures page.Length == PAGE_SIZE && Holds(page[..], NextId(chain, k), chain[k].slots)
      ensures HeaderOf(header, chain, k)
    {
      assert PageRep(pager.pages, chain, k);
      page := ReadHeapPage(pageId, NextId(chain, k), chain[k].slots);
      HeaderHeld(page[..], NextId(chain, k), chain[k].slots);
      var h := ReadHeader(page);
      header := h.value;
    }

    method ReadSlotOf(page: array<byte>, slotId: nat, ghost k: nat) returns (e: SlotEntry)
      requires k < |chain| && slotId < |chain[k].slots| && Holds(page[..], NextId(chain, k), chain[k].slots)
      ensures Used(chain[k].slots[..slotId + 1]) <= PAGE_SIZE && e == EntryOf(chain[k].slots, slotId)
      ensures EntryAt(slotId) + SLOT_SIZE <= PAGE_SIZE
      ensures e.offset + e.length <= page.Length && page[e.offset..e.offset + e.length] == chain[k].slots[slotId].record
    {
      SlotHeld(page[..], NextId(chain, k), chain[k].slots, slotId);
      assert page[..][EntryAt(slotId)..EntryAt(slotId) + SLOT_SIZE] == page[EntryAt(slotId)..EntryAt(slotId) + SLOT_SIZE];
      e := ReadSlot(page, slotId);
      assert page[..][e.offset..e.offset + e.length] == page[e.offset..e.offset + e.length];
    }

    /** Writes the slot back with another flag. */
    method WriteFlag(page: array<byte>, pointer: RowPointer, e: SlotEntry, flags: nat, ghost k: nat)
      requires Valid() && k < |chain| && chain[k].id == pointer.pageId && pointer.slotId < |chain[k].slots|
      requires page != pager as object && Holds(page[..], NextId(chain, k), chain[k].slots)
      requires Used(chain[k].slots[..pointer.slotId + 1]) <= PAGE_SIZE && e == EntryOf(chain[k].slots, pointer.slotId)
      requires flags == SLOT_LIVE || flags == SLOT_DELETED
      modifies this, pager`pages, page
      ensures Valid() && chain == old(chain)[k := HeapPage(pointer.pageId,
        old(chain)[k].slots[pointer.slotId := Slot(old(chain)[k].slots[pointer.slotId].record, flags == SLOT_LIVE)])]
      ensures |pager.pages| == |old(pager.pages)| && Foreign(old(pager.pages), pager.pages, HeapIds(old(chain)))
    {
      hide Holds, AllDecodable, EntryBytes;
      ghost var ss, next, live := chain[k].slots, NextId(chain, k), flags == SLOT_LIVE;
      assert PageRep(pager.pages, chain, k);
      Sizes(page[..], next, ss);
      FlagHolds(page[..], next, ss, pointer.slotId, live);
      WriteSlot(page, pointer.slotId, SlotEntry(e.offset, e.length, flags));
      FlagDecodable(schema, chain, k, pointer.slotId, live);
      PageWritten(pager.pages, schema, firstPageId, chain, k, page[..], ss[pointer.slotId := Slot(ss[pointer.slotId].record, live)]);
      assert pointer.pageId in HeapIds(chain);
      WritePage(pointer.pageId, page);
      chain := chain[k := HeapPage(pointer.pageId, ss[pointer.slotId := Slot(ss[pointer.slotId].record, live)])];
    }

    method DecodeSlot(page: array<byte>, slotId: nat, e: SlotEntry, ghost k: nat) returns (r: Outcome<Row>)
      requires Valid() && k < |chain| && slotId < |chain[k].slots|
      requires e.offset + e.length <= page.Length && page[e.offset..e.offset + e.length] == chain[k].slots[slotId].record
      ensures r == Done(SlotItem(schema, chain[k].id, chain[k].slots, slotId).row)
    {
      var record := page[e.offset..e.offset + e.length];
      assert Decodable(schema, record);
      ghost var row :| Reads(schema, row, record);
      RowOfIs(schema, row, record);
      var decoded := DecodeRecord(schema, record);
      return Done(decoded.value);
    }

    // ---------- Scanning ----------

    /** All live rows, in chain order. */
    method Scan() returns (rows: seq<(RowPointer, Row)>)
      requires Valid()
      ensures rows == LiveRows(Contents())
    {
      assert LiveRows(Items(schema, chain[..0])) == [];
      hide Holds, AllDecodable, LiveRows;
      rows := [];
      var pageId := firstPageId;
      ghost var k := 0;
      while pageId != NO_PAGE
        invariant k <= |chain| && pageId == (if k < |chain| then chain[k].id else NO_PAGE)
        invariant rows == LiveRows(Items(schema, chain[..k]))
        decreases |chain| - k
      {
        var more, header := ScanPage(pageId, k);
        ItemsStep(schema, chain, k);
        LiveRowsConcat(Items(schema, chain[..k]), PageItems(schema, chain[k]));
        rows := rows + more;
        pageId := header.next;
        k := k + 1;
      }
      assert k < |chain| ==> PageRep(pager.pages, chain, k);
      assert chain[..k] == chain;
    }

    method ScanPage(pageId: PageId, ghost k: nat) returns (rows: seq<(RowPointer, Row)>, header: Header)
      requires Valid() && k < |chain| && chain[k].id == pageId
      ensures rows == LiveRows(PageItems(schema, chain[k])) && HeaderOf(header, chain, k)
    {
      hide Holds, HeapInv, Items, RowOf, Used, Roomy, HeaderBytes, EntryBytes;
      var page;
      page, header := ReadPageOf(pageId, k);
      rows := [];
      ghost var items, data := PageItems(schema, chain[k]), page[..];
      for slotId := 0 to header.slotCount
        invariant page[..] == data
        invariant rows == LiveRows(items[..slotId])
      {
        var e := ReadSlotOf(page, slotId, k);
        assert items[..slotId + 1][..slotId] == items[..slotId];
        if e.flags == SLOT_LIVE {
          var row := DecodeSlot(page, slotId, e, k);
          rows := rows + [(RowPointer(pageId, slotId), row.value)];
        }
      }
      assert items[..header.slotCount] == items;
    }
  }
}
