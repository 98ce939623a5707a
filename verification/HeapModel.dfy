/** The chain of heap pages of one table, and the rows it stands for. */
module HeapModel {
  import opened Storage
  import opened HeapPages
  import opened Records

  datatype HeapPage = HeapPage(id: PageId, slots: seq<Slot>)

  function NextId(hs: seq<HeapPage>, i: nat): PageId {
    if i + 1 < |hs| then hs[i + 1].id else NO_PAGE
  }

  ghost predicate PageRep(s: seq<PageData>, hs: seq<HeapPage>, i: nat)
    requires i < |hs|
  {
    && hs[i].id < |s| && hs[i].id < NO_PAGE
    && s[hs[i].id].Bytes? && Holds(s[hs[i].id].data, NextId(hs, i), hs[i].slots)
  }

  /** No page occurs twice in the chain. */
  ghost predicate Acyclic(hs: seq<HeapPage>) {
    forall i, j :: 0 <= i < j < |hs| ==> hs[i].id != hs[j].id
  }

  /** Every record is the encoding of a row of the schema. */
  ghost predicate AllDecodable(schema: Schema, hs: seq<HeapPage>) {
    forall i, j :: 0 <= i < |hs| && 0 <= j < |hs[i].slots| ==> Decodable(schema, hs[i].slots[j].record)
  }

  ghost predicate Decodable(schema: Schema, record: seq<byte>) {
    exists row :: Reads(schema, row, record)
  }

  /** The pages from `first` on form the chain `hs`. */
  ghost predicate HeapInv(s: seq<PageData>, schema: Schema, first: PageId, hs: seq<HeapPage>) {
    && hs != [] && hs[0].id == first && Acyclic(hs)
    && (forall i :: 0 <= i < |hs| ==> PageRep(s, hs, i))
    && AllDecodable(schema, hs)
  }

  ghost function HeapIds(hs: seq<HeapPage>): set<PageId> {
    set i | 0 <= i < |hs| :: hs[i].id
  }

  // ---------- Writing pages ----------

  /** Rewriting one page with new slots keeps the chain. */
  lemma PageWritten(s: seq<PageData>, schema: Schema, first: PageId, hs: seq<HeapPage>, k: nat, data: seq<byte>, ss: seq<Slot>)
    requires HeapInv(s, schema, first, hs) && k < |hs| && Holds(data, NextId(hs, k), ss)
    requires forall j :: 0 <= j < |ss| ==> Decodable(schema, ss[j].record)
    ensures hs[k].id < |s|
    ensures HeapInv(s[hs[k].id := Bytes(data)], schema, first, hs[k := HeapPage(hs[k].id, ss)])
  {
    hide Holds, Decodable;
    assert PageRep(s, hs, k);
    var s', hs' := s[hs[k].id := Bytes(data)], hs[k := HeapPage(hs[k].id, ss)];
    forall i | 0 <= i < |hs'| ensures PageRep(s', hs', i) {
      assert PageRep(s, hs, i);
      assert NextId(hs', i) == NextId(hs, i);
    }
  }

  /** A fresh empty page linked behind the last one. */
  lemma PageLinked(s: seq<PageData>, schema: Schema, first: PageId, hs: seq<HeapPage>, fresh_: seq<byte>, last: seq<byte>)
    requires HeapInv(s, schema, first, hs) && |s| < NO_PAGE
    requires Holds(fresh_, NO_PAGE, []) && Holds(last, |s|, hs[|hs| - 1].slots)
    ensures hs[|hs| - 1].id < |s|
    ensures HeapInv((s + [Bytes(fresh_)])[hs[|hs| - 1].id := Bytes(last)], schema, first, hs + [HeapPage(|s|, [])])
  {
    hide Holds, Decodable;
    var n := |hs| - 1;
    assert PageRep(s, hs, n);
    var s', hs' := (s + [Bytes(fresh_)])[hs[n].id := Bytes(last)], hs + [HeapPage(|s|, [])];
    forall i | 0 <= i < |hs'| ensures PageRep(s', hs', i) {
      if i < n {
        assert PageRep(s, hs, i);
        assert NextId(hs', i) == NextId(hs, i);
      }
    }
    forall i | 0 <= i < |hs| ensures hs[i].id != |s| {
      assert PageRep(s, hs, i);
    }
  }

  /** Pages of others may change freely. */
  lemma HeapFrame(s: seq<PageData>, s': seq<PageData>, schema: Schema, first: PageId, hs: seq<HeapPage>)
    requires HeapInv(s, schema, first, hs)
    requires forall x :: x in HeapIds(hs) && x < |s| ==> x < |s'| && s'[x] == s[x]
    ensures HeapInv(s', schema, first, hs)
  {
    hide Holds, AllDecodable;
    forall i | 0 <= i < |hs| ensures PageRep(s', hs, i) {
      assert PageRep(s, hs, i);
      assert hs[i].id in HeapIds(hs);
    }
  }

  // ---------- First fit ----------

  /** The position of the first page with room for `n` bytes. */
  function FirstFit(hs: seq<HeapPage>, n: nat): (k: nat)
    ensures k <= |hs|
    ensures forall j :: 0 <= j < k ==> !HasRoom(hs[j].slots, n)
    ensures k < |hs| ==> HasRoom(hs[k].slots, n)
  {
    if hs == [] || HasRoom(hs[0].slots, n) then 0 else 1 + FirstFit(hs[1..], n)
  }

  lemma FirstFitIs(hs: seq<HeapPage>, n: nat, k: nat)
    requires k <= |hs| && forall j :: 0 <= j < k ==> !HasRoom(hs[j].slots, n)
    requires k < |hs| ==> HasRoom(hs[k].slots, n)
    ensures FirstFit(hs, n) == k
  {
    var m := FirstFit(hs, n);
  }

  /** The chain after the insertion of a record; `newId` is the page to allocate if no page has room. */
  function Placed(hs: seq<HeapPage>, newId: PageId, record: seq<byte>): seq<HeapPage> {
    var k := FirstFit(hs, |record|);
    if k < |hs| then hs[k := HeapPage(hs[k].id, hs[k].slots + [Slot(record, true)])]
    else hs + [HeapPage(newId, [Slot(record, true)])]
  }

  /** Where the record went. */
  function PlacedAt(hs: seq<HeapPage>, newId: PageId, n: nat): RowPointer {
    var k := FirstFit(hs, n);
    if k < |hs| then RowPointer(hs[k].id, |hs[k].slots|) else RowPointer(newId, 0)
  }

  /** The record goes to the first page on which header, slot entries and records then take up at most 4096 bytes, and to
      slot 0 of the new page if there is none. */
  lemma PlacedFirst(hs: seq<HeapPage>, newId: PageId, n: nat)
    ensures (forall j :: 0 <= j < |hs| ==> 12 + 5 * (|hs[j].slots| + 1) + Used(hs[j].slots) + n > 4096) ==>
      FirstFit(hs, n) == |hs| && PlacedAt(hs, newId, n) == RowPointer(newId, 0)
    ensures forall k :: (
        && 0 <= k < |hs| && 12 + 5 * (|hs[k].slots| + 1) + Used(hs[k].slots) + n <= 4096
        && forall j :: 0 <= j < k ==> 12 + 5 * (|hs[j].slots| + 1) + Used(hs[j].slots) + n > 4096) ==>
      FirstFit(hs, n) == k && PlacedAt(hs, newId, n) == RowPointer(hs[k].id, |hs[k].slots|)
  {
    hide Used;
    var m := FirstFit(hs, n);
    if m < |hs| {
      assert HasRoom(hs[m].slots, n);
    }
    assert forall j :: 0 <= j < |hs| ==> (HasRoom(hs[j].slots, n) <==> 12 + 5 * (|hs[j].slots| + 1) + Used(hs[j].slots) + n <= 4096);
  }

  /** The chain with the slot of `p` marked. */
  function Flagged(hs: seq<HeapPage>, p: RowPointer, live: bool): seq<HeapPage> {
    if hs == [] then []
    else if hs[0].id == p.pageId && p.slotId < |hs[0].slots| then
      [HeapPage(hs[0].id, hs[0].slots[p.slotId := Slot(hs[0].slots[p.slotId].record, live)])] + hs[1..]
    else [hs[0]] + Flagged(hs[1..], p, live)
  }

  lemma {:induction false} FlaggedAt(hs: seq<HeapPage>, p: RowPointer, live: bool, k: nat)
    requires k < |hs| && hs[k].id == p.pageId && p.slotId < |hs[k].slots| && Acyclic(hs)
    ensures Flagged(hs, p, live) == hs[k := HeapPage(hs[k].id, hs[k].slots[p.slotId := Slot(hs[k].slots[p.slotId].record, live)])]
    decreases k
  {
    if k > 0 {
      FlaggedAt(hs[1..], p, live, k - 1);
    }
  }

  // ---------- The rows ----------

  /** One slot as the table sees it. */
  datatype Item = Item(pointer: RowPointer, row: Row, live: bool)

  /** The row that a record encodes. */
  ghost function RowOf(schema: Schema, record: seq<byte>): Row {
    if Decodable(schema, record) then var row :| Reads(schema, row, record); row else []
  }

  lemma RowOfIs(schema: Schema, row: Row, record: seq<byte>)
    requires Reads(schema, row, record)
    ensures RowOf(schema, record) == row
  {
    RowBytesInjective(schema, RowOf(schema, record), row);
  }

  ghost function SlotItem(schema: Schema, id: PageId, ss: seq<Slot>, j: nat): Item
    requires j < |ss|
  {
    Item(RowPointer(id, j), RowOf(schema, ss[j].record), ss[j].live)
  }

  ghost function PageItems(schema: Schema, h: HeapPage): (items: seq<Item>)
    ensures |items| == |h.slots|
    ensures forall j :: 0 <= j < |items| ==> items[j] == SlotItem(schema, h.id, h.slots, j)
  {
    seq(|h.slots|, j requires 0 <= j < |h.slots| => SlotItem(schema, h.id, h.slots, j))
  }

  /** Every slot of the table, in chain order: what a full scan passes. */
  ghost function Items(schema: Schema, hs: seq<HeapPage>): seq<Item> {
    if hs == [] then [] else PageItems(schema, hs[0]) + Items(schema, hs[1..])
  }

  lemma {:induction false} ItemsConcat(schema: Schema, a: seq<HeapPage>, b: seq<HeapPage>)
    ensures Items(schema, a + b) == Items(schema, a) + Items(schema, b)
    decreases |a|
  {
    if a == [] {
      assert a + b == b;
    } else {
      assert (a + b)[1..] == a[1..] + b;
      ItemsConcat(schema, a[1..], b);
    }
  }

  lemma ItemsAround(schema: Schema, hs: seq<HeapPage>, k: nat)
    requires k < |hs|
    ensures Items(schema, hs) == Items(schema, hs[..k]) + PageItems(schema, hs[k]) + Items(schema, hs[k + 1..])
  {
    assert hs == hs[..k] + hs[k..];
    ItemsConcat(schema, hs[..k], hs[k..]);
    assert hs[k..][0] == hs[k] && hs[k..][1..] == hs[k + 1..];
  }

  /** No two slots share a pointer. */
  ghost predicate DistinctPointers(items: seq<Item>) {
    forall i, j :: 0 <= i < j < |items| ==> items[i].pointer != items[j].pointer
  }

  ghost predicate PointersOn(items: seq<Item>, ids: set<PageId>) {
    forall i :: 0 <= i < |items| ==> items[i].pointer.pageId in ids
  }

  lemma {:induction false} ItemPointers(schema: Schema, hs: seq<HeapPage>)
    requires Acyclic(hs)
    ensures DistinctPointers(Items(schema, hs)) && PointersOn(Items(schema, hs), HeapIds(hs))
    decreases |hs|
  {
    if hs != [] {
      ItemPointers(schema, hs[1..]);
      var a, b := PageItems(schema, hs[0]), Items(schema, hs[1..]);
      assert hs[0].id in HeapIds(hs);
      forall x | x in HeapIds(hs[1..]) ensures x in HeapIds(hs) && x != hs[0].id {
        var i :| 0 <= i < |hs[1..]| && hs[1..][i].id == x;
        assert hs[i + 1].id == x;
      }
    }
  }

  /** An insertion adds one live item with a new pointer; nothing else moves. */
  ghost predicate ItemAdded(items: seq<Item>, items': seq<Item>, item: Item) {
    exists k :: 0 <= k <= |items| && items' == InsertItem(items, k, item)
  }

  function InsertItem(items: seq<Item>, k: nat, item: Item): seq<Item>
    requires k <= |items|
  {
    items[..k] + [item] + items[k..]
  }

  lemma PlacedAdds(schema: Schema, hs: seq<HeapPage>, newId: PageId, record: seq<byte>)
    ensures ItemAdded(Items(schema, hs), Items(schema, Placed(hs, newId, record)),
                      Item(PlacedAt(hs, newId, |record|), RowOf(schema, record), true))
  {
    var k := FirstFit(hs, |record|);
    var item := Item(PlacedAt(hs, newId, |record|), RowOf(schema, record), true);
    var items := Items(schema, hs);
    if k < |hs| {
      PageItemAdded(schema, hs, k, record);
    } else {
      var h' := HeapPage(newId, [Slot(record, true)]);
      ItemsConcat(schema, hs, [h']);
      assert PageItems(schema, h') == [item];
      assert Items(schema, [h']) == [item] + Items(schema, []);
      assert items + [item] == InsertItem(items, |items|, item);
    }
  }

  lemma PlacedItems(schema: Schema, hs: seq<HeapPage>, newId: PageId, row: Row, record: seq<byte>)
    requires Reads(schema, row, record)
    ensures ItemAdded(Items(schema, hs), Items(schema, Placed(hs, newId, record)),
                      Item(PlacedAt(hs, newId, |record|), row, true))
  {
    RowOfIs(schema, row, record);
    PlacedAdds(schema, hs, newId, record);
  }

  lemma PageItemAdded(schema: Schema, hs: seq<HeapPage>, k: nat, record: seq<byte>)
    requires k < |hs|
    ensures var h' := HeapPage(hs[k].id, hs[k].slots + [Slot(record, true)]);
      ItemAdded(Items(schema, hs), Items(schema, hs[k := h']),
                Item(RowPointer(hs[k].id, |hs[k].slots|), RowOf(schema, record), true))
  {
    var item := Item(RowPointer(hs[k].id, |hs[k].slots|), RowOf(schema, record), true);
    var h' := HeapPage(hs[k].id, hs[k].slots + [Slot(record, true)]);
    var hs' := hs[k := h'];
    assert hs'[..k] == hs[..k] && hs'[k + 1..] == hs[k + 1..];
    ItemsAround(schema, hs, k);
    ItemsAround(schema, hs', k);
    assert PageItems(schema, h') == PageItems(schema, hs[k]) + [item];
    hide *;
    InsertBetween(Items(schema, hs[..k]), PageItems(schema, hs[k]), Items(schema, hs[k + 1..]), item);
  }

  lemma InsertBetween(a: seq<Item>, b: seq<Item>, c: seq<Item>, item: Item)
    ensures ItemAdded(a + b + c, a + (b + [item]) + c, item)
  {
    assert a + (b + [item]) + c == InsertItem(a + b + c, |a| + |b|, item);
  }

  /** Marking a slot changes the flag of one item. */
  function Marked(items: seq<Item>, p: RowPointer, live: bool): (r: seq<Item>)
    ensures |r| == |items|
    ensures forall i :: 0 <= i < |items| ==> r[i] == if items[i].pointer == p then items[i].(live := live) else items[i]
  {
    seq(|items|, i requires 0 <= i < |items| => if items[i].pointer == p then items[i].(live := live) else items[i])
  }

  lemma MarkedConcat(a: seq<Item>, b: seq<Item>, p: RowPointer, live: bool)
    ensures Marked(a + b, p, live) == Marked(a, p, live) + Marked(b, p, live)
  {
  }

  lemma {:induction false} FlaggedItems(schema: Schema, hs: seq<HeapPage>, p: RowPointer, live: bool)
    requires Acyclic(hs)
    ensures Items(schema, Flagged(hs, p, live)) == Marked(Items(schema, hs), p, live)
    decreases |hs|
  {
    if hs != [] {
      var h, rest := hs[0], hs[1..];
      MarkedConcat(PageItems(schema, h), Items(schema, rest), p, live);
      if h.id == p.pageId && p.slotId < |h.slots| {
        var h' := HeapPage(h.id, h.slots[p.slotId := Slot(h.slots[p.slotId].record, live)]);
        assert PageItems(schema, h') == Marked(PageItems(schema, h), p, live);
        MarkNothing(schema, hs, p, live);
        assert ([h'] + rest)[1..] == rest;
      } else {
        FlaggedItems(schema, rest, p, live);
        assert Marked(PageItems(schema, h), p, live) == PageItems(schema, h);
        assert ([h] + Flagged(rest, p, live))[1..] == Flagged(rest, p, live);
      }
    }
  }

  lemma MarkNothing(schema: Schema, hs: seq<HeapPage>, p: RowPointer, live: bool)
    requires Acyclic(hs) && hs != [] && hs[0].id == p.pageId
    ensures Marked(Items(schema, hs[1..]), p, live) == Items(schema, hs[1..])
  {
    var rest := hs[1..];
    ItemPointers(schema, rest);
    forall i | 0 <= i < |Items(schema, rest)| ensures Items(schema, rest)[i].pointer != p {
      var x := Items(schema, rest)[i].pointer.pageId;
      assert x in HeapIds(rest);
      var j :| 0 <= j < |rest| && rest[j].id == x;
      assert hs[j + 1].id == x;
    }
  }

  // ---------- A record that is too long ----------

  /** `rounds` iterations of the insertion loop for a record of `n` bytes, starting at chain position `k`:
      the number of pages of the chain when it stops, or nothing if it is still running. */
  function Rounds(hs: seq<HeapPage>, newId: PageId, k: nat, n: nat, rounds: nat): Option<nat>
    requires k < |hs|
    decreases rounds
  {
    if rounds == 0 then None
    else if HasRoom(hs[k].slots, n) then Some(|hs|)
    else if k + 1 < |hs| then Rounds(hs, newId, k + 1, n, rounds - 1)
    else Rounds(hs + [HeapPage(newId, [])], newId + 1, k + 1, n, rounds - 1)
  }

  /** The loop comes to an end exactly for records that fit into an empty page, or find a page with room;
      the number of iterations is then bounded by the length of the chain, and at most one page is added. */
  lemma {:induction false} InsertionStops(hs: seq<HeapPage>, newId: PageId, k: nat, n: nat)
    requires k < |hs| && n <= MAX_RECORD
    ensures var r := Rounds(hs, newId, k, n, |hs| + 1 - k); r.Some? && |hs| <= r.value <= |hs| + 1
    decreases |hs| - k
  {
    if !HasRoom(hs[k].slots, n) {
      if k + 1 < |hs| {
        InsertionStops(hs, newId, k + 1, n);
      } else {
        assert HasRoom((hs + [HeapPage(newId, [])])[k + 1].slots, n);
      }
    }
  }

  /** A longer record never finds room, however long the loop runs. */
  lemma {:induction false} InsertionDiverges(hs: seq<HeapPage>, newId: PageId, k: nat, n: nat, rounds: nat)
    requires k < |hs| && n > MAX_RECORD
    ensures Rounds(hs, newId, k, n, rounds).None?
    decreases rounds
  {
    if rounds > 0 {
      if k + 1 < |hs| {
        InsertionDiverges(hs, newId, k + 1, n, rounds - 1);
      } else {
        InsertionDiverges(hs + [HeapPage(newId, [])], newId + 1, k + 1, n, rounds - 1);
      }
    }
  }

  /** Insertion terminates if and only if the record is at most 4079 bytes long. */
  lemma InsertionStopsIff(hs: seq<HeapPage>, newId: PageId, n: nat)
    requires hs != []
    ensures (exists rounds: nat :: Rounds(hs, newId, 0, n, rounds).Some?) <==> n <= 4079
  {
    if n <= MAX_RECORD {
      InsertionStops(hs, newId, 0, n);
    } else {
      forall rounds: nat ensures Rounds(hs, newId, 0, n, rounds).None? {
        InsertionDiverges(hs, newId, 0, n, rounds);
      }
    }
  }
}
