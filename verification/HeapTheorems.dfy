/** Facts about whole runs of insertions, deletions and restorations on one table. */
module HeapTheorems {
  import opened Storage
  import opened HeapPages
  import opened HeapModel
  import opened HeapFiles
  import opened Records
  import opened Tables

  /** A step of a run; an insertion may have to allocate page `newId`. */
  datatype HeapOp = Put(record: seq<byte>, newId: PageId) | Mark(pointer: RowPointer, live: bool)

  function Apply(hs: seq<HeapPage>, op: HeapOp): seq<HeapPage> {
    match op
    case Put(record, newId) => Placed(hs, newId, record)
    case Mark(p, live) => Flagged(hs, p, live)
  }

  function Run(hs: seq<HeapPage>, ops: seq<HeapOp>): seq<HeapPage>
    decreases |ops|
  {
    if ops == [] then hs else Run(Apply(hs, ops[0]), ops[1..])
  }

  /** Pages allocated during the run are new ones. */
  ghost predicate FreshPages(hs: seq<HeapPage>, ops: seq<HeapOp>)
    decreases |ops|
  {
    ops == [] || ((ops[0].Put? ==> ops[0].newId !in HeapIds(hs)) && FreshPages(Apply(hs, ops[0]), ops[1..]))
  }

  // ---------- Nothing is lost ----------

  /** Every slot of `a` is still there in `b`, with the same row under the same pointer. */
  ghost predicate RowsKept(a: seq<Item>, b: seq<Item>) {
    forall p :: FindItem(a, p).Some? ==> FindItem(b, p).Some? && FindItem(b, p).value.row == FindItem(a, p).value.row
  }

  lemma AddedKeeps(a: seq<Item>, b: seq<Item>, item: Item)
    requires DistinctPointers(b) && ItemAdded(a, b, item)
    ensures RowsKept(a, b)
  {
    AddedFinds(a, b, item);
  }

  lemma MarkedKeeps(a: seq<Item>, p: RowPointer, live: bool)
    requires DistinctPointers(a)
    ensures RowsKept(a, Marked(a, p, live))
  {
    var b := Marked(a, p, live);
    forall q | FindItem(a, q).Some? ensures FindItem(b, q).Some? && FindItem(b, q).value.row == FindItem(a, q).value.row {
      var i :| 0 <= i < |a| && a[i] == FindItem(a, q).value;
      assert b[i].pointer == a[i].pointer;
      FindItemIs(b, i);
    }
  }

  lemma PlacedAcyclic(hs: seq<HeapPage>, newId: PageId, record: seq<byte>)
    requires Acyclic(hs) && newId !in HeapIds(hs)
    ensures Acyclic(Placed(hs, newId, record))
  {
    var hs' := Placed(hs, newId, record);
    forall i | 0 <= i < |hs| ensures hs[i].id != newId && hs'[i].id == hs[i].id {
      assert hs[i].id in HeapIds(hs);
    }
  }

  lemma FlaggedAcyclic(hs: seq<HeapPage>, p: RowPointer, live: bool)
    requires Acyclic(hs)
    ensures Acyclic(Flagged(hs, p, live))
  {
    FlaggedIds(hs, p, live);
  }

  /** Whatever a run does, rows stay where they were put: pointers are never used twice,
      and the row behind a pointer never changes. */
  lemma {:induction false} RowsStay(schema: Schema, hs: seq<HeapPage>, ops: seq<HeapOp>)
    requires Acyclic(hs) && FreshPages(hs, ops)
    ensures Acyclic(Run(hs, ops))
    ensures DistinctPointers(Items(schema, Run(hs, ops)))
    ensures RowsKept(Items(schema, hs), Items(schema, Run(hs, ops)))
    decreases |ops|
  {
    ItemPointers(schema, hs);
    if ops != [] {
      StepKeeps(schema, hs, ops[0]);
      RowsStay(schema, Apply(hs, ops[0]), ops[1..]);
    }
  }

  lemma StepKeeps(schema: Schema, hs: seq<HeapPage>, op: HeapOp)
    requires Acyclic(hs) && (op.Put? ==> op.newId !in HeapIds(hs))
    ensures Acyclic(Apply(hs, op)) && RowsKept(Items(schema, hs), Items(schema, Apply(hs, op)))
  {
    match op
    case Put(record, newId) =>
      PlacedAcyclic(hs, newId, record);
      ItemPointers(schema, Placed(hs, newId, record));
      PlacedAdds(schema, hs, newId, record);
      AddedKeeps(Items(schema, hs), Items(schema, Placed(hs, newId, record)),
                 Item(PlacedAt(hs, newId, |record|), RowOf(schema, record), true));
    case Mark(p, live) =>
      FlaggedAcyclic(hs, p, live);
      FlaggedItems(schema, hs, p, live);
      ItemPointers(schema, hs);
      MarkedKeeps(Items(schema, hs), p, live);
  }

  // ---------- Insertion order ----------

  /** Every page but the last refuses records of `n` bytes. */
  ghost predicate FrontFull(hs: seq<HeapPage>, n: nat) {
    hs != [] && forall i :: 0 <= i < |hs| - 1 ==> !HasRoom(hs[i].slots, n)
  }

  lemma {:induction false} FlaggedRoom(hs: seq<HeapPage>, p: RowPointer, live: bool, i: nat, n: nat)
    requires i < |hs|
    ensures |Flagged(hs, p, live)| == |hs| && (HasRoom(Flagged(hs, p, live)[i].slots, n) <==> HasRoom(hs[i].slots, n))
    decreases |hs|
  {
    FlaggedIds(hs, p, live);
    if hs[0].id == p.pageId && p.slotId < |hs[0].slots| {
      UsedSame(hs[0].slots, hs[0].slots[p.slotId := Slot(hs[0].slots[p.slotId].record, live)]);
    } else if i > 0 {
      FlaggedRoom(hs[1..], p, live, i - 1, n);
    }
  }

  /** The rows of a table that only ever grows at its end. */
  ghost function Ledger(schema: Schema, items: seq<Item>, ops: seq<HeapOp>, pointers: seq<RowPointer>): seq<Item>
    requires |pointers| == |ops|
    decreases |ops|
  {
    if ops == [] then items
    else match ops[0]
      case Put(record, _) =>
        Ledger(schema, items + [Item(pointers[0], RowOf(schema, record), true)], ops[1..], pointers[1..])
      case Mark(p, live) => Ledger(schema, Marked(items, p, live), ops[1..], pointers[1..])
  }

  /** The pointers that the steps of a run return. */
  function Pointers(hs: seq<HeapPage>, ops: seq<HeapOp>): (ps: seq<RowPointer>)
    ensures |ps| == |ops|
    decreases |ops|
  {
    if ops == [] then []
    else [if ops[0].Put? then PlacedAt(hs, ops[0].newId, |ops[0].record|) else ops[0].pointer] + Pointers(Apply(hs, ops[0]), ops[1..])
  }

  /** While all records have the same length, the table is such a ledger: a scan meets the rows in the
      order in which they were inserted, whatever was deleted or restored in between. */
  lemma {:induction false} InsertionOrder(schema: Schema, hs: seq<HeapPage>, ops: seq<HeapOp>, n: nat)
    requires Acyclic(hs) && FreshPages(hs, ops) && FrontFull(hs, n)
    requires forall i :: 0 <= i < |ops| && ops[i].Put? ==> |ops[i].record| == n
    ensures Items(schema, Run(hs, ops)) == Ledger(schema, Items(schema, hs), ops, Pointers(hs, ops))
    ensures FrontFull(Run(hs, ops), n)
    decreases |ops|
  {
    if ops != [] {
      match ops[0] {
        case Put(record, newId) =>
          PlacedAcyclic(hs, newId, record);
          PlacedLast(schema, hs, newId, record);
        case Mark(p, live) =>
          FlaggedAcyclic(hs, p, live);
          FlaggedItems(schema, hs, p, live);
          FlaggedIds(hs, p, live);
          forall i | 0 <= i < |hs| - 1 ensures !HasRoom(Flagged(hs, p, live)[i].slots, n) {
            FlaggedRoom(hs, p, live, i, n);
          }
      }
      InsertionOrder(schema, Apply(hs, ops[0]), ops[1..], n);
    }
  }

  lemma PlacedLast(schema: Schema, hs: seq<HeapPage>, newId: PageId, record: seq<byte>)
    requires FrontFull(hs, |record|)
    ensures var item := Item(PlacedAt(hs, newId, |record|), RowOf(schema, record), true);
      Items(schema, Placed(hs, newId, record)) == Items(schema, hs) + [item]
    ensures FrontFull(Placed(hs, newId, record), |record|)
  {
    FirstFitIs(hs, |record|, if HasRoom(hs[|hs| - 1].slots, |record|) then |hs| - 1 else |hs|);
    PlacedEnd(schema, hs, newId, record);
  }

  /** In particular for a new table whose schema has only INT columns. */
  lemma {:induction false} IntTablesScanInOrder(schema: Schema, first: PageId, ops: seq<HeapOp>)
    requires forall i :: 0 <= i < |schema| ==> schema[i].columnType == IntType
    requires forall i :: 0 <= i < |ops| && ops[i].Put? ==> Decodable(schema, ops[i].record)
    requires FreshPages([HeapPage(first, [])], ops)
    ensures var hs := [HeapPage(first, [])];
      LiveRows(Items(schema, Run(hs, ops))) == LiveRows(Ledger(schema, [], ops, Pointers(hs, ops)))
  {
    var hs := [HeapPage(first, [])];
    forall i | 0 <= i < |ops| && ops[i].Put? ensures |ops[i].record| == INT_SIZE * |schema| {
      var row :| Reads(schema, row, ops[i].record);
      FixedLength(schema, row);
    }
    InsertionOrder(schema, hs, ops, INT_SIZE * |schema|);
    assert hs[1..] == [];
    assert Items(schema, hs) == [];
  }

  // ---------- Insertion order, exactly ----------

  /** Behind the page that a record of `n` bytes goes to, no page has a slot. */
  ghost predicate AppendsAt(hs: seq<HeapPage>, n: nat) {
    forall j :: FirstFit(hs, n) < j < |hs| ==> hs[j].slots == []
  }

  ghost predicate AlwaysAppends(hs: seq<HeapPage>, ops: seq<HeapOp>)
    decreases |ops|
  {
    ops == [] || ((ops[0].Put? ==> AppendsAt(hs, |ops[0].record|)) && AlwaysAppends(Apply(hs, ops[0]), ops[1..]))
  }

  /** A slot named `p` comes before a slot named `q`. */
  ghost predicate Before(items: seq<Item>, p: RowPointer, q: RowPointer) {
    exists i, j :: 0 <= i < j < |items| && items[i].pointer == p && items[j].pointer == q
  }

  lemma OneOrder(items: seq<Item>, p: RowPointer, q: RowPointer)
    requires DistinctPointers(items) && Before(items, p, q)
    ensures !Before(items, q, p)
  {
  }

  lemma AddedBefore(a: seq<Item>, b: seq<Item>, item: Item, p: RowPointer, q: RowPointer)
    requires ItemAdded(a, b, item) && Before(a, p, q)
    ensures Before(b, p, q)
  {
    var k :| 0 <= k <= |a| && b == InsertItem(a, k, item);
    var i, j :| 0 <= i < j < |a| && a[i].pointer == p && a[j].pointer == q;
    var i', j' := if i < k then i else i + 1, if j < k then j else j + 1;
    assert b[i'] == a[i] && b[j'] == a[j];
  }

  lemma MarkedBefore(a: seq<Item>, m: RowPointer, live: bool, p: RowPointer, q: RowPointer)
    requires Before(a, p, q)
    ensures Before(Marked(a, m, live), p, q)
  {
    var i, j :| 0 <= i < j < |a| && a[i].pointer == p && a[j].pointer == q;
    var b := Marked(a, m, live);
    assert b[i].pointer == p && b[j].pointer == q;
  }

  lemma {:induction false} RunBefore(schema: Schema, hs: seq<HeapPage>, ops: seq<HeapOp>, p: RowPointer, q: RowPointer)
    requires Acyclic(hs) && FreshPages(hs, ops) && Before(Items(schema, hs), p, q)
    ensures Acyclic(Run(hs, ops)) && Before(Items(schema, Run(hs, ops)), p, q)
    decreases |ops|
  {
    if ops != [] {
      match ops[0] {
        case Put(record, newId) =>
          PlacedAcyclic(hs, newId, record);
          PlacedAdds(schema, hs, newId, record);
          AddedBefore(Items(schema, hs), Items(schema, Placed(hs, newId, record)),
                      Item(PlacedAt(hs, newId, |record|), RowOf(schema, record), true), p, q);
        case Mark(m, live) =>
          FlaggedAcyclic(hs, m, live);
          FlaggedItems(schema, hs, m, live);
          MarkedBefore(Items(schema, hs), m, live, p, q);
      }
      RunBefore(schema, Apply(hs, ops[0]), ops[1..], p, q);
    }
  }

  lemma {:induction false} LedgerBefore(schema: Schema, items: seq<Item>, ops: seq<HeapOp>, pointers: seq<RowPointer>,
                                        p: RowPointer, q: RowPointer)
    requires |pointers| == |ops| && Before(items, p, q)
    ensures Before(Ledger(schema, items, ops, pointers), p, q)
    decreases |ops|
  {
    if ops != [] {
      match ops[0]
      case Put(record, _) =>
        var item := Item(pointers[0], RowOf(schema, record), true);
        assert items + [item] == InsertItem(items, |items|, item);
        AddedBefore(items, items + [item], item, p, q);
        LedgerBefore(schema, items + [item], ops[1..], pointers[1..], p, q);
      case Mark(m, live) =>
        MarkedBefore(items, m, live, p, q);
        LedgerBefore(schema, Marked(items, m, live), ops[1..], pointers[1..], p, q);
    }
  }

  /** The slots before, on and behind the page that a record goes to. */
  lemma PlacedSplit(schema: Schema, hs: seq<HeapPage>, newId: PageId, record: seq<byte>)
    returns (a: seq<Item>, m: seq<Item>, b: seq<Item>)
    requires FirstFit(hs, |record|) < |hs|
    ensures b == Items(schema, hs[FirstFit(hs, |record|) + 1..])
    ensures Items(schema, hs) == a + m + b
    ensures var item := Item(PlacedAt(hs, newId, |record|), RowOf(schema, record), true);
      Items(schema, Placed(hs, newId, record)) == a + (m + [item]) + b
  {
    hide *;
    var k := FirstFit(hs, |record|);
    var h' := HeapPage(hs[k].id, hs[k].slots + [Slot(record, true)]);
    var hs' := hs[k := h'];
    PlacedIs(hs, newId, record);
    a, m, b := Items(schema, hs[..k]), PageItems(schema, hs[k]), Items(schema, hs[k + 1..]);
    OneMoreItem(schema, hs[k], record);
    assert hs'[..k] == hs[..k] && hs'[k + 1..] == hs[k + 1..] && hs'[k] == h';
    ItemsAround(schema, hs, k);
    ItemsAround(schema, hs', k);
  }

  lemma PlacedIs(hs: seq<HeapPage>, newId: PageId, record: seq<byte>)
    requires FirstFit(hs, |record|) < |hs|
    ensures var k := FirstFit(hs, |record|);
      && Placed(hs, newId, record) == hs[k := HeapPage(hs[k].id, hs[k].slots + [Slot(record, true)])]
      && PlacedAt(hs, newId, |record|) == RowPointer(hs[k].id, |hs[k].slots|)
  {
  }

  lemma OneMoreItem(schema: Schema, h: HeapPage, record: seq<byte>)
    ensures PageItems(schema, HeapPage(h.id, h.slots + [Slot(record, true)])) ==
      PageItems(schema, h) + [Item(RowPointer(h.id, |h.slots|), RowOf(schema, record), true)]
  {
  }

  lemma SplitBefore(a: seq<Item>, m: seq<Item>, item: Item, b: seq<Item>)
    requires b != []
    ensures Before(a + (m + [item]) + b, item.pointer, b[0].pointer)
    ensures Before(a + m + b + [item], b[0].pointer, item.pointer)
  {
    var i := |a| + |m|;
    var x, y := a + (m + [item]) + b, a + m + b + [item];
    assert x[i] == item && x[i + 1] == b[0];
    assert y[i] == b[0] && y[i + |b|] == item;
  }

  /** A record that goes in front of other slots comes before one of them in the scan, though it is the newest. */
  lemma PlacedBefore(schema: Schema, hs: seq<HeapPage>, newId: PageId, record: seq<byte>) returns (q: RowPointer)
    requires !AppendsAt(hs, |record|)
    ensures var item := Item(PlacedAt(hs, newId, |record|), RowOf(schema, record), true);
      && Before(Items(schema, Placed(hs, newId, record)), item.pointer, q)
      && Before(Items(schema, hs) + [item], q, item.pointer)
  {
    var item := Item(PlacedAt(hs, newId, |record|), RowOf(schema, record), true);
    BehindFit(schema, hs, |record|);
    var a, m, b := PlacedSplit(schema, hs, newId, record);
    hide *;
    SplitBefore(a, m, item, b);
    q := b[0].pointer;
  }

  lemma BehindFit(schema: Schema, hs: seq<HeapPage>, n: nat)
    ensures !AppendsAt(hs, n) ==> FirstFit(hs, n) < |hs|
    ensures FirstFit(hs, n) < |hs| ==> (AppendsAt(hs, n) <==> Items(schema, hs[FirstFit(hs, n) + 1..]) == [])
  {
    var k := FirstFit(hs, n);
    if k < |hs| {
      NoItems(schema, hs[k + 1..]);
      assert forall j :: k < j < |hs| ==> hs[j] == hs[k + 1..][j - k - 1];
    }
  }

  lemma {:induction false} NoItems(schema: Schema, hs: seq<HeapPage>)
    ensures Items(schema, hs) == [] <==> forall j :: 0 <= j < |hs| ==> hs[j].slots == []
    decreases |hs|
  {
    if hs != [] {
      NoItems(schema, hs[1..]);
      assert forall j :: 0 < j < |hs| ==> hs[j] == hs[1..][j - 1];
      assert |PageItems(schema, hs[0])| == |hs[0].slots|;
    }
  }

  lemma PlacedEnd(schema: Schema, hs: seq<HeapPage>, newId: PageId, record: seq<byte>)
    requires AppendsAt(hs, |record|)
    ensures Items(schema, Placed(hs, newId, record)) ==
      Items(schema, hs) + [Item(PlacedAt(hs, newId, |record|), RowOf(schema, record), true)]
  {
    var item := Item(PlacedAt(hs, newId, |record|), RowOf(schema, record), true);
    if FirstFit(hs, |record|) < |hs| {
      BehindFit(schema, hs, |record|);
      var a, m, b := PlacedSplit(schema, hs, newId, record);
      hide *;
      assert a + (m + [item]) + [] == a + m + [] + [item];
    } else {
      var h' := HeapPage(newId, [Slot(record, true)]);
      ItemsConcat(schema, hs, [h']);
      assert PageItems(schema, h') == [item];
      assert Items(schema, [h']) == [item] + Items(schema, []);
    }
  }

  /** An insertion extends the scan order at its end if and only if no page behind the chosen one has a slot. */
  lemma AppendsIff(schema: Schema, hs: seq<HeapPage>, newId: PageId, record: seq<byte>)
    requires Acyclic(hs) && newId !in HeapIds(hs)
    ensures var item := Item(PlacedAt(hs, newId, |record|), RowOf(schema, record), true);
      Items(schema, Placed(hs, newId, record)) == Items(schema, hs) + [item] <==> AppendsAt(hs, |record|)
  {
    if AppendsAt(hs, |record|) {
      PlacedEnd(schema, hs, newId, record);
    } else {
      var q := PlacedBefore(schema, hs, newId, record);
      PlacedAcyclic(hs, newId, record);
      ItemPointers(schema, Placed(hs, newId, record));
      OneOrder(Items(schema, Placed(hs, newId, record)), PlacedAt(hs, newId, |record|), q);
    }
  }

  /** A table is scanned in insertion order after a run if and only if every insertion of the run was at the end. */
  lemma {:induction false} InsertionOrderIff(schema: Schema, hs: seq<HeapPage>, ops: seq<HeapOp>)
    requires Acyclic(hs) && FreshPages(hs, ops)
    ensures Items(schema, Run(hs, ops)) == Ledger(schema, Items(schema, hs), ops, Pointers(hs, ops)) <==> AlwaysAppends(hs, ops)
    decreases |ops|
  {
    if ops != [] {
      var ps := Pointers(hs, ops);
      assert ps[1..] == Pointers(Apply(hs, ops[0]), ops[1..]);
      match ops[0]
      case Put(record, newId) =>
        PlacedAcyclic(hs, newId, record);
        var hs' := Placed(hs, newId, record);
        var item := Item(PlacedAt(hs, newId, |record|), RowOf(schema, record), true);
        if AppendsAt(hs, |record|) {
          PlacedEnd(schema, hs, newId, record);
          InsertionOrderIff(schema, hs', ops[1..]);
        } else {
          var q := PlacedBefore(schema, hs, newId, record);
          RunBefore(schema, hs', ops[1..], item.pointer, q);
          LedgerBefore(schema, Items(schema, hs) + [item], ops[1..], ps[1..], q, item.pointer);
          ItemPointers(schema, Run(hs', ops[1..]));
          OneOrder(Items(schema, Run(hs', ops[1..])), item.pointer, q);
        }
      case Mark(p, live) =>
        FlaggedAcyclic(hs, p, live);
        FlaggedItems(schema, hs, p, live);
        InsertionOrderIff(schema, Flagged(hs, p, live), ops[1..]);
    }
  }

  // ---------- Insertion order of the live rows ----------

  /** The slots with a pointer in `ps`, in order. */
  function Among(items: seq<Item>, ps: set<RowPointer>): seq<Item> {
    if items == [] then []
    else
      var n := |items| - 1;
      Among(items[..n], ps) + if items[n].pointer in ps then [items[n]] else []
  }

  lemma {:induction false} AmongConcat(a: seq<Item>, b: seq<Item>, ps: set<RowPointer>)
    ensures Among(a + b, ps) == Among(a, ps) + Among(b, ps)
    decreases |b|
  {
    if b == [] {
      assert a + b == a;
    } else {
      var n := |b| - 1;
      assert (a + b)[..|a| + n] == a + b[..n] && (a + b)[|a| + n] == b[n];
      AmongConcat(a, b[..n], ps);
    }
  }

  lemma AmongOne(item: Item, ps: set<RowPointer>)
    ensures Among([item], ps) == if item.pointer in ps then [item] else []
  {
    assert [item][..0] == [];
    assert Among([], ps) == [];
  }

  lemma {:induction false} AmongMarked(items: seq<Item>, ps: set<RowPointer>, p: RowPointer, live: bool)
    ensures Among(Marked(items, p, live), ps) == Marked(Among(items, ps), p, live)
  {
    if items != [] {
      var n := |items| - 1;
      assert Marked(items, p, live)[..n] == Marked(items[..n], p, live);
      AmongMarked(items[..n], ps, p, live);
    }
  }

  ghost predicate Occurs(items: seq<Item>, p: RowPointer) {
    exists i :: 0 <= i < |items| && items[i].pointer == p
  }

  lemma {:induction false} AmongOccurs(items: seq<Item>, ps: set<RowPointer>, p: RowPointer)
    requires p in ps
    ensures Occurs(Among(items, ps), p) <==> Occurs(items, p)
  {
    if items != [] {
      var n := |items| - 1;
      AmongOccurs(items[..n], ps, p);
      assert items == items[..n] + [items[n]];
      hide Among;
      AmongStep(items, ps);
      OccursConcat(items[..n], [items[n]], p);
      OccursConcat(Among(items[..n], ps), if items[n].pointer in ps then [items[n]] else [], p);
    }
  }

  lemma AmongStep(items: seq<Item>, ps: set<RowPointer>)
    requires items != []
    ensures var n := |items| - 1; Among(items, ps) == Among(items[..n], ps) + if items[n].pointer in ps then [items[n]] else []
  {
  }

  lemma OccursConcat(a: seq<Item>, b: seq<Item>, p: RowPointer)
    ensures Occurs(a + b, p) <==> Occurs(a, p) || Occurs(b, p)
  {
    if i :| 0 <= i < |a + b| && (a + b)[i].pointer == p {
      assert if i < |a| then a[i].pointer == p else b[i - |a|].pointer == p;
    }
    if i :| 0 <= i < |a| && a[i].pointer == p {
      assert (a + b)[i].pointer == p;
    }
    if i :| 0 <= i < |b| && b[i].pointer == p {
      assert (a + b)[|a| + i].pointer == p;
    }
  }

  lemma BeforeConcat(a: seq<Item>, b: seq<Item>, p: RowPointer, q: RowPointer)
    requires Before(a, p, q) || (Occurs(a, p) && Occurs(b, q))
    ensures Before(a + b, p, q)
  {
    if Before(a, p, q) {
      var i, j :| 0 <= i < j < |a| && a[i].pointer == p && a[j].pointer == q;
      assert (a + b)[i].pointer == p && (a + b)[j].pointer == q;
    } else {
      var i :| 0 <= i < |a| && a[i].pointer == p;
      var j :| 0 <= j < |b| && b[j].pointer == q;
      assert (a + b)[i].pointer == p && (a + b)[|a| + j].pointer == q;
    }
  }

  /** Leaving slots out does not change the order of the others. */
  lemma {:induction false} AmongBefore(items: seq<Item>, ps: set<RowPointer>, p: RowPointer, q: RowPointer)
    requires Before(items, p, q) && p in ps && q in ps
    ensures Before(Among(items, ps), p, q)
    decreases |items|
  {
    var n := |items| - 1;
    var i, j :| 0 <= i < j < |items| && items[i].pointer == p && items[j].pointer == q;
    AmongStep(items, ps);
    if j < n {
      assert items[..n][i].pointer == p && items[..n][j].pointer == q;
      AmongBefore(items[..n], ps, p, q);
      BeforeConcat(Among(items[..n], ps), if items[n].pointer in ps then [items[n]] else [], p, q);
    } else {
      assert items[..n][i].pointer == p;
      AmongOccurs(items[..n], ps, p);
      assert [items[n]][0].pointer == q;
      BeforeConcat(Among(items[..n], ps), [items[n]], p, q);
    }
  }

  lemma {:induction false} AmongDistinct(items: seq<Item>, ps: set<RowPointer>)
    requires DistinctPointers(items)
    ensures DistinctPointers(Among(items, ps)) && forall i :: 0 <= i < |Among(items, ps)| ==> Among(items, ps)[i] in items
  {
    if items != [] {
      var n := |items| - 1;
      AmongDistinct(items[..n], ps);
      assert forall x :: x in items[..n] ==> x in items && x.pointer != items[n].pointer;
    }
  }

  /** No slot behind the page that a record of `n` bytes goes to has its pointer in `ps`. */
  ghost predicate NoneBehind(hs: seq<HeapPage>, n: nat, ps: set<RowPointer>) {
    forall j, i :: FirstFit(hs, n) < j < |hs| && 0 <= i < |hs[j].slots| ==> RowPointer(hs[j].id, i) !in ps
  }

  /** No record whose pointer is in `ps` was put in front of an older one whose pointer is in `ps`. */
  ghost predicate NoneInFront(hs: seq<HeapPage>, ops: seq<HeapOp>, ps: set<RowPointer>)
    decreases |ops|
  {
    ops == [] ||
    (&& (ops[0].Put? && PlacedAt(hs, ops[0].newId, |ops[0].record|) in ps ==> NoneBehind(hs, |ops[0].record|, ps))
     && NoneInFront(Apply(hs, ops[0]), ops[1..], ps))
  }

  lemma {:induction false} NoneAmong(schema: Schema, hs: seq<HeapPage>, ps: set<RowPointer>)
    ensures Among(Items(schema, hs), ps) == [] <==>
      forall j, i :: 0 <= j < |hs| && 0 <= i < |hs[j].slots| ==> RowPointer(hs[j].id, i) !in ps
  {
    if hs != [] {
      NoneAmong(schema, hs[1..], ps);
      PageAmong(schema, hs[0], ps);
      AmongConcat(PageItems(schema, hs[0]), Items(schema, hs[1..]), ps);
      assert forall j :: 0 < j < |hs| ==> hs[j] == hs[1..][j - 1];
    }
  }

  lemma PageAmong(schema: Schema, h: HeapPage, ps: set<RowPointer>)
    ensures Among(PageItems(schema, h), ps) == [] <==> forall i :: 0 <= i < |h.slots| ==> RowPointer(h.id, i) !in ps
  {
    EmptyAmong(PageItems(schema, h), ps);
    assert forall i :: 0 <= i < |h.slots| ==> PageItems(schema, h)[i].pointer == RowPointer(h.id, i);
  }

  lemma {:induction false} EmptyAmong(items: seq<Item>, ps: set<RowPointer>)
    ensures Among(items, ps) == [] <==> forall i :: 0 <= i < |items| ==> items[i].pointer !in ps
  {
    if items != [] {
      var n := |items| - 1;
      EmptyAmong(items[..n], ps);
      AmongStep(items, ps);
      hide Among;
      assert forall i :: 0 <= i < n ==> items[i] == items[..n][i];
    }
  }

  /** A record that is looked at, put behind all slots that are looked at, or one that is not looked at at all. */
  lemma PlacedAmong(schema: Schema, hs: seq<HeapPage>, newId: PageId, record: seq<byte>, ps: set<RowPointer>)
    requires PlacedAt(hs, newId, |record|) in ps ==> NoneBehind(hs, |record|, ps)
    ensures var item := Item(PlacedAt(hs, newId, |record|), RowOf(schema, record), true);
      Among(Items(schema, Placed(hs, newId, record)), ps) ==
      Among(Items(schema, hs), ps) + if item.pointer in ps then [item] else []
  {
    var item := Item(PlacedAt(hs, newId, |record|), RowOf(schema, record), true);
    hide *;
    AmongOne(item, ps);
    if FirstFit(hs, |record|) < |hs| {
      var a, m, b := PlacedSplit(schema, hs, newId, record);
      BehindAmong(schema, hs, |record|, ps);
      MiddleAmong(a, m, item, b, ps);
    } else {
      AppendedAmong(schema, hs, newId, record);
      AmongConcat(Items(schema, hs), [item], ps);
    }
  }

  lemma MiddleAmong(a: seq<Item>, m: seq<Item>, item: Item, b: seq<Item>, ps: set<RowPointer>)
    requires item.pointer in ps ==> Among(b, ps) == []
    ensures Among(a + (m + [item]) + b, ps) == Among(a + m + b, ps) + if item.pointer in ps then [item] else []
  {
    AmongOne(item, ps);
    hide *;
    AmongConcat(a + (m + [item]), b, ps);
    AmongConcat(a, m + [item], ps);
    AmongConcat(m, [item], ps);
    AmongConcat(a + m, b, ps);
    AmongConcat(a, m, ps);
    var x, y := Among(a, ps), Among(m, ps);
    assert x + (y + []) + Among(b, ps) == x + y + Among(b, ps) + [];
    assert x + (y + [item]) + [] == x + y + [] + [item];
  }

  lemma AppendedAmong(schema: Schema, hs: seq<HeapPage>, newId: PageId, record: seq<byte>)
    requires FirstFit(hs, |record|) == |hs|
    ensures Items(schema, Placed(hs, newId, record)) ==
      Items(schema, hs) + [Item(PlacedAt(hs, newId, |record|), RowOf(schema, record), true)]
  {
    assert AppendsAt(hs, |record|);
    PlacedEnd(schema, hs, newId, record);
  }

  lemma BehindAmong(schema: Schema, hs: seq<HeapPage>, n: nat, ps: set<RowPointer>)
    requires FirstFit(hs, n) < |hs|
    ensures NoneBehind(hs, n, ps) <==> Among(Items(schema, hs[FirstFit(hs, n) + 1..]), ps) == []
  {
    var k := FirstFit(hs, n);
    hide Items, Among, FirstFit;
    NoneAmong(schema, hs[k + 1..], ps);
    assert forall j :: k < j < |hs| ==> hs[j] == hs[k + 1..][j - k - 1];
  }

  /** A record that is put in front of a slot that is looked at. */
  lemma PlacedInFront(schema: Schema, hs: seq<HeapPage>, newId: PageId, record: seq<byte>, ps: set<RowPointer>) returns (q: RowPointer)
    requires !NoneBehind(hs, |record|, ps)
    ensures q in ps && Occurs(Items(schema, hs), q)
    ensures Before(Items(schema, Placed(hs, newId, record)), PlacedAt(hs, newId, |record|), q)
  {
    hide *;
    BehindExists(hs, |record|, ps);
    var item := Item(PlacedAt(hs, newId, |record|), RowOf(schema, record), true);
    var a, m, b := PlacedSplit(schema, hs, newId, record);
    q := FoundBehind(schema, hs, |record|, ps, b);
    InFront(a, m, item, b, q);
    SameOrder(Items(schema, hs), a + m + b, Items(schema, Placed(hs, newId, record)), a + (m + [item]) + b, item.pointer, q);
  }

  lemma SameOrder(x: seq<Item>, x': seq<Item>, y: seq<Item>, y': seq<Item>, p: RowPointer, q: RowPointer)
    requires x == x' && y == y' && Occurs(x', q) && Before(y', p, q)
    ensures Occurs(x, q) && Before(y, p, q)
  {
    hide *;
  }

  lemma FoundBehind(schema: Schema, hs: seq<HeapPage>, n: nat, ps: set<RowPointer>, b: seq<Item>) returns (q: RowPointer)
    requires FirstFit(hs, n) < |hs| && !NoneBehind(hs, n, ps) && b == Items(schema, hs[FirstFit(hs, n) + 1..])
    ensures q in ps && Occurs(b, q)
  {
    hide *;
    BehindAmong(schema, hs, n, ps);
    q := OneAmong(b, ps);
  }

  lemma BehindExists(hs: seq<HeapPage>, n: nat, ps: set<RowPointer>)
    requires !NoneBehind(hs, n, ps)
    ensures FirstFit(hs, n) < |hs|
  {
  }

  lemma OneAmong(items: seq<Item>, ps: set<RowPointer>) returns (q: RowPointer)
    requires Among(items, ps) != []
    ensures q in ps && Occurs(items, q)
  {
    EmptyAmong(items, ps);
    var i :| 0 <= i < |items| && items[i].pointer in ps;
    q := items[i].pointer;
  }

  lemma InFront(a: seq<Item>, m: seq<Item>, item: Item, b: seq<Item>, q: RowPointer)
    requires Occurs(b, q)
    ensures Occurs(a + m + b, q) && Before(a + (m + [item]) + b, item.pointer, q)
  {
    hide *;
    OccursAlone(item);
    OccursConcat(a + m, b, q);
    OccursConcat(a, m + [item], item.pointer);
    OccursConcat(m, [item], item.pointer);
    BeforeConcat(a + (m + [item]), b, item.pointer, q);
  }

  /** The slots that are looked at end up in ledger order if and only if none of them was put in front of an older one. */
  lemma {:induction false} AmongOrder(schema: Schema, hs: seq<HeapPage>, ops: seq<HeapOp>, items: seq<Item>, ps: set<RowPointer>)
    requires Acyclic(hs) && FreshPages(hs, ops) && Among(Items(schema, hs), ps) == Among(items, ps)
    ensures Among(Items(schema, Run(hs, ops)), ps) == Among(Ledger(schema, items, ops, Pointers(hs, ops)), ps)
       <==> NoneInFront(hs, ops, ps)
    decreases |ops|
  {
    hide Items, Among, Placed, PlacedAt, NoneBehind, Occurs, Before, RowOf, Acyclic, HeapIds;
    if ops != [] {
      var ps' := Pointers(hs, ops);
      assert ps'[1..] == Pointers(Apply(hs, ops[0]), ops[1..]);
      match ops[0]
      case Put(record, newId) =>
        var item := Item(PlacedAt(hs, newId, |record|), RowOf(schema, record), true);
        PlacedAcyclic(hs, newId, record);
        AmongConcat(items, [item], ps);
        AmongOne(item, ps);
        if item.pointer in ps && !NoneBehind(hs, |record|, ps) {
          OutOfOrder(schema, hs, ops[1..], items, ps, record, newId);
        } else {
          PlacedAmong(schema, hs, newId, record, ps);
          AmongOrder(schema, Placed(hs, newId, record), ops[1..], items + [item], ps);
        }
      case Mark(p, live) =>
        FlaggedAcyclic(hs, p, live);
        FlaggedItems(schema, hs, p, live);
        AmongMarked(Items(schema, hs), ps, p, live);
        AmongMarked(items, ps, p, live);
        AmongOrder(schema, Flagged(hs, p, live), ops[1..], Marked(items, p, live), ps);
    }
  }

  /** Once a record has gone in front of an older one, the order stays wrong. */
  lemma OutOfOrder(schema: Schema, hs: seq<HeapPage>, ops: seq<HeapOp>, items: seq<Item>, ps: set<RowPointer>,
                   record: seq<byte>, newId: PageId)
    requires Acyclic(hs) && newId !in HeapIds(hs) && FreshPages(Placed(hs, newId, record), ops)
    requires Among(Items(schema, hs), ps) == Among(items, ps)
    requires PlacedAt(hs, newId, |record|) in ps && !NoneBehind(hs, |record|, ps)
    ensures var item, hs' := Item(PlacedAt(hs, newId, |record|), RowOf(schema, record), true), Placed(hs, newId, record);
      Among(Items(schema, Run(hs', ops)), ps) != Among(Ledger(schema, items + [item], ops, Pointers(hs', ops)), ps)
  {
    hide *;
    var item, hs' := Item(PlacedAt(hs, newId, |record|), RowOf(schema, record), true), Placed(hs, newId, record);
    var p := item.pointer;
    var q := PlacedInFront(schema, hs, newId, record, ps);
    AmongOccurs(Items(schema, hs), ps, q);
    AmongOccurs(items, ps, q);
    OccursAlone(item);
    BeforeConcat(items, [item], q, p);
    PlacedAcyclic(hs, newId, record);
    RunBefore(schema, hs', ops, p, q);
    LedgerBefore(schema, items + [item], ops, Pointers(hs', ops), q, p);
    var e, g := Items(schema, Run(hs', ops)), Ledger(schema, items + [item], ops, Pointers(hs', ops));
    AmongBefore(e, ps, p, q);
    AmongBefore(g, ps, q, p);
    ItemPointers(schema, Run(hs', ops));
    AmongDistinct(e, ps);
    OneOrder(Among(e, ps), p, q);
  }

  lemma OccursAlone(item: Item)
    ensures Occurs([item], item.pointer)
  {
    assert [item][0].pointer == item.pointer;
  }

  // ---------- ... and of the rows that are live at the end ----------

  /** The ledger holds the same slots as the heap, in whatever order. */
  lemma {:induction false} SameSlots(schema: Schema, hs: seq<HeapPage>, ops: seq<HeapOp>, items: seq<Item>)
    requires Acyclic(hs) && FreshPages(hs, ops) && DistinctPointers(items)
    requires forall p :: FindItem(items, p) == FindItem(Items(schema, hs), p)
    ensures var e, g := Items(schema, Run(hs, ops)), Ledger(schema, items, ops, Pointers(hs, ops));
      DistinctPointers(e) && DistinctPointers(g) && forall p :: FindItem(g, p) == FindItem(e, p)
    decreases |ops|
  {
    hide Items, Placed, PlacedAt, RowOf, Acyclic, HeapIds, FindItem, DistinctPointers;
    ItemPointers(schema, hs);
    if ops != [] {
      var ps := Pointers(hs, ops);
      assert ps[1..] == Pointers(Apply(hs, ops[0]), ops[1..]);
      match ops[0]
      case Put(record, newId) =>
        var item := Item(PlacedAt(hs, newId, |record|), RowOf(schema, record), true);
        PlacedAcyclic(hs, newId, record);
        PlacedAdds(schema, hs, newId, record);
        ItemPointers(schema, Placed(hs, newId, record));
        AddedFinds(Items(schema, hs), Items(schema, Placed(hs, newId, record)), item);
        AppendFinds(items, item);
        SameSlots(schema, Placed(hs, newId, record), ops[1..], items + [item]);
      case Mark(m, live) =>
        FlaggedAcyclic(hs, m, live);
        FlaggedItems(schema, hs, m, live);
        MarkedFinds(items, m, live);
        MarkedFinds(Items(schema, hs), m, live);
        SameSlots(schema, Flagged(hs, m, live), ops[1..], Marked(items, m, live));
    }
  }

  lemma AppendFinds(items: seq<Item>, item: Item)
    requires DistinctPointers(items) && FindItem(items, item.pointer).None?
    ensures DistinctPointers(items + [item])
    ensures forall p :: FindItem(items + [item], p) == if p == item.pointer then Some(item) else FindItem(items, p)
  {
    assert items + [item] == InsertItem(items, |items|, item);
    assert ItemAdded(items, items + [item], item);
    AddedFinds(items, items + [item], item);
  }

  lemma MarkedFinds(items: seq<Item>, m: RowPointer, live: bool)
    requires DistinctPointers(items)
    ensures DistinctPointers(Marked(items, m, live))
    ensures forall p :: FindItem(Marked(items, m, live), p) ==
                          if p == m && FindItem(items, p).Some? then Some(FindItem(items, p).value.(live := live)) else FindItem(items, p)
  {
    forall p ensures FindItem(Marked(items, m, live), p) ==
      if p == m && FindItem(items, p).Some? then Some(FindItem(items, p).value.(live := live)) else FindItem(items, p)
    {
      FindMarked(items, m, live, p);
    }
  }

  /** The pointers of the live rows. */
  ghost function LivePointers(items: seq<Item>): set<RowPointer> {
    set i | 0 <= i < |items| && items[i].live :: items[i].pointer
  }

  function Pairs(items: seq<Item>): (rows: seq<(RowPointer, Row)>)
    ensures |rows| == |items| && forall i :: 0 <= i < |items| ==> rows[i] == (items[i].pointer, items[i].row)
  {
    seq(|items|, i requires 0 <= i < |items| => (items[i].pointer, items[i].row))
  }

  /** The live slots are those with a pointer in `live`. */
  ghost predicate LiveAre(items: seq<Item>, live: set<RowPointer>) {
    forall i :: 0 <= i < |items| ==> (items[i].pointer in live <==> items[i].live)
  }

  lemma {:induction false} LiveAmong(items: seq<Item>, ps: set<RowPointer>)
    requires LiveAre(items, ps)
    ensures LiveRows(items) == Pairs(Among(items, ps)) && forall i :: 0 <= i < |Among(items, ps)| ==> Among(items, ps)[i].live
  {
    if items != [] {
      LiveAmong(items[..|items| - 1], ps);
    }
  }

  lemma SamePairs(a: seq<Item>, b: seq<Item>)
    requires (forall i :: 0 <= i < |a| ==> a[i].live) && (forall i :: 0 <= i < |b| ==> b[i].live)
    ensures Pairs(a) == Pairs(b) <==> a == b
  {
    if Pairs(a) == Pairs(b) {
      assert |a| == |Pairs(a)| == |b|;
      forall i | 0 <= i < |a| ensures a[i] == b[i] {
        assert Pairs(a)[i] == Pairs(b)[i];
      }
    }
  }

  /** The pointers whose rows are live at the end of a run, told from the steps of the run: a row is live if it was at the start
      or was put, unless the last mark on it says otherwise. */
  function Survivors(live: set<RowPointer>, ops: seq<HeapOp>, pointers: seq<RowPointer>): set<RowPointer>
    requires |pointers| == |ops|
    decreases |ops|
  {
    if ops == [] then live
    else
      var p := pointers[0];
      Survivors(if ops[0].Put? || ops[0].live then live + {p} else live - {p}, ops[1..], pointers[1..])
  }

  lemma {:induction false} SurvivorsLive(schema: Schema, hs: seq<HeapPage>, ops: seq<HeapOp>, live: set<RowPointer>)
    requires Acyclic(hs) && FreshPages(hs, ops) && LiveAre(Items(schema, hs), live)
    ensures LiveAre(Items(schema, Run(hs, ops)), Survivors(live, ops, Pointers(hs, ops)))
    decreases |ops|
  {
    hide Items, Placed, PlacedAt, RowOf, Acyclic, HeapIds, LiveAre;
    if ops != [] {
      var ps := Pointers(hs, ops);
      assert ps[1..] == Pointers(Apply(hs, ops[0]), ops[1..]);
      match ops[0]
      case Put(record, newId) =>
        var item := Item(PlacedAt(hs, newId, |record|), RowOf(schema, record), true);
        PlacedAcyclic(hs, newId, record);
        PlacedAdds(schema, hs, newId, record);
        ItemPointers(schema, Placed(hs, newId, record));
        AddedLive(Items(schema, hs), Items(schema, Placed(hs, newId, record)), item, live);
        SurvivorsLive(schema, Placed(hs, newId, record), ops[1..], live + {item.pointer});
      case Mark(m, flag) =>
        FlaggedAcyclic(hs, m, flag);
        FlaggedItems(schema, hs, m, flag);
        MarkedLive(Items(schema, hs), m, flag, live);
        SurvivorsLive(schema, Flagged(hs, m, flag), ops[1..], if flag then live + {m} else live - {m});
    }
  }

  lemma AddedLive(a: seq<Item>, b: seq<Item>, item: Item, live: set<RowPointer>)
    requires ItemAdded(a, b, item) && item.live && LiveAre(a, live) && DistinctPointers(b)
    ensures LiveAre(b, live + {item.pointer})
  {
    var k :| 0 <= k <= |a| && b == InsertItem(a, k, item);
    assert b[k] == item;
    forall i | 0 <= i < |b| ensures b[i].pointer in live + {item.pointer} <==> b[i].live {
      assert i < k ==> b[i] == a[i];
      assert i > k ==> b[i] == a[i - 1];
    }
  }

  lemma MarkedLive(items: seq<Item>, p: RowPointer, flag: bool, live: set<RowPointer>)
    requires LiveAre(items, live)
    ensures LiveAre(Marked(items, p, flag), if flag then live + {p} else live - {p})
  {
  }

  lemma StartLive(items: seq<Item>)
    requires DistinctPointers(items)
    ensures LiveAre(items, LivePointers(items))
  {
  }

  /** The same slots in another order have the same live ones. */
  lemma LiveElsewhere(e: seq<Item>, g: seq<Item>, live: set<RowPointer>)
    requires LiveAre(e, live) && DistinctPointers(g) && forall p :: FindItem(g, p) == FindItem(e, p)
    ensures LiveAre(g, live)
  {
    forall i | 0 <= i < |g| ensures g[i].pointer in live <==> g[i].live {
      FindItemIs(g, i);
      var j :| 0 <= j < |e| && e[j] == g[i];
    }
  }

  /** A scan after a run yields the live rows in the order in which they were inserted if and only if no insertion whose row
      is live at the end was put in front of an older row that is live at the end. Deletions and restorations on the way
      do not matter, nor do insertions of rows that are gone at the end. Which rows these are follows from the steps. */
  lemma LiveOrderIff(schema: Schema, hs: seq<HeapPage>, ops: seq<HeapOp>)
    requires Acyclic(hs) && FreshPages(hs, ops)
    ensures var items, ps := Items(schema, hs), Pointers(hs, ops);
      LiveRows(Items(schema, Run(hs, ops))) == LiveRows(Ledger(schema, items, ops, ps))
      <==> NoneInFront(hs, ops, Survivors(LivePointers(items), ops, ps))
  {
    var items := Items(schema, hs);
    ItemPointers(schema, hs);
    hide *;
    SameSlots(schema, hs, ops, items);
    var e, g := Items(schema, Run(hs, ops)), Ledger(schema, items, ops, Pointers(hs, ops));
    var live := Survivors(LivePointers(items), ops, Pointers(hs, ops));
    StartLive(items);
    SurvivorsLive(schema, hs, ops, LivePointers(items));
    LiveElsewhere(e, g, live);
    LiveAmong(e, live);
    LiveAmong(g, live);
    SamePairs(Among(e, live), Among(g, live));
    AmongOrder(schema, hs, ops, items, live);
  }

  /** No page behind the one that a record of `n` bytes goes to has a live slot. */
  ghost predicate NoneLiveBehind(hs: seq<HeapPage>, n: nat) {
    forall j, i :: FirstFit(hs, n) < j < |hs| && 0 <= i < |hs[j].slots| ==> !hs[j].slots[i].live
  }

  /** An insertion extends the scan at its end if and only if no page behind the chosen one has a live row. */
  lemma LiveAppendsIff(schema: Schema, hs: seq<HeapPage>, newId: PageId, record: seq<byte>)
    requires Acyclic(hs) && newId !in HeapIds(hs)
    ensures var p, row := PlacedAt(hs, newId, |record|), RowOf(schema, record);
      LiveRows(Items(schema, Placed(hs, newId, record))) == LiveRows(Items(schema, hs)) + [(p, row)] <==> NoneLiveBehind(hs, |record|)
  {
    var op, items := Put(record, newId), Items(schema, hs);
    var item := Item(PlacedAt(hs, newId, |record|), RowOf(schema, record), true);
    OneStep(schema, hs, op);
    LiveOrderIff(schema, hs, [op]);
    assert (items + [item])[..|items|] == items;
    assert LiveRows(items + [item]) == LiveRows(items) + [(item.pointer, item.row)];
    LiveBehind(schema, hs, newId, record);
  }

  lemma OneStep(schema: Schema, hs: seq<HeapPage>, op: HeapOp)
    requires op.Put? && op.newId !in HeapIds(hs)
    ensures FreshPages(hs, [op]) && Run(hs, [op]) == Placed(hs, op.newId, op.record)
    ensures var p, items := PlacedAt(hs, op.newId, |op.record|), Items(schema, hs);
      && Ledger(schema, items, [op], Pointers(hs, [op])) == items + [Item(p, RowOf(schema, op.record), true)]
      && Survivors(LivePointers(items), [op], Pointers(hs, [op])) == LivePointers(items) + {p}
      && forall ps :: NoneInFront(hs, [op], ps) <==> (p in ps ==> NoneBehind(hs, |op.record|, ps))
  {
    assert [op][1..] == [];
    hide Placed, PlacedAt, RowOf, Items, NoneBehind, LivePointers;
  }

  lemma LiveBehind(schema: Schema, hs: seq<HeapPage>, newId: PageId, record: seq<byte>)
    requires Acyclic(hs) && newId !in HeapIds(hs)
    ensures var p, live := PlacedAt(hs, newId, |record|), LivePointers(Items(schema, hs));
      NoneBehind(hs, |record|, live + {p}) <==> NoneLiveBehind(hs, |record|)
  {
    var items, k, p := Items(schema, hs), FirstFit(hs, |record|), PlacedAt(hs, newId, |record|);
    ItemPointers(schema, hs);
    forall j, i | k < j < |hs| && 0 <= i < |hs[j].slots|
      ensures RowPointer(hs[j].id, i) in LivePointers(items) + {p} <==> hs[j].slots[i].live
    {
      SlotFound(schema, hs, RowPointer(hs[j].id, i), j);
      FoundLive(items, RowPointer(hs[j].id, i));
      assert hs[j].id in HeapIds(hs) && hs[j].id != hs[k].id;
    }
  }

  lemma FoundLive(items: seq<Item>, p: RowPointer)
    requires DistinctPointers(items) && FindItem(items, p).Some?
    ensures p in LivePointers(items) <==> FindItem(items, p).value.live
  {
    var i :| 0 <= i < |items| && items[i] == FindItem(items, p).value;
    forall j | 0 <= j < |items| && items[j].pointer == p ensures j == i {
    }
  }

  /** With records of different lengths the scan order may differ: a short record goes back to a page
      that had no room for the long record before it. */
  lemma OrderBroken(a: seq<byte>, b: seq<byte>, c: seq<byte>, schema: Schema)
    requires |a| == 3000 && |b| == 2000 && |c| == 1000
    ensures var hs := Run([HeapPage(0, [])], [Put(a, 1), Put(b, 1), Put(c, 2)]);
      Items(schema, hs) == [Item(RowPointer(0, 0), RowOf(schema, a), true),
                            Item(RowPointer(0, 1), RowOf(schema, c), true),
                            Item(RowPointer(1, 0), RowOf(schema, b), true)]
  {
    PutFirst(a);
    PutSecond(a, b);
    PutThird(a, b, c);
    hide Apply;
    RunOfThree([HeapPage(0, [])], Put(a, 1), Put(b, 1), Put(c, 2));
    ItemsOfTwo(schema, HeapPage(0, [Slot(a, true), Slot(c, true)]), HeapPage(1, [Slot(b, true)]));
  }

  lemma PutFirst(a: seq<byte>)
    requires |a| == 3000
    ensures Apply([HeapPage(0, [])], Put(a, 1)) == [HeapPage(0, [Slot(a, true)])]
  {
    PutAt([HeapPage(0, [])], a, 1, 0);
    assert [] + [Slot(a, true)] == [Slot(a, true)];
  }

  lemma PutSecond(a: seq<byte>, b: seq<byte>)
    requires |a| == 3000 && |b| == 2000
    ensures Apply([HeapPage(0, [Slot(a, true)])], Put(b, 1)) == [HeapPage(0, [Slot(a, true)]), HeapPage(1, [Slot(b, true)])]
  {
    RoomOfOne(a, |b|);
    PutAt([HeapPage(0, [Slot(a, true)])], b, 1, 1);
  }

  lemma PutThird(a: seq<byte>, b: seq<byte>, c: seq<byte>)
    requires |a| == 3000 && |c| == 1000
    ensures Apply([HeapPage(0, [Slot(a, true)]), HeapPage(1, [Slot(b, true)])], Put(c, 2)) ==
      [HeapPage(0, [Slot(a, true), Slot(c, true)]), HeapPage(1, [Slot(b, true)])]
  {
    RoomOfOne(a, |c|);
    PutAt([HeapPage(0, [Slot(a, true)]), HeapPage(1, [Slot(b, true)])], c, 2, 0);
    assert [Slot(a, true)] + [Slot(c, true)] == [Slot(a, true), Slot(c, true)];
  }

  /** An insertion whose page is known. */
  lemma PutAt(hs: seq<HeapPage>, record: seq<byte>, newId: PageId, k: nat)
    requires k <= |hs| && (forall j :: 0 <= j < k ==> !HasRoom(hs[j].slots, |record|)) && (k < |hs| ==> HasRoom(hs[k].slots, |record|))
    ensures Apply(hs, Put(record, newId)) ==
      if k < |hs| then hs[k := HeapPage(hs[k].id, hs[k].slots + [Slot(record, true)])] else hs + [HeapPage(newId, [Slot(record, true)])]
  {
    FirstFitIs(hs, |record|, k);
  }

  lemma RunOfThree(hs: seq<HeapPage>, a: HeapOp, b: HeapOp, c: HeapOp)
    ensures Run(hs, [a, b, c]) == Apply(Apply(Apply(hs, a), b), c)
  {
    hide Apply;
    assert [a, b, c][1..] == [b, c] && [b, c][1..] == [c] && [c][1..] == [];
    assert Run(Apply(Apply(hs, a), b), [c]) == Apply(Apply(Apply(hs, a), b), c);
  }

  lemma RoomOfOne(a: seq<byte>, n: nat)
    ensures HasRoom([Slot(a, true)], n) <==> EntryAt(2) + |a| + n <= PAGE_SIZE
  {
    assert [Slot(a, true)][..0] == [];
    assert Used([Slot(a, true)]) == |a|;
  }

  lemma ItemsOfTwo(schema: Schema, a: HeapPage, b: HeapPage)
    ensures Items(schema, [a, b]) == PageItems(schema, a) + PageItems(schema, b)
  {
    assert [a, b][1..] == [b] && [b][1..] == [];
    assert Items(schema, [b]) == PageItems(schema, b) + [];
  }
}
