/** One slotted heap page: header and slot array grow from the front, records from the back. */
module HeapPages {
  import opened Storage
  import opened BigEndian

  const HEADER_SIZE := 12
  const SLOT_SIZE := 5
  const SLOT_LIVE := 1
  const SLOT_DELETED := 0

  /** The longest record that fits into an empty page. */
  const MAX_RECORD := PAGE_SIZE - HEADER_SIZE - SLOT_SIZE

  /** The bytes "HEAP". */
  const PAGE_MAGIC: seq<byte> := [0x48, 0x45, 0x41, 0x50]

  datatype Header = Header(next: PageId, slotCount: nat, freeStart: nat)

  datatype SlotEntry = SlotEntry(offset: nat, length: nat, flags: nat)

  /** What a slot stands for: a record that was inserted once, and whether it is live. */
  datatype Slot = Slot(record: seq<byte>, live: bool)

  // ---------- Layout ----------

  predicate StorableHeader(h: Header) {
    h.next < 0x1_0000_0000 && h.slotCount < 0x1_0000 && h.freeStart < 0x1_0000
  }

  predicate StorableEntry(e: SlotEntry) {
    e.offset < 0x1_0000 && e.length < 0x1_0000 && e.flags < 0x100
  }

  function HeaderBytes(h: Header): (bs: seq<byte>)
    ensures |bs| == HEADER_SIZE
  {
    PAGE_MAGIC + Pack(h.next, 4) + Pack(h.slotCount, 2) + Pack(h.freeStart, 2)
  }

  function EntryBytes(e: SlotEntry): (bs: seq<byte>)
    ensures |bs| == SLOT_SIZE
  {
    Pack(e.offset, 2) + Pack(e.length, 2) + Pack(e.flags, 1)
  }

  function EntryAt(i: nat): nat {
    HEADER_SIZE + i * SLOT_SIZE
  }

  /** The number of record bytes of a page. */
  function Used(ss: seq<Slot>): nat {
    if ss == [] then 0 else Used(ss[..|ss| - 1]) + |ss[|ss| - 1].record|
  }

  /** It is the sum of the lengths of the records. */
  lemma {:induction false} UsedSum(a: seq<Slot>, b: seq<Slot>, s: Slot)
    ensures Used([]) == 0 && Used([s]) == |s.record| && Used(a + b) == Used(a) + Used(b)
    decreases |b|
  {
    assert [s][..0] == [];
    if b == [] {
      assert a + b == a;
    } else {
      var n := |b| - 1;
      assert (a + b)[..|a + b| - 1] == a + b[..n];
      UsedSum(a, b[..n], s);
    }
  }

  /** Header, slot entries and records fit side by side. */
  predicate Roomy(ss: seq<Slot>) {
    EntryAt(|ss|) + Used(ss) <= PAGE_SIZE
  }

  function FreeStart(ss: seq<Slot>): nat
    requires Used(ss) <= PAGE_SIZE
  {
    PAGE_SIZE - Used(ss)
  }

  /** Where the record of slot `i` starts. */
  function RecordAt(ss: seq<Slot>, i: nat): nat
    requires i < |ss| && Used(ss[..i + 1]) <= PAGE_SIZE
  {
    PAGE_SIZE - Used(ss[..i + 1])
  }

  function EntryOf(ss: seq<Slot>, i: nat): SlotEntry
    requires i < |ss| && Used(ss[..i + 1]) <= PAGE_SIZE
  {
    SlotEntry(RecordAt(ss, i), |ss[i].record|, if ss[i].live then SLOT_LIVE else SLOT_DELETED)
  }

  lemma {:induction false} UsedPrefix(ss: seq<Slot>, i: nat)
    requires i <= |ss|
    ensures Used(ss[..i]) <= Used(ss)
    ensures i < |ss| ==> Used(ss[..i + 1]) == Used(ss[..i]) + |ss[i].record|
    decreases |ss|
  {
    if i < |ss| {
      assert ss[..i + 1][..i] == ss[..i];
      UsedPrefix(ss[..|ss| - 1], i);
      assert ss[..|ss| - 1][..i] == ss[..i];
    } else {
      assert ss[..i] == ss;
    }
  }

  /** Entry `i` of the slot array is `e`, and `e` leads to `record`. */
  ghost predicate EntryHolds(data: seq<byte>, i: nat, e: SlotEntry, record: seq<byte>)
    requires |data| == PAGE_SIZE && EntryAt(i) + SLOT_SIZE <= PAGE_SIZE && e.offset + e.length <= PAGE_SIZE
  {
    && data[EntryAt(i)..EntryAt(i) + SLOT_SIZE] == EntryBytes(e)
    && data[e.offset..e.offset + e.length] == record
  }

  ghost predicate SlotHolds(data: seq<byte>, ss: seq<Slot>, i: nat)
    requires |data| == PAGE_SIZE && i < |ss| && Roomy(ss)
  {
    UsedPrefix(ss, i);
    UsedPrefix(ss, i + 1);
    EntryHolds(data, i, EntryOf(ss, i), ss[i].record)
  }

  /** The bytes `data` hold the slots `ss`, and the page after this one is `next`. */
  ghost predicate Holds(data: seq<byte>, next: PageId, ss: seq<Slot>) {
    && |data| == PAGE_SIZE && Roomy(ss) && next < 0x1_0000_0000
    && data[..HEADER_SIZE] == HeaderBytes(Header(next, |ss|, FreeStart(ss)))
    && forall i :: 0 <= i < |ss| ==> SlotHolds(data, ss, i)
  }

  /** Header, slot entries and records never share a byte: entries end where the free space starts,
      and records lie behind it, each directly below the one before. */
  lemma Disjoint(data: seq<byte>, next: PageId, ss: seq<Slot>, i: nat)
    requires Holds(data, next, ss) && i < |ss|
    ensures Used(ss[..i + 1]) <= PAGE_SIZE && Used(ss[..i]) <= PAGE_SIZE
    ensures HEADER_SIZE <= EntryAt(i) && EntryAt(i) + SLOT_SIZE <= EntryAt(|ss|) <= FreeStart(ss) <= RecordAt(ss, i)
    ensures RecordAt(ss, i) + |ss[i].record| == PAGE_SIZE - Used(ss[..i])
  {
    UsedPrefix(ss, i);
    UsedPrefix(ss, i + 1);
  }

  lemma HeaderBytesAre(h: Header)
    requires StorableHeader(h)
    ensures HeaderBytes(h) == [0x48, 0x45, 0x41, 0x50,
                               h.next / 0x100_0000, h.next / 0x1_0000 % 0x100, h.next / 0x100 % 0x100, h.next % 0x100,
                               h.slotCount / 0x100, h.slotCount % 0x100, h.freeStart / 0x100, h.freeStart % 0x100]
  {
    TwoBytes(h.slotCount);
    TwoBytes(h.freeStart);
    FourBytes(h.next);
    hide Pack;
    Glued(PAGE_MAGIC, Pack(h.next, 4), Pack(h.slotCount, 2), Pack(h.freeStart, 2));
  }

  lemma Glued(a: seq<byte>, b: seq<byte>, c: seq<byte>, d: seq<byte>)
    requires |a| == 4 && |b| == 4 && |c| == 2 && |d| == 2
    ensures a + b + c + d == [a[0], a[1], a[2], a[3], b[0], b[1], b[2], b[3], c[0], c[1], d[0], d[1]]
  {
  }

  lemma OneByte(n: nat)
    requires n < 0x100
    ensures Pack(n, 1) == [n]
  {
    PackIs(n);
    hide Pack;
  }

  lemma TwoBytes(n: nat)
    requires n < 0x1_0000
    ensures Pack(n, 2) == [n / 0x100, n % 0x100]
  {
    PackIs(n);
    hide Pack;
  }

  lemma FourBytes(n: nat)
    requires n < 0x1_0000_0000
    ensures Pack(n, 4) == [n / 0x100_0000, n / 0x1_0000 % 0x100, n / 0x100 % 0x100, n % 0x100]
  {
    PackIs(n);
    hide Pack;
  }

  lemma EntryBytesAre(e: SlotEntry)
    requires StorableEntry(e)
    ensures EntryBytes(e) == [e.offset / 0x100, e.offset % 0x100, e.length / 0x100, e.length % 0x100, e.flags]
  {
    TwoBytes(e.offset);
    TwoBytes(e.length);
    OneByte(e.flags);
    hide Pack;
    ThreeFields(Pack(e.offset, 2), Pack(e.length, 2), Pack(e.flags, 1));
  }

  /** The bytes of a heap page: "HEAP", the next page, the number of slots and the start of the records; then five bytes for
      each slot, with the place and the length of its record and 1 if it is live; the records lie at the end of the page,
      the first one last. */
  lemma PageBytes(data: seq<byte>, next: PageId, ss: seq<Slot>)
    requires Holds(data, next, ss)
    ensures |data| == 4096 && next < 0x1_0000_0000 && 12 + 5 * |ss| + Used(ss) <= 4096
    ensures var n, free := |ss|, 4096 - Used(ss);
      data[..12] == [0x48, 0x45, 0x41, 0x50,
                     next / 0x100_0000, next / 0x1_0000 % 0x100, next / 0x100 % 0x100, next % 0x100,
                     n / 0x100, n % 0x100, free / 0x100, free % 0x100]
    ensures forall i :: 0 <= i < |ss| ==> SlotBytes(data, i, ss[i], Used(ss[..i]))
  {
    hide *;
    HeaderOnPage(data, next, ss);
    forall i | 0 <= i < |ss| ensures SlotBytes(data, i, ss[i], Used(ss[..i])) {
      HeldBytes(data, next, ss, i);
    }
  }

  lemma HeaderOnPage(data: seq<byte>, next: PageId, ss: seq<Slot>)
    requires Holds(data, next, ss)
    ensures |data| == 4096 && next < 0x1_0000_0000 && 12 + 5 * |ss| + Used(ss) <= 4096
    ensures var n, free := |ss|, 4096 - Used(ss);
      data[..12] == [0x48, 0x45, 0x41, 0x50,
                     next / 0x100_0000, next / 0x1_0000 % 0x100, next / 0x100 % 0x100, next % 0x100,
                     n / 0x100, n % 0x100, free / 0x100, free % 0x100]
  {
    hide HeaderBytes, SlotHolds, Used;
    HeaderBytesAre(Header(next, |ss|, FreeStart(ss)));
  }

  lemma HeldBytes(data: seq<byte>, next: PageId, ss: seq<Slot>, i: nat)
    requires Holds(data, next, ss) && i < |ss|
    ensures |data| == 4096 && SlotBytes(data, i, ss[i], Used(ss[..i]))
  {
    hide HeaderBytes, EntryBytes, Used;
    Disjoint(data, next, ss, i);
    UsedPrefix(ss, i);
    assert SlotHolds(data, ss, i);
    EntryBytesAre(EntryOf(ss, i));
  }

  /** Slot `i` of a page whose earlier slots have `before` record bytes. */
  ghost predicate SlotBytes(data: seq<byte>, i: nat, s: Slot, before: nat)
    requires |data| == 4096
  {
    var n, o := |s.record|, 4096 - before - |s.record|;
    && 17 + 5 * i <= o
    && data[12 + 5 * i..17 + 5 * i] == [o / 0x100, o % 0x100, n / 0x100, n % 0x100, if s.live then 1 else 0]
    && data[o..o + n] == s.record
  }

  // ---------- Bytes written and read back ----------

  function Spliced(data: seq<byte>, at: nat, bs: seq<byte>): (r: seq<byte>)
    requires at + |bs| <= |data|
    ensures |r| == |data|
  {
    data[..at] + bs + data[at + |bs|..]
  }

  lemma SplicedAt(data: seq<byte>, at: nat, bs: seq<byte>)
    requires at + |bs| <= |data|
    ensures Spliced(data, at, bs)[at..at + |bs|] == bs
  {
  }

  lemma SplicedElsewhere(data: seq<byte>, at: nat, bs: seq<byte>, from: nat, to: nat)
    requires at + |bs| <= |data| && from <= to <= |data| && (to <= at || at + |bs| <= from)
    ensures Spliced(data, at, bs)[from..to] == data[from..to]
  {
  }

  /** Slice assignment. */
  method Put(page: array<byte>, at: nat, bs: seq<byte>)
    requires at + |bs| <= page.Length
    modifies page
    ensures page[..] == Spliced(old(page[..]), at, bs)
  {
    forall i | 0 <= i < |bs| {
      page[at + i] := bs[i];
    }
  }

  function ParseHeader(bs: seq<byte>): Option<Header>
    requires |bs| == HEADER_SIZE
  {
    if bs[..4] != PAGE_MAGIC then None
    else Some(Header(Unpack(bs[4..8]), Unpack(bs[8..10]), Unpack(bs[10..12])))
  }

  function ParseEntry(bs: seq<byte>): SlotEntry
    requires |bs| == SLOT_SIZE
  {
    SlotEntry(Unpack(bs[..2]), Unpack(bs[2..4]), Unpack(bs[4..5]))
  }

  lemma HeaderRoundTrip(h: Header)
    requires StorableHeader(h)
    ensures ParseHeader(HeaderBytes(h)) == Some(h)
  {
    Widths();
    PackUnpack(h.next, 4);
    PackUnpack(h.slotCount, 2);
    PackUnpack(h.freeStart, 2);
    hide Pack, Unpack;
    FourFields(PAGE_MAGIC, Pack(h.next, 4), Pack(h.slotCount, 2), Pack(h.freeStart, 2));
  }

  lemma FourFields(a: seq<byte>, b: seq<byte>, c: seq<byte>, d: seq<byte>)
    requires |a| == 4 && |b| == 4 && |c| == 2 && |d| == 2
    ensures var bs := a + b + c + d; |bs| == 12 && bs[..4] == a && bs[4..8] == b && bs[8..10] == c && bs[10..12] == d
  {
    SecondField(a, b + c + d);
    SecondField(b, c + d);
    SecondField(c, d);
    assert a + b + c + d == a + (b + c + d) && b + c + d == b + (c + d);
  }

  lemma SecondField(a: seq<byte>, b: seq<byte>)
    ensures (a + b)[..|a|] == a && (a + b)[|a|..] == b
  {
  }

  lemma EntryRoundTrip(e: SlotEntry)
    requires StorableEntry(e)
    ensures ParseEntry(EntryBytes(e)) == e
  {
    Widths();
    PackUnpack(e.offset, 2);
    PackUnpack(e.length, 2);
    PackUnpack(e.flags, 1);
    hide Pack, Unpack;
    ThreeFields(Pack(e.offset, 2), Pack(e.length, 2), Pack(e.flags, 1));
  }

  lemma ThreeFields(a: seq<byte>, b: seq<byte>, c: seq<byte>)
    requires |a| == 2 && |b| == 2 && |c| == 1
    ensures var bs := a + b + c; |bs| == 5 && bs[..2] == a && bs[2..4] == b && bs[4..5] == c
  {
    SecondField(a, b + c);
    SecondField(b, c);
    assert a + b + c == a + (b + c);
  }

  // ---------- Operations on a page buffer ----------

  method WriteHeader(page: array<byte>, h: Header)
    requires page.Length == PAGE_SIZE && StorableHeader(h)
    modifies page
    ensures page[..] == Spliced(old(page[..]), 0, HeaderBytes(h))
  {
    Put(page, 0, HeaderBytes(h));
  }

  /** The header, or nothing when the page is not a heap page. */
  method ReadHeader(page: array<byte>) returns (h: Option<Header>)
    requires page.Length == PAGE_SIZE
    ensures h == ParseHeader(page[..HEADER_SIZE])
  {
    h := ParseHeader(page[..HEADER_SIZE]);
  }

  method WriteSlot(page: array<byte>, slotId: nat, e: SlotEntry)
    requires page.Length == PAGE_SIZE && EntryAt(slotId) + SLOT_SIZE <= PAGE_SIZE && StorableEntry(e)
    modifies page
    ensures page[..] == Spliced(old(page[..]), EntryAt(slotId), EntryBytes(e))
  {
    Put(page, EntryAt(slotId), EntryBytes(e));
  }

  method ReadSlot(page: array<byte>, slotId: nat) returns (e: SlotEntry)
    requires page.Length == PAGE_SIZE && EntryAt(slotId) + SLOT_SIZE <= PAGE_SIZE
    ensures e == ParseEntry(page[EntryAt(slotId)..EntryAt(slotId) + SLOT_SIZE])
  {
    e := ParseEntry(page[EntryAt(slotId)..EntryAt(slotId) + SLOT_SIZE]);
  }

  /** Turns any page into an empty heap page without a successor. */
  method InitHeapPage(page: array<byte>)
    requires page.Length == PAGE_SIZE
    modifies page
    ensures Holds(page[..], NO_PAGE, [])
    ensures page[..12] == [0x48, 0x45, 0x41, 0x50, 0xFF, 0xFF, 0xFF, 0xFF, 0, 0, 0x10, 0]
  {
    forall i | 0 <= i < PAGE_SIZE {
      page[i] := 0;
    }
    WriteHeader(page, Header(NO_PAGE, 0, PAGE_SIZE));
    assert HeaderBytes(Header(NO_PAGE, 0, PAGE_SIZE)) == page[..HEADER_SIZE];
    HeaderBytesAre(Header(NO_PAGE, 0, PAGE_SIZE));
  }

  /** The header of a heap page says how many slots there are and where the free space ends. */
  lemma HeaderHeld(data: seq<byte>, next: PageId, ss: seq<Slot>)
    requires Holds(data, next, ss)
    ensures ParseHeader(data[..HEADER_SIZE]) == Some(Header(next, |ss|, FreeStart(ss)))
  {
    HeaderRoundTrip(Header(next, |ss|, FreeStart(ss)));
  }

  /** Slot `i` leads to its record. */
  lemma SlotHeld(data: seq<byte>, next: PageId, ss: seq<Slot>, i: nat)
    requires Holds(data, next, ss) && i < |ss|
    ensures EntryAt(i) + SLOT_SIZE <= PAGE_SIZE
    ensures var e := ParseEntry(data[EntryAt(i)..EntryAt(i) + SLOT_SIZE]);
      && Used(ss[..i + 1]) <= PAGE_SIZE && e == EntryOf(ss, i)
      && e.offset + e.length <= PAGE_SIZE && data[e.offset..e.offset + e.length] == ss[i].record
  {
    Disjoint(data, next, ss, i);
    assert SlotHolds(data, ss, i);
    EntryRoundTrip(EntryOf(ss, i));
  }

  /** There is room for a record of `n` bytes and its slot entry. */
  predicate HasRoom(ss: seq<Slot>, n: nat) {
    EntryAt(|ss| + 1) + Used(ss) + n <= PAGE_SIZE
  }

  /** Tries to append a record; refuses exactly when there is no room. */
  method TryInsertIntoPage(page: array<byte>, record: seq<byte>, ghost next: PageId, ghost ss: seq<Slot>)
    returns (slotId: Option<nat>)
    requires Holds(page[..], next, ss)
    modifies page
    ensures slotId == if HasRoom(ss, |record|) then Some(|ss|) else None
    ensures slotId.None? <==> 12 + 5 * (|ss| + 1) + Used(ss) + |record| > 4096
    ensures slotId.None? ==> page[..] == old(page[..])
    ensures slotId.Some? ==> Holds(page[..], next, ss + [Slot(record, true)])
  {
    hide Holds, HeaderBytes, EntryBytes;
    HeaderHeld(page[..], next, ss);
    Sizes(page[..], next, ss);
    var h := ReadHeader(page);
    var header := h.value;
    var nextSlotEnd := EntryAt(header.slotCount + 1);
    var recordStart := header.freeStart - |record|;
    if recordStart < nextSlotEnd {
      return None;
    }
    ghost var d0 := page[..];
    var id := header.slotCount;
    Put(page, recordStart, record);
    WriteSlot(page, id, SlotEntry(recordStart, |record|, SLOT_LIVE));
    WriteHeader(page, Header(header.next, id + 1, recordStart));
    InsertHolds(d0, next, ss, record);
    return Some(id);
  }

  lemma Sizes(data: seq<byte>, next: PageId, ss: seq<Slot>)
    requires Holds(data, next, ss)
    ensures |data| == PAGE_SIZE && Roomy(ss) && next < 0x1_0000_0000
  {
  }

  /** The page after the three writes of an insertion. */
  function AfterInsert(data: seq<byte>, next: PageId, ss: seq<Slot>, record: seq<byte>): seq<byte>
    requires |data| == PAGE_SIZE && HasRoom(ss, |record|)
  {
    var at := FreeStart(ss) - |record|;
    Spliced(Spliced(Spliced(data, at, record), EntryAt(|ss|), EntryBytes(SlotEntry(at, |record|, SLOT_LIVE))),
            0, HeaderBytes(Header(next, |ss| + 1, at)))
  }

  /** A write that touches neither an entry nor its record. */
  lemma EntryKept(data: seq<byte>, i: nat, e: SlotEntry, record: seq<byte>, at: nat, bs: seq<byte>)
    requires |data| == PAGE_SIZE && EntryAt(i) + SLOT_SIZE <= PAGE_SIZE && e.offset + e.length <= PAGE_SIZE
    requires EntryHolds(data, i, e, record) && at + |bs| <= PAGE_SIZE
    requires EntryAt(i) + SLOT_SIZE <= at || at + |bs| <= EntryAt(i)
    requires e.offset + e.length <= at || at + |bs| <= e.offset
    ensures EntryHolds(Spliced(data, at, bs), i, e, record)
  {
    SplicedElsewhere(data, at, bs, EntryAt(i), EntryAt(i) + SLOT_SIZE);
    SplicedElsewhere(data, at, bs, e.offset, e.offset + e.length);
  }

  lemma InsertHolds(data: seq<byte>, next: PageId, ss: seq<Slot>, record: seq<byte>)
    requires Holds(data, next, ss) && HasRoom(ss, |record|)
    ensures Holds(AfterInsert(data, next, ss, record), next, ss + [Slot(record, true)])
  {
    var ss', n := ss + [Slot(record, true)], |ss|;
    assert ss'[..n] == ss && ss'[..n + 1] == ss';
    var d := AfterInsert(data, next, ss, record);
    forall i | 0 <= i < |ss'| ensures SlotHolds(d, ss', i) {
      if i < n {
        OldSlotKept(data, next, ss, record, i);
      } else {
        NewSlotHeld(data, next, ss, record);
      }
    }
    hide SlotHolds, HeaderBytes, EntryBytes, Used;
    var at := FreeStart(ss) - |record|;
    SplicedAt(Spliced(Spliced(data, at, record), EntryAt(n), EntryBytes(SlotEntry(at, |record|, SLOT_LIVE))), 0, HeaderBytes(Header(next, n + 1, at)));
  }

  lemma NewSlotHeld(data: seq<byte>, next: PageId, ss: seq<Slot>, record: seq<byte>)
    requires |data| == PAGE_SIZE && HasRoom(ss, |record|) && Roomy(ss + [Slot(record, true)])
    ensures SlotHolds(AfterInsert(data, next, ss, record), ss + [Slot(record, true)], |ss|)
  {
    var ss', n, at := ss + [Slot(record, true)], |ss|, FreeStart(ss) - |record|;
    assert ss'[..n] == ss && ss'[..n + 1] == ss';
    var e := SlotEntry(at, |record|, SLOT_LIVE);
    assert EntryOf(ss', n) == e by { hide HeaderBytes, EntryBytes, Spliced, SlotHolds; }
    var entry, header := EntryBytes(e), HeaderBytes(Header(next, n + 1, at));
    hide HeaderBytes, EntryBytes, Used, Spliced;
    EntryWritten(data, n, e, record);
    EntryKept(Spliced(Spliced(data, at, record), EntryAt(n), entry), n, e, record, 0, header);
  }

  /** A record and then the slot entry that leads to it. */
  lemma EntryWritten(data: seq<byte>, n: nat, e: SlotEntry, record: seq<byte>)
    requires |data| == PAGE_SIZE && e.length == |record| && EntryAt(n) + SLOT_SIZE <= e.offset && e.offset + e.length <= PAGE_SIZE
    ensures EntryHolds(Spliced(Spliced(data, e.offset, record), EntryAt(n), EntryBytes(e)), n, e, record)
  {
    hide Spliced, EntryBytes;
    var d1 := Spliced(data, e.offset, record);
    SplicedAt(data, e.offset, record);
    SplicedAt(d1, EntryAt(n), EntryBytes(e));
    SplicedElsewhere(d1, EntryAt(n), EntryBytes(e), e.offset, e.offset + |record|);
  }

  /** Insertion leaves the bytes of earlier slots alone. */
  lemma OldSlotKept(data: seq<byte>, next: PageId, ss: seq<Slot>, record: seq<byte>, i: nat)
    requires Holds(data, next, ss) && HasRoom(ss, |record|) && i < |ss|
    requires Roomy(ss + [Slot(record, true)])
    ensures SlotHolds(AfterInsert(data, next, ss, record), ss + [Slot(record, true)], i)
  {
    Disjoint(data, next, ss, i);
    assert SlotHolds(data, ss, i);
    OldEntryKept(data, next, ss, record, i, EntryOf(ss, i), ss[i].record);
    hide Holds, HeaderBytes, EntryBytes, EntryHolds, AfterInsert, Used;
    assert (ss + [Slot(record, true)])[..i + 1] == ss[..i + 1];
  }

  lemma OldEntryKept(data: seq<byte>, next: PageId, ss: seq<Slot>, record: seq<byte>, i: nat, e: SlotEntry, r: seq<byte>)
    requires |data| == PAGE_SIZE && HasRoom(ss, |record|) && i < |ss|
    requires FreeStart(ss) <= e.offset && e.offset + e.length <= PAGE_SIZE && EntryHolds(data, i, e, r)
    ensures EntryHolds(AfterInsert(data, next, ss, record), i, e, r)
  {
    var n, at := |ss|, FreeStart(ss) - |record|;
    var entry, header := EntryBytes(SlotEntry(at, |record|, SLOT_LIVE)), HeaderBytes(Header(next, n + 1, at));
    hide HeaderBytes, EntryBytes, EntryHolds, Used, Spliced;
    EntryKeptThrice(data, i, e, r, at, record, EntryAt(n), entry, 0, header);
  }

  lemma EntryKeptThrice(data: seq<byte>, i: nat, e: SlotEntry, record: seq<byte>,
                        at1: nat, bs1: seq<byte>, at2: nat, bs2: seq<byte>, at3: nat, bs3: seq<byte>)
    requires |data| == PAGE_SIZE && EntryAt(i) + SLOT_SIZE <= PAGE_SIZE && e.offset + e.length <= PAGE_SIZE
    requires EntryHolds(data, i, e, record)
    requires at1 + |bs1| <= PAGE_SIZE && at2 + |bs2| <= PAGE_SIZE && at3 + |bs3| <= EntryAt(i) && at3 + |bs3| <= e.offset
    requires EntryAt(i) + SLOT_SIZE <= at1 && at1 + |bs1| <= e.offset
    requires EntryAt(i) + SLOT_SIZE <= at2 && at2 + |bs2| <= e.offset
    ensures EntryHolds(Spliced(Spliced(Spliced(data, at1, bs1), at2, bs2), at3, bs3), i, e, record)
  {
    hide EntryHolds, Spliced, EntryAt;
    EntryKept(data, i, e, record, at1, bs1);
    EntryKept(Spliced(data, at1, bs1), i, e, record, at2, bs2);
    EntryKept(Spliced(Spliced(data, at1, bs1), at2, bs2), i, e, record, at3, bs3);
  }

  /** Linking a page to its successor changes nothing else. */
  lemma LinkHolds(data: seq<byte>, next: PageId, ss: seq<Slot>, next': PageId)
    requires Holds(data, next, ss) && next' < 0x1_0000_0000
    ensures Holds(Spliced(data, 0, HeaderBytes(Header(next', |ss|, FreeStart(ss)))), next', ss)
  {
    var bs := HeaderBytes(Header(next', |ss|, FreeStart(ss)));
    var d := Spliced(data, 0, bs);
    forall i | 0 <= i < |ss| ensures SlotHolds(d, ss, i) {
      Disjoint(data, next, ss, i);
      assert SlotHolds(data, ss, i);
      SplicedElsewhere(data, 0, bs, EntryAt(i), EntryAt(i) + SLOT_SIZE);
      SplicedElsewhere(data, 0, bs, RecordAt(ss, i), RecordAt(ss, i) + |ss[i].record|);
    }
    SplicedAt(data, 0, bs);
  }

  /** Marking a slot live or deleted changes no record and no other slot. */
  lemma FlagHolds(data: seq<byte>, next: PageId, ss: seq<Slot>, k: nat, live: bool)
    requires Holds(data, next, ss) && k < |ss|
    ensures EntryAt(k) + SLOT_SIZE <= PAGE_SIZE && Used(ss[..k + 1]) <= PAGE_SIZE
    ensures var e := EntryOf(ss, k).(flags := if live then SLOT_LIVE else SLOT_DELETED);
      Holds(Spliced(data, EntryAt(k), EntryBytes(e)), next, ss[k := Slot(ss[k].record, live)])
  {
    hide SlotHolds, HeaderBytes, EntryBytes, Used, Spliced;
    Disjoint(data, next, ss, k);
    var ss' := ss[k := Slot(ss[k].record, live)];
    var bs := EntryBytes(EntryOf(ss, k).(flags := if live then SLOT_LIVE else SLOT_DELETED));
    var d := Spliced(data, EntryAt(k), bs);
    UsedSame(ss, ss');
    SplicedElsewhere(data, EntryAt(k), bs, 0, HEADER_SIZE);
    forall i | 0 <= i < |ss'| ensures SlotHolds(d, ss', i) {
      FlaggedSlot(data, next, ss, k, live, i);
    }
  }

  lemma FlaggedSlot(data: seq<byte>, next: PageId, ss: seq<Slot>, k: nat, live: bool, i: nat)
    requires Holds(data, next, ss) && k < |ss| && i < |ss|
    requires EntryAt(k) + SLOT_SIZE <= PAGE_SIZE && Used(ss[..k + 1]) <= PAGE_SIZE
    requires Roomy(ss[k := Slot(ss[k].record, live)])
    ensures var e := EntryOf(ss, k).(flags := if live then SLOT_LIVE else SLOT_DELETED);
      SlotHolds(Spliced(data, EntryAt(k), EntryBytes(e)), ss[k := Slot(ss[k].record, live)], i)
  {
    Disjoint(data, next, ss, i);
    Disjoint(data, next, ss, k);
    assert SlotHolds(data, ss, i) && SlotHolds(data, ss, k);
    hide Holds, HeaderBytes, EntryBytes, EntryHolds, Used, Spliced, EntryAt;
    FlaggedEntry(data, ss, k, live, i);
    SameEntry(ss, k, live, i);
  }

  lemma SameEntry(ss: seq<Slot>, k: nat, live: bool, i: nat)
    requires k < |ss| && i < |ss| && Used(ss[..i + 1]) <= PAGE_SIZE && Used(ss[..k + 1]) <= PAGE_SIZE
    ensures var ss' := ss[k := Slot(ss[k].record, live)];
      && Used(ss'[..i + 1]) == Used(ss[..i + 1]) && ss'[i].record == ss[i].record
      && EntryOf(ss', i) == if i == k then EntryOf(ss, k).(flags := if live then SLOT_LIVE else SLOT_DELETED) else EntryOf(ss, i)
  {
    UsedSame(ss[..i + 1], ss[k := Slot(ss[k].record, live)][..i + 1]);
  }

  lemma FlaggedEntry(data: seq<byte>, ss: seq<Slot>, k: nat, live: bool, i: nat)
    requires |data| == PAGE_SIZE && Roomy(ss) && k < |ss| && i < |ss|
    requires SlotHolds(data, ss, i) && SlotHolds(data, ss, k)
    requires Used(ss[..i + 1]) <= Used(ss) && Used(ss[..k + 1]) <= Used(ss)
    requires |ss[i].record| <= Used(ss[..i + 1]) && |ss[k].record| <= Used(ss[..k + 1])
    ensures var e := EntryOf(ss, k).(flags := if live then SLOT_LIVE else SLOT_DELETED);
      EntryHolds(Spliced(data, EntryAt(k), EntryBytes(e)), i, if i == k then e else EntryOf(ss, i), ss[i].record)
  {
    var e := EntryOf(ss, k).(flags := if live then SLOT_LIVE else SLOT_DELETED);
    var bs := EntryBytes(e);
    hide Holds, HeaderBytes, EntryBytes, EntryHolds, Spliced, Used;
    if i == k {
      Reflagged(data, k, EntryOf(ss, k), ss[k].record, e.flags);
    } else {
      EntryKept(data, i, EntryOf(ss, i), ss[i].record, EntryAt(k), bs);
    }
  }

  lemma Reflagged(data: seq<byte>, k: nat, e: SlotEntry, record: seq<byte>, flags: nat)
    requires |data| == PAGE_SIZE && EntryAt(k) + SLOT_SIZE <= e.offset && e.offset + e.length <= PAGE_SIZE && StorableEntry(e)
    requires EntryHolds(data, k, e, record) && flags < 0x100
    ensures EntryHolds(Spliced(data, EntryAt(k), EntryBytes(e.(flags := flags))), k, e.(flags := flags), record)
  {
    hide EntryBytes, Spliced;
    var bs := EntryBytes(e.(flags := flags));
    SplicedAt(data, EntryAt(k), bs);
    SplicedElsewhere(data, EntryAt(k), bs, e.offset, e.offset + e.length);
  }

  lemma {:induction false} UsedSame(ss: seq<Slot>, ss': seq<Slot>)
    requires |ss'| == |ss| && forall i :: 0 <= i < |ss| ==> ss'[i].record == ss[i].record
    ensures Used(ss') == Used(ss)
    decreases |ss|
  {
    if ss != [] {
      UsedSame(ss[..|ss| - 1], ss'[..|ss| - 1]);
    }
  }
}
