/** The write-back page cache between the storage structures and the pager. */
module BufferPools {
  import opened Storage
  import opened Lru

  /** A page in memory; whoever fetched it may change its data in place. */
  class Page {
    const id: PageId
    var data: PageData

    constructor (id: PageId, data: PageData)
      ensures this.id == id && this.data == data
    {
      this.id, this.data := id, data;
    }
  }

  /** A cached page and its dirty bit. */
  datatype Frame = Frame(page: Page, dirty: bool)

  function FrameIds(frames: seq<Frame>): (ids: seq<PageId>)
    ensures |ids| == |frames| && forall i :: 0 <= i < |ids| ==> ids[i] == frames[i].page.id
  {
    seq(|frames|, i requires 0 <= i < |frames| => frames[i].page.id)
  }

  /** The position of a page in the cache, or the number of frames. */
  function Position(frames: seq<Frame>, id: PageId): (i: nat)
    ensures i <= |frames| && (i < |frames| ==> frames[i].page.id == id)
    ensures forall j :: 0 <= j < i ==> frames[j].page.id != id
  {
    if frames == [] || frames[0].page.id == id then 0 else 1 + Position(frames[1..], id)
  }

  /** The cached page objects. */
  ghost function PagesOf(frames: seq<Frame>): set<object> {
    set i | 0 <= i < |frames| :: frames[i].page
  }

  /** The data of the cached pages. */
  ghost function DataOf(frames: seq<Frame>): (data: seq<PageData>)
    reads PagesOf(frames)
    ensures |data| == |frames| && forall i :: 0 <= i < |data| ==> data[i] == frames[i].page.data
  {
    if frames == [] then [] else [frames[0].page.data] + DataOf(frames[1..])
  }

  // ---------- Frames, disk and contents as values ----------

  /** Cached pages are current, clean ones agree with the disk, and pages that are not cached are current on disk. */
  ghost predicate Sound(frames: seq<Frame>, data: seq<PageData>, disk: seq<PageData>, contents: seq<PageData>, changed: set<PageId>) {
    && |data| == |frames| && |disk| == |contents|
    && (forall i :: 0 <= i < |frames| ==> FrameSound(frames[i], data[i], disk, contents, changed))
    && (forall x :: 0 <= x < |contents| && x !in FrameIds(frames) && x !in changed ==> disk[x] == contents[x])
  }

  ghost predicate FrameSound(f: Frame, d: PageData, disk: seq<PageData>, contents: seq<PageData>, changed: set<PageId>)
    requires |disk| == |contents|
  {
    f.page.id < |contents| &&
    (f.page.id !in changed ==> d == contents[f.page.id] && (!f.dirty ==> disk[f.page.id] == d))
  }

  lemma SoundSizes(frames: seq<Frame>, data: seq<PageData>, disk: seq<PageData>, contents: seq<PageData>, changed: set<PageId>)
    requires Sound(frames, data, disk, contents, changed)
    ensures |disk| == |contents| && forall i :: 0 <= i < |frames| ==> frames[i].page.id < |contents|
    ensures |contents| !in FrameIds(frames)
  {
    forall i | 0 <= i < |frames| ensures frames[i].page.id < |contents| {
      assert FrameSound(frames[i], data[i], disk, contents, changed);
    }
  }

  lemma CachedIsCurrent(frames: seq<Frame>, data: seq<PageData>, disk: seq<PageData>, contents: seq<PageData>, i: nat)
    requires Sound(frames, data, disk, contents, {}) && i < |frames|
    ensures frames[i].page.id < |contents| && data[i] == contents[frames[i].page.id]
  {
    assert FrameSound(frames[i], data[i], disk, contents, {});
  }

  lemma UncachedIsCurrent(frames: seq<Frame>, data: seq<PageData>, disk: seq<PageData>, contents: seq<PageData>, changed: set<PageId>, x: PageId)
    requires Sound(frames, data, disk, contents, changed) && x < |contents| && x !in FrameIds(frames) && x !in changed
    ensures x < |disk| && disk[x] == contents[x]
  {
  }

  /** No update is lost when the oldest frame is pushed out. */
  lemma SoundEvict(frames: seq<Frame>, data: seq<PageData>, disk: seq<PageData>, contents: seq<PageData>, changed: set<PageId>)
    requires Sound(frames, data, disk, contents, changed) && frames != [] && NoRepeats(FrameIds(frames))
    ensures var f := frames[0];
      f.page.id < |disk| && Sound(frames[1..], data[1..], if f.dirty then disk[f.page.id := data[0]] else disk, contents, changed)
  {
    var f := frames[0];
    assert FrameSound(f, data[0], disk, contents, changed);
    var disk' := if f.dirty then disk[f.page.id := data[0]] else disk;
    assert FrameIds(frames) == [f.page.id] + FrameIds(frames[1..]);
    forall i | 0 <= i < |frames[1..]| ensures FrameSound(frames[1..][i], data[1..][i], disk', contents, changed) {
      assert FrameSound(frames[i + 1], data[i + 1], disk, contents, changed);
      assert FrameIds(frames)[i + 1] != FrameIds(frames)[0];
    }
  }

  lemma SoundAppend(frames: seq<Frame>, data: seq<PageData>, disk: seq<PageData>, contents: seq<PageData>, changed: set<PageId>,
                    f: Frame, d: PageData)
    requires Sound(frames, data, disk, contents, changed) && FrameSound(f, d, disk, contents, changed)
    ensures Sound(frames + [f], data + [d], disk, contents, changed)
  {
    AppendIds(frames, f);
    hide FrameSound;
  }

  lemma NewFrameSound(frames: seq<Frame>, data: seq<PageData>, disk: seq<PageData>, contents: seq<PageData>, changed: set<PageId>,
                      f: Frame, d: PageData)
    requires Sound(frames, data, disk, contents, changed) && f.page.id !in FrameIds(frames) && f.page.id < |contents|
    requires f.page.id !in changed ==> d == contents[f.page.id]
    ensures |disk| == |contents| && FrameSound(f, d, disk, contents, changed)
  {
  }

  lemma SoundMove(frames: seq<Frame>, data: seq<PageData>, disk: seq<PageData>, contents: seq<PageData>, changed: set<PageId>,
                  i: nat, f: Frame, d: PageData)
    requires Sound(frames, data, disk, contents, changed) && i < |frames| && f.page.id == frames[i].page.id
    requires (f == frames[i] && d == data[i]) || f.page.id in changed
    ensures Sound(frames[..i] + frames[i + 1..] + [f], data[..i] + data[i + 1..] + [d], disk, contents, changed)
  {
    var frames', data' := frames[..i] + frames[i + 1..] + [f], data[..i] + data[i + 1..] + [d];
    forall k | 0 <= k < |frames'| ensures FrameSound(frames'[k], data'[k], disk, contents, changed) {
      assert FrameSound(frames[i], data[i], disk, contents, changed);
      assert FrameSound(frames[if k < i then k else if k < |frames| - 1 then k + 1 else i], data[if k < i then k else if k < |frames| - 1 then k + 1 else i], disk, contents, changed);
    }
    forall x | x in FrameIds(frames) ensures x in FrameIds(frames') {
      var k :| 0 <= k < |frames| && FrameIds(frames)[k] == x;
      assert FrameIds(frames')[if k < i then k else if k == i then |frames| - 1 else k - 1] == x;
    }
  }

  /** The changed page, now the last frame and dirty, becomes the current one. */
  lemma SoundStore(frames: seq<Frame>, data: seq<PageData>, disk: seq<PageData>, contents: seq<PageData>, id: PageId,
                   trace: seq<Access>, capacity: nat)
    requires Sound(frames, data, disk, contents, {id}) && frames != [] && frames[|frames| - 1].page.id == id && frames[|frames| - 1].dirty
    requires FrameIds(frames) == Held(trace, capacity) && id < |contents|
    ensures Sound(frames, data, disk, contents[id := data[|frames| - 1]], {})
  {
    HeldBound(trace, capacity);
    var n := |frames| - 1;
    var contents' := contents[id := data[n]];
    assert FrameIds(frames)[n] == id;
    forall k | 0 <= k < |frames| ensures FrameSound(frames[k], data[k], disk, contents', {}) {
      assert FrameSound(frames[k], data[k], disk, contents, {id});
      if k < n {
        assert FrameIds(frames)[k] != FrameIds(frames)[n];
      }
    }
  }

  /** Only frames of page `id` may show other data: the pool is in order except for that page. */
  lemma ChangedInPlace(frames: seq<Frame>, data: seq<PageData>, data': seq<PageData>, disk: seq<PageData>, contents: seq<PageData>, id: PageId)
    requires Sound(frames, data, disk, contents, {}) && |data'| == |data|
    requires forall i :: 0 <= i < |data| && frames[i].page.id != id ==> data'[i] == data[i]
    ensures Sound(frames, data', disk, contents, {id})
  {
    forall i | 0 <= i < |frames| ensures FrameSound(frames[i], data'[i], disk, contents, {id}) {
      assert FrameSound(frames[i], data[i], disk, contents, {});
    }
  }

  lemma SoundGrow(frames: seq<Frame>, data: seq<PageData>, disk: seq<PageData>, contents: seq<PageData>)
    requires Sound(frames, data, disk, contents, {})
    ensures Sound(frames, data, disk + [ZeroPage()], contents + [ZeroPage()], {})
  {
    forall i | 0 <= i < |frames| ensures FrameSound(frames[i], data[i], disk + [ZeroPage()], contents + [ZeroPage()], {}) {
      assert FrameSound(frames[i], data[i], disk, contents, {});
    }
  }

  lemma SoundFlush(frames: seq<Frame>, data: seq<PageData>, disk: seq<PageData>, contents: seq<PageData>, i: nat)
    requires Sound(frames, data, disk, contents, {}) && i < |frames| && NoRepeats(FrameIds(frames))
    ensures var f := frames[i];
      f.page.id < |disk| && Sound(frames[i := Frame(f.page, false)], data, disk[f.page.id := data[i]], contents, {})
  {
    var f := frames[i];
    assert FrameSound(f, data[i], disk, contents, {});
    var frames', disk' := frames[i := Frame(f.page, false)], disk[f.page.id := data[i]];
    forall k | 0 <= k < |frames'| ensures FrameSound(frames'[k], data[k], disk', contents, {}) {
      assert FrameSound(frames[k], data[k], disk, contents, {});
      if k != i {
        assert FrameIds(frames)[k] != FrameIds(frames)[i];
      }
    }
    assert FrameIds(frames') == FrameIds(frames);
  }

  lemma AllClean(frames: seq<Frame>, data: seq<PageData>, disk: seq<PageData>, contents: seq<PageData>)
    requires Sound(frames, data, disk, contents, {}) && CleanUpTo(frames, |frames|)
    ensures disk == contents && forall i :: 0 <= i < |frames| ==> !frames[i].dirty
  {
    forall x | 0 <= x < |contents| ensures disk[x] == contents[x] {
      if x in FrameIds(frames) {
        var i :| 0 <= i < |frames| && FrameIds(frames)[i] == x;
        assert FrameSound(frames[i], data[i], disk, contents, {});
      }
    }
  }

  class BufferPool {
    const pager: Pager
    const capacity: nat
    /** Cached pages, the least recently used one first. */
    var frames: seq<Frame>
    var hits: nat
    var misses: nat
    /** What an uncached pager would hold after the same calls. */
    ghost var contents: seq<PageData>
    ghost var trace: seq<Access>

    /** In order, except for pages that their holder has changed in place and not yet written. */
    ghost predicate ValidExcept(changed: set<PageId>)
      reads this, pager, PagesOf(frames)
    {
      && 0 < capacity && Sound(frames, DataOf(frames), pager.pages, contents, changed)
      && FrameIds(frames) == Held(trace, capacity)
      && hits == Hits(trace, capacity) && hits + misses == Fetches(trace)
    }

    ghost predicate Valid()
      reads this, pager, PagesOf(frames)
    {
      ValidExcept({})
    }

    constructor (pager: Pager, capacity: nat)
      requires capacity > 0
      ensures Valid() && this.pager == pager && this.capacity == capacity && trace == [] && contents == pager.pages
    {
      this.pager, this.capacity := pager, capacity;
      frames, hits, misses := [], 0, 0;
      contents, trace := pager.pages, [];
    }

    /** Makes room for one more frame. A dirty page that is pushed out is written to disk. */
    method EnsureCapacity(ghost changed: set<PageId>)
      requires 0 < capacity && Sound(frames, DataOf(frames), pager.pages, contents, changed)
      requires FrameIds(frames) == Held(trace, capacity)
      modifies this`frames, pager
      ensures Sound(frames, DataOf(frames), pager.pages, contents, changed)
      ensures frames == if |old(frames)| < capacity then old(frames) else old(frames)[1..]
    {
      hide *;
      if |frames| < capacity {
        return;
      }
      HeldBound(trace, capacity);
      ghost var data := DataOf(frames);
      SoundEvict(frames, data, pager.pages, contents, changed);
      var victim := frames[0];
      frames := frames[1..];
      if victim.dirty {
        pager.pages := pager.pages[victim.page.id := victim.page.data];
      }
      assert DataOf(frames) == data[1..];
    }

    /** Makes a page that is not cached the most recently used one. */
    method AddFrame(f: Frame, ghost a: Access, ghost changed: set<PageId>)
      requires 0 < capacity && Sound(frames, DataOf(frames), pager.pages, contents, changed)
      requires FrameIds(frames) == Held(trace, capacity) && a.id == f.page.id && a.id !in FrameIds(frames)
      requires a.id < |contents| && (a.id !in changed ==> f.page.data == contents[a.id])
      modifies this`frames, this`trace, pager
      ensures Sound(frames, DataOf(frames), pager.pages, contents, changed) && FrameIds(frames) == Held(trace, capacity)
      ensures trace == old(trace) + [a] && |frames| > 0 && frames[|frames| - 1] == f
      ensures PagesOf(frames) <= PagesOf(old(frames)) + {f.page}
    {
      hide *;
      MissAppends(trace, capacity, a);
      TailOf(frames, a.id);
      EnsureCapacity(changed);
      PagesAppend(frames, f);
      NewFrameSound(frames, DataOf(frames), pager.pages, contents, changed, f, f.page.data);
      ghost var data := DataOf(frames);
      SoundAppend(frames, data, pager.pages, contents, changed, f, f.page.data);
      AppendIds(frames, f);
      frames := frames + [f];
      trace := trace + [a];
      assert DataOf(frames) == data + [f.page.data];
    }

    /** Makes a cached page the most recently used one, possibly with another object and dirty bit. */
    method RefreshFrame(i: nat, f: Frame, ghost a: Access, ghost changed: set<PageId>)
      requires 0 < capacity && Sound(frames, DataOf(frames), pager.pages, contents, changed)
      requires FrameIds(frames) == Held(trace, capacity) && i < |frames| && frames[i].page.id == f.page.id == a.id
      requires f == frames[i] || (a.id in changed && f.dirty)
      modifies this`frames, this`trace
      ensures Sound(frames, DataOf(frames), pager.pages, contents, changed) && FrameIds(frames) == Held(trace, capacity)
      ensures trace == old(trace) + [a] && |frames| > 0 && frames[|frames| - 1] == f
      ensures PagesOf(frames) <= PagesOf(old(frames)) + {f.page} && |frames| == |old(frames)|
    {
      hide *;
      HeldBound(trace, capacity);
      assert FrameIds(frames)[i] == a.id;
      HitKeeps(trace, capacity, a);
      RefreshIds(frames, i, f);
      PagesMove(frames, i, f);
      ghost var data := DataOf(frames);
      SoundMove(frames, data, pager.pages, contents, changed, i, f, f.page.data);
      frames := frames[..i] + frames[i + 1..] + [f];
      trace := trace + [a];
      assert DataOf(frames) == data[..i] + data[i + 1..] + [f.page.data];
    }

    /** The page `id`, from the cache or from disk; the caller gets the cached object itself. */
    method FetchPage(id: PageId) returns (page: Page)
      requires Valid() && id < |contents|
      modifies this`frames, this`hits, this`misses, this`trace, pager
      ensures Valid() && contents == old(contents) && trace == old(trace) + [Fetch(id)]
      ensures page.id == id && page.data == contents[id] && page in PagesOf(frames)
      ensures PagesOf(frames) <= PagesOf(old(frames)) + {page} && (page in PagesOf(old(frames)) || fresh(page))
    {
      hide *;
      Meaning({});
      AccessCounts(trace, Fetch(id), capacity);
      ghost var data := DataOf(frames);
      var i := Position(frames, id);
      if i < |frames| {
        hits := hits + 1;
        page := frames[i].page;
        assert DataOf(frames) == data;
        CachedIsCurrent(frames, data, pager.pages, contents, i);
        LastPage(frames, i);
        RefreshFrame(i, frames[i], Fetch(id), {});
      } else {
        misses := misses + 1;
        UncachedIsCurrent(frames, data, pager.pages, contents, {}, id);
        page := new Page(id, pager.pages[id]);
        assert DataOf(frames) == data;
        AddFrame(Frame(page, false), Fetch(id), {});
      }
      LastPage(frames, |frames| - 1);
      Meaning({});
    }

    /** Takes over a page that its holder has changed; it is written to disk later. */
    method WritePage(page: Page)
      requires ValidExcept({page.id}) && page.id < |contents|
      modifies this`frames, this`trace, this`contents, pager
      ensures Valid() && contents == old(contents)[page.id := page.data] && trace == old(trace) + [Store(page.id)]
      ensures page in PagesOf(frames) && PagesOf(frames) <= PagesOf(old(frames)) + {page}
    {
      hide *;
      Meaning({page.id});
      AccessCounts(trace, Store(page.id), capacity);
      var i := Position(frames, page.id);
      if i < |frames| {
        RefreshFrame(i, Frame(page, true), Store(page.id), {page.id});
      } else {
        AddFrame(Frame(page, true), Store(page.id), {page.id});
      }
      LastPage(frames, |frames| - 1);
      ghost var data := DataOf(frames);
      SoundStore(frames, data, pager.pages, contents, page.id, trace, capacity);
      contents := contents[page.id := page.data];
      assert DataOf(frames) == data;
      Meaning({});
    }

    /** How the storage structures change a page: fetch it, change its data in place, hand it back. */
    method Overwrite(id: PageId, data: PageData)
      requires Valid() && id < |contents|
      modifies this, pager, PagesOf(frames)
      ensures Valid() && contents == old(contents)[id := data] && trace == old(trace) + [Fetch(id), Store(id)]
      ensures forall x :: x in PagesOf(frames) ==> x in PagesOf(old(frames)) || fresh(x)
    {
      hide *;
      var page := FetchPage(id);
      Meaning({});
      ghost var before := DataOf(frames);
      page.data := data;
      ChangedInPlace(frames, before, DataOf(frames), pager.pages, contents, id);
      Meaning({id});
      WritePage(page);
      assert old(trace) + [Fetch(id)] + [Store(id)] == old(trace) + [Fetch(id), Store(id)];
    }

    /** Takes note that a cached page was changed in place; fails when the page is not cached. */
    method MarkDirty(id: PageId) returns (ok: bool)
      requires ValidExcept({id})
      modifies this`frames, this`trace, this`contents
      ensures ok == (id in old(FrameIds(frames)))
      ensures !ok ==> frames == old(frames) && contents == old(contents) && trace == old(trace)
      ensures ok ==> Valid() && trace == old(trace) + [Touch(id)] && PagesOf(frames) <= PagesOf(old(frames))
      ensures ok ==> |frames| > 0 && frames[|frames| - 1].page.id == id
      ensures ok ==> id < |contents| && contents == old(contents)[id := frames[|frames| - 1].page.data]
    {
      hide *;
      var i := Position(frames, id);
      if i == |frames| {
        return false;
      }
      Meaning({id});
      SoundSizes(frames, DataOf(frames), pager.pages, contents, {id});
      AccessCounts(trace, Touch(id), capacity);
      var page := frames[i].page;
      LastPage(frames, i);
      RefreshFrame(i, Frame(page, true), Touch(id), {id});
      ghost var data := DataOf(frames);
      SoundStore(frames, data, pager.pages, contents, id, trace, capacity);
      contents := contents[id := page.data];
      assert DataOf(frames) == data;
      Meaning({});
      return true;
    }

    /** Appends a zero-filled page to the file and caches it. */
    method AllocatePage() returns (page: Page)
      requires Valid()
      modifies this`frames, this`trace, this`contents, pager
      ensures Valid() && fresh(page) && page.id == |old(contents)| && page.data == ZeroPage()
      ensures page.data.Bytes? && |page.data.data| == 4096 && forall i :: 0 <= i < 4096 ==> page.data.data[i] == 0
      ensures contents == old(contents) + [ZeroPage()] && trace == old(trace) + [Allocate(page.id)]
      ensures page in PagesOf(frames) && PagesOf(frames) <= PagesOf(old(frames)) + {page}
    {
      hide *;
      Meaning({});
      ghost var disk, data := pager.pages, DataOf(frames);
      SoundSizes(frames, data, disk, contents, {});
      var id := pager.AllocatePage();
      SoundGrow(frames, data, disk, contents);
      contents := contents + [ZeroPage()];
      AccessCounts(trace, Allocate(id), capacity);
      page := new Page(id, ZeroPage());
      assert DataOf(frames) == data;
      AddFrame(Frame(page, false), Allocate(id), {});
      LastPage(frames, |frames| - 1);
      ZeroPageIs();
      Meaning({});
    }

    /** Writes one page to disk if it is dirty; the order of the frames stays. */
    method FlushPage(id: PageId)
      requires Valid()
      modifies this`frames, pager
      ensures Valid() && FrameIds(frames) == old(FrameIds(frames)) && |frames| == |old(frames)|
      ensures PagesOf(frames) == PagesOf(old(frames))
      ensures forall i :: 0 <= i < |frames| ==> frames[i] == Flushed(old(frames)[i], id)
    {
      hide *;
      Meaning({});
      HeldBound(trace, capacity);
      var i := Position(frames, id);
      FlushedFrames(frames, i, id);
      if i < |frames| && frames[i].dirty {
        var page := frames[i].page;
        ghost var data := DataOf(frames);
        SoundFlush(frames, data, pager.pages, contents, i);
        pager.pages := pager.pages[id := page.data];
        frames := frames[i := Frame(page, false)];
        assert DataOf(frames) == data;
      }
      Meaning({});
    }

    /** Writes every dirty page: the disk now holds what an uncached pager would hold. */
    method FlushAll()
      requires Valid()
      modifies this`frames, pager
      ensures Valid() && pager.pages == contents && FrameIds(frames) == old(FrameIds(frames))
      ensures forall i :: 0 <= i < |frames| ==> !frames[i].dirty
    {
      assert CleanUpTo(frames, 0);
      hide *;
      var ids := FrameIds(frames);
      for k := 0 to |ids|
        invariant Valid() && FrameIds(frames) == ids && PagesOf(frames) == PagesOf(old(frames))
        invariant CleanUpTo(frames, k)
      {
        label L:
        FlushPage(ids[k]);
        CleanStep(old@L(frames), frames, k);
      }
      Meaning({});
      AllClean(frames, DataOf(frames), pager.pages, contents);
    }

    lemma Meaning(changed: set<PageId>)
      ensures ValidExcept(changed) <==>
        && 0 < capacity && Sound(frames, DataOf(frames), pager.pages, contents, changed)
        && FrameIds(frames) == Held(trace, capacity)
        && hits == Hits(trace, capacity) && hits + misses == Fetches(trace)
      ensures Valid() <==> ValidExcept({})
      ensures ValidExcept(changed) ==> |contents| == |pager.pages|
    {
    }

    /** The pool is never overfull, and its order is that of the last accesses. */
    lemma Bounded()
      requires Valid()
      ensures |frames| <= capacity && FrameIds(frames) == Held(trace, capacity) && hits == Hits(trace, capacity)
    {
      HeldBound(trace, capacity);
    }
  }

  lemma PagesAppend(frames: seq<Frame>, f: Frame)
    ensures PagesOf(frames + [f]) == PagesOf(frames) + {f.page}
  {
    var frames' := frames + [f];
    forall i | 0 <= i < |frames| ensures frames[i].page in PagesOf(frames') {
      assert frames'[i] == frames[i];
    }
    assert frames'[|frames|] == f;
  }

  lemma TailOf(frames: seq<Frame>, id: PageId)
    requires id !in FrameIds(frames)
    ensures frames != [] ==> id !in FrameIds(frames[1..]) && FrameIds(frames[1..]) == FrameIds(frames)[1..]
    ensures frames != [] ==> PagesOf(frames[1..]) <= PagesOf(frames)
  {
  }

  lemma PagesMove(frames: seq<Frame>, i: nat, f: Frame)
    requires i < |frames|
    ensures var frames' := frames[..i] + frames[i + 1..] + [f]; PagesOf(frames') <= PagesOf(frames) + {f.page} && f.page in PagesOf(frames')
  {
    var frames' := frames[..i] + frames[i + 1..] + [f];
    assert frames'[|frames| - 1] == f;
  }

  lemma AccessCounts(trace: seq<Access>, a: Access, capacity: nat)
    ensures Hits(trace + [a], capacity) == Hits(trace, capacity) + if a.Fetch? && a.id in Held(trace, capacity) then 1 else 0
    ensures Fetches(trace + [a]) == Fetches(trace) + if a.Fetch? then 1 else 0
  {
    assert (trace + [a])[..|trace|] == trace;
  }

  lemma RefreshIds(frames: seq<Frame>, i: nat, f: Frame)
    requires i < |frames| && NoRepeats(FrameIds(frames)) && f.page.id == frames[i].page.id
    ensures FrameIds(frames[..i] + frames[i + 1..] + [f]) == Without(FrameIds(frames), f.page.id) + [f.page.id]
    ensures NoRepeats(Without(FrameIds(frames), f.page.id))
  {
    WithoutAt(FrameIds(frames), i);
    WithoutMeans(FrameIds(frames), f.page.id);
    assert FrameIds(frames[..i] + frames[i + 1..] + [f]) == FrameIds(frames)[..i] + FrameIds(frames)[i + 1..] + [f.page.id];
  }

  lemma AppendIds(frames: seq<Frame>, f: Frame)
    ensures FrameIds(frames + [f]) == FrameIds(frames) + [f.page.id]
  {
  }

  /** A frame after `id` was written to disk. */
  function Flushed(f: Frame, id: PageId): Frame {
    if f.page.id == id then f.(dirty := false) else f
  }

  /** Clearing the dirty bit of one frame. */
  lemma FlushedFrames(frames: seq<Frame>, i: nat, id: PageId)
    requires NoRepeats(FrameIds(frames)) && i == Position(frames, id)
    ensures var frames' := if i < |frames| && frames[i].dirty then frames[i := Frame(frames[i].page, false)] else frames;
      && (forall j :: 0 <= j < |frames| ==> frames'[j] == Flushed(frames[j], id))
      && FrameIds(frames') == FrameIds(frames) && PagesOf(frames') == PagesOf(frames)
  {
    forall j | 0 <= j < |frames| && j != i ensures frames[j].page.id != id {
      assert FrameIds(frames)[j] in FrameIds(frames);
    }
    var frames' := if i < |frames| && frames[i].dirty then frames[i := Frame(frames[i].page, false)] else frames;
    assert forall j :: 0 <= j < |frames| ==> frames'[j].page == frames[j].page;
  }

  ghost predicate CleanUpTo(frames: seq<Frame>, k: nat) {
    forall i :: 0 <= i < k && i < |frames| ==> !frames[i].dirty
  }

  lemma CleanStep(frames: seq<Frame>, frames': seq<Frame>, k: nat)
    requires |frames'| == |frames| && k < |frames| && CleanUpTo(frames, k)
    requires forall i :: 0 <= i < |frames| ==> frames'[i] == Flushed(frames[i], FrameIds(frames)[k])
    ensures CleanUpTo(frames', k + 1)
  {
  }

  lemma LastPage(frames: seq<Frame>, i: nat)
    requires i < |frames|
    ensures frames[i].page in PagesOf(frames)
  {
  }

  lemma HeldBound(trace: seq<Access>, capacity: nat)
    ensures |Held(trace, capacity)| <= capacity && NoRepeats(Held(trace, capacity))
  {
    RecencyDistinct(trace);
  }

  // ---------- The pool in place of the file ----------

  /** One access of the layers above to the page file. */
  datatype PageAccess = Load(id: PageId) | Save(id: PageId, data: PageData) | Extend

  /** The page file after an access. */
  function Accessed(pages: seq<PageData>, a: PageAccess): seq<PageData> {
    match a
    case Load(_) => pages
    case Save(id, data) => if id < |pages| then pages[id := data] else pages
    case Extend => pages + [ZeroPage()]
  }

  function AccessedAll(pages: seq<PageData>, accesses: seq<PageAccess>): seq<PageData> {
    if accesses == [] then pages
    else Accessed(AccessedAll(pages, accesses[..|accesses| - 1]), accesses[|accesses| - 1])
  }

  /** What the loads give when the file is accessed directly. */
  function Loaded(pages: seq<PageData>, accesses: seq<PageAccess>): seq<PageData> {
    if accesses == [] then []
    else
      var n := |accesses| - 1;
      var now := AccessedAll(pages, accesses[..n]);
      Loaded(pages, accesses[..n]) + if accesses[n].Load? && accesses[n].id < |now| then [now[accesses[n].id]] else []
  }

  /** Every access is to a page that is there. */
  ghost predicate WithinFile(pages: seq<PageData>, accesses: seq<PageAccess>) {
    forall i :: 0 <= i < |accesses| && !accesses[i].Extend? ==> accesses[i].id < |AccessedAll(pages, accesses[..i])|
  }

  lemma NextAccess(pages: seq<PageData>, accesses: seq<PageAccess>, i: nat)
    requires i < |accesses|
    ensures AccessedAll(pages, accesses[..i + 1]) == Accessed(AccessedAll(pages, accesses[..i]), accesses[i])
    ensures var now := AccessedAll(pages, accesses[..i]);
      Loaded(pages, accesses[..i + 1]) ==
      Loaded(pages, accesses[..i]) + if accesses[i].Load? && accesses[i].id < |now| then [now[accesses[i].id]] else []
  {
    assert accesses[..i + 1][..i] == accesses[..i];
  }

  /** Whatever pages the layers above load, change and allocate, through a pool of any capacity they see what they would see in
      the file itself, and after a flush the file is what they would have made of it. */
  method Serve(pool: BufferPool, accesses: seq<PageAccess>) returns (loads: seq<PageData>)
    requires pool.Valid() && WithinFile(pool.contents, accesses)
    modifies pool, pool.pager, PagesOf(pool.frames)
    ensures pool.Valid() && pool.pager.pages == AccessedAll(old(pool.contents), accesses)
    ensures loads == Loaded(old(pool.contents), accesses)
  {
    hide *;
    loads := [];
    NoAccess(pool.contents, accesses);
    for i := 0 to |accesses|
      invariant pool.Valid() && pool.contents == AccessedAll(old(pool.contents), accesses[..i])
      invariant loads == Loaded(old(pool.contents), accesses[..i])
      invariant forall x :: x in PagesOf(pool.frames) ==> x in old(PagesOf(pool.frames)) || fresh(x)
    {
      NextAccess(old(pool.contents), accesses, i);
      AccessThere(old(pool.contents), accesses, i);
      AccessMeans(pool.contents, accesses[i]);
      match accesses[i] {
        case Load(id) =>
          var page := pool.FetchPage(id);
          loads := loads + [page.data];
        case Save(id, data) =>
          pool.Overwrite(id, data);
        case Extend =>
          var page := pool.AllocatePage();
      }
    }
    assert accesses[..|accesses|] == accesses;
    pool.FlushAll();
  }

  lemma NoAccess(pages: seq<PageData>, accesses: seq<PageAccess>)
    ensures AccessedAll(pages, accesses[..0]) == pages && Loaded(pages, accesses[..0]) == []
  {
    assert accesses[..0] == [];
  }

  lemma AccessThere(pages: seq<PageData>, accesses: seq<PageAccess>, i: nat)
    requires WithinFile(pages, accesses) && i < |accesses|
    ensures !accesses[i].Extend? ==> accesses[i].id < |AccessedAll(pages, accesses[..i])|
  {
  }

  lemma AccessMeans(pages: seq<PageData>, a: PageAccess)
    ensures a.Load? ==> Accessed(pages, a) == pages
    ensures a.Save? && a.id < |pages| ==> Accessed(pages, a) == pages[a.id := a.data]
    ensures a.Extend? ==> Accessed(pages, a) == pages + [ZeroPage()]
  {
  }

  // ---------- Pools of different capacities ----------

  /** Two pools that served the same calls: what the smaller one caches is the end of what the larger one caches, in the
      same order of use, and the larger one had no fewer hits and no more misses. */
  lemma LargerPool(small: BufferPool, large: BufferPool)
    requires small.Valid() && large.Valid() && small.trace == large.trace && small.capacity <= large.capacity
    ensures var a, b := FrameIds(small.frames), FrameIds(large.frames);
      |a| <= |b| && a == b[|b| - |a|..] && |b| <= large.capacity && NoRepeats(b)
    ensures small.hits <= large.hits && large.misses <= small.misses
  {
    Inclusion(small.trace, small.capacity, large.capacity);
    HitsMonotone(small.trace, small.capacity, large.capacity);
    HeldBound(large.trace, large.capacity);
  }

  /** A pool that may hold as many pages as were ever asked for never pushed one out: it caches exactly those. */
  lemma LargeEnoughPool(pool: BufferPool, x: PageId)
    requires pool.Valid() && |Recency(pool.trace)| <= pool.capacity
    ensures x in FrameIds(pool.frames) <==> exists i :: 0 <= i < |pool.trace| && pool.trace[i].id == x
  {
    LargeEnough(pool.trace, pool.capacity);
  }
}
