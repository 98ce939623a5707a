/** The page store that every layer of the engine shares. */
module Storage {

  const PAGE_SIZE := 4096
  const NO_PAGE: nat := 0xFFFF_FFFF

  type byte = b: int | 0 <= b < 256

  type PageId = nat

  datatype Option<+T> = None | Some(value: T)

  /** Physical location of a row in a table heap. */
  datatype RowPointer = RowPointer(pageId: PageId, slotId: nat)

  /** The decoded form of a B+ tree page; the page id is kept beside it. */
  datatype Node = Node(isLeaf: bool, keys: seq<int>, values: seq<seq<RowPointer>>, children: seq<PageId>, nextLeaf: PageId)

  /** What a page holds: raw bytes (heap pages, fresh pages) or an encoded tree node. */
  datatype PageData = Bytes(data: seq<byte>) | NodePage(node: Node)

  function ZeroPage(): PageData {
    Bytes(seq(PAGE_SIZE, _ => 0))
  }

  /** A new page is 4096 zero bytes. */
  lemma ZeroPageIs()
    ensures ZeroPage().Bytes? && |ZeroPage().data| == 4096 && forall i :: 0 <= i < 4096 ==> ZeroPage().data[i] == 0
  {
  }

  /** The database file: fixed-size pages numbered from zero. */
  class Pager {
    var pages: seq<PageData>
    /** A tree node was handed over whose text does not fit into a page. The code raises an error there. */
    var oversize: bool

    constructor ()
      ensures pages == [] && !oversize
    {
      pages, oversize := [], false;
    }

    /** Appends a zero-filled page and returns its id. */
    method AllocatePage() returns (id: PageId)
      modifies this`pages
      ensures id == |old(pages)|
      ensures pages == old(pages) + [ZeroPage()]
    {
      id := |pages|;
      pages := pages + [ZeroPage()];
    }
  }
}
