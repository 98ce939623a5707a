# A verified model of PyDB

PyDB is a small relational engine: SQL text is parsed into statements, tables are chains of slotted pages, INT columns can
be indexed by B+ trees that live in the same page file, a write-ahead log lets a transaction be rolled back, and an LRU
pool caches pages. This project models those layers in Dafny, each in the form the code has (classes over a page store,
loops, arrays of bytes), and proves what they promise to each other, up to theorems about arbitrary runs of statements.

`dafny verify dfyconfig.toml` checks everything.

## How the layers fit together

- **Pages** (`Storage`). A page file is a growing sequence of pages. A page holds bytes, or a tree node.
- **B+ tree** (`EntryList`, `TreeModel`, `TreePath`, `TreeGrowth`, `TreeShrink`, `TreeRepair`, `LeafRepair`, `BranchRepair`,
  `TreeDelete`, `Descent`, `BPlusTree`, `TreeTheorems`, `StaleRoot`, `StaleAnswer`, `Decimals`, `NodeFit`, `NarrowGrowth`,
  `Misfit`, `Overflow`). `TreeInv` says that the pages under a root page form a tree: strict key order inside separator
  bounds, 16 to 32 keys in every node but the root, uniform depth, no page reached twice, and leaf links that follow the
  leaves from left to right. The class `BPlusTree` has the code's methods; each is proved against the map from key to
  pointer list that the tree stands for. Deletion is proved on a tree that is open at a hole: the frames above the hole are
  the saved path of the code, and each borrow or merge moves the hole one level up. `Descents` says what a search and an
  insertion do to any pages, whether or not they form a tree. A node whose text is too long for its page sets the flag
  `oversize` of the pager; nothing is claimed about what follows.
- **Records and heaps** (`Bytes`, `Record`, `HeapPage`, `HeapModel`, `HeapFile`, `HeapTheorems`). `Holds` relates the 4096
  bytes of a page to its slots; `HeapInv` relates a chain of pages to the slots of a table; `Items` is what a full scan
  passes. `Records.Offsets` and `HeapPages.PageBytes` say byte by byte what rows and pages look like.
- **Statements** (`Statements`, `Tables`, `TxnLog`, `Parts`, `Agreement`, `Answers`, `Sparse`, `Database`, `DatabaseTheorems`,
  `Runs`). `Parts` keeps all heaps and trees of the file apart. `IndexAgrees` says that an index lists exactly the live pointers of each key,
  once each. `Undoable` says that undoing the log records of the open transaction would give back the rows at its BEGIN.
  The class `Database` executes statements and keeps all of this; `Answers` says what queries and deletions do in terms of
  the values in the named column; `Runs` draws the conclusions for whole runs.
- **Buffer pool** (`Lru`, `BufferPool`). The frames are compared with a function of the access trace alone, and the contents
  with what an uncached pager would hold. The other layers work on the page file; `BufferPools.Serve` says that a pool in its
  place makes no difference to them.
- **SQL text** (`Lexer`, `LexerText`, `Parser`, `SqlText`, `Grammar`). `Spells` says declaratively which token lists spell a
  statement; the parser is proved to find that statement if there is one, and printing followed by parsing is the identity.
  `Grammar.Phrase` is the grammar as lists of words, and `Grammar.ParsedIff` says exactly which texts are parsed as which
  statement.

## What the proofs found

- **The tree does rebalance.** `docs/bplus-tree.md:44` says that underfull nodes are not rebalanced;
  `pydb/index/bplus_tree.py:128-236` borrows, merges and shrinks the root. The model follows the code.
- **A deletion can lose the root of an index.** `pydb/sql/executor.py:145` and `pydb/transaction/txn.py:125` drop the tree
  object after a deletion, and with it a changed root page. `BPlusTrees.BPlusTree.Delete` proves exactly when the root
  changes: the guard `RootShrinks` (the pointer is the only one of its key, the root has two children, and every other node
  on the search path is at its minimum together with its neighbours) can be evaluated before the call. The page that the
  catalog names is then the root of no tree (`StaleRoots.StaleRootIsNoTree`), but searches still begin there.
  `StaleRoots.StaleSearch` says that they end at a leaf and what they find: the right list for every key, except that the deleted pointer is still
  found if the key lay to the right at every branch on its path (`RightOfAll`). That pointer names a dead row, so every query
  still has the right answer (`StaleAnswers.AnswersAfterDeletion`). After a ROLLBACK it is listed twice, and the indexed
  query for that key returns the row twice where a scan returns it once; all other queries are right
  (`StaleRoots.StaleRollback`, `StaleAnswers.AnswersAfterRollback`, which are exact). `StaleRoots.RootLossExample` is a tree
  of 32 keys where every deletion moves the root: key 20 is of the one kind, key 5 of the other. What further insertions and
  deletions through such a page do is not modelled: the model of the engine stops and says so in the result `moved`;
  `Engine.Database.IndexDelete` and `Engine.Database.Execute` prove that this happens if and only if an index named in the
  catalog has lost its root.
- **A row can be too long to insert.** A record of more than 4079 bytes makes the loop of `pydb/storage/heap_file.py:54-73`
  append pages for ever. `HeapModel.InsertionStopsIff` gives the exact bound; insertion is modelled for rows within it.
- **Scans are not in insertion order.** `pydb/storage/heap_file.py:76` promises that for live rows, but a short row can be put
  on an earlier page than its predecessor (`HeapTheorems.OrderBroken`). One insertion extends the scan at its end if and only
  if no page behind the first one with room has a live slot (`HeapTheorems.LiveAppendsIff`). After a run of insertions,
  deletions and restorations the scan is in insertion order if and only if no row that is live at the end was put in front of
  an older row that is live at the end (`HeapTheorems.LiveOrderIff`). `HeapTheorems.AppendsIff` and
  `HeapTheorems.InsertionOrderIff` are the same for all slots, dead ones included. The order is right when all records have
  one length (`HeapTheorems.InsertionOrder`), in particular for tables with INT columns only
  (`HeapTheorems.IntTablesScanInOrder`).
- **Six rows a key are the limit.** Every pointer that a heap gives out has a slot number below 816
  (`Sparseness.SlotStorable`), and nodes fit into their pages while no key has more than six such pointers
  (`NodeFit.NodeFits`). Seven for a single key can be too many: `Overflows.SeventhPointer` is a stored tree whose node fits
  until one key gets its seventh pointer; all its numbers have the greatest number of digits that their widths allow.
  `BPlusTrees.BPlusTree.WriteNode` records each write of a node that does not fit.
  `BPlusTrees.BPlusTree.Insert` proves exactly when an insertion makes one: the guard `InsertFits` looks at the leaf that the
  key belongs to and can be evaluated before the call. `BPlusTrees.BPlusTree.Delete` proves that a deletion from a tree whose
  nodes all fit makes one if and only if a node of the resulting tree does not fit. Every operation above, up to
  `Engine.Database.Execute`, proves that there is none while no key of an indexed column is carried by more than six live
  rows: after an insertion, before a deletion, and at each point of a rollback. With more rows the code may raise an error in
  the middle of a statement; `Execute` then returns `overflowed` and a run ends there.
- **Undo can be repeated on tables but not on indexes.** On slots it may be interrupted and started again
  (`TxnLog.UndoRestartable`); in an index a restored row would be listed twice (`Tables.RestoreAgreesIff`).
- **Refused names cost pages.** CREATE TABLE and CREATE INDEX allocate pages before the catalog refuses a name that is taken
  (`pydb/sql/executor.py:46-47`, `pydb/sql/executor.py:179-189`): one page for a table, and all pages of the new tree for an
  index (`Engine.Database.CreateTable`, `Engine.Database.CreateIndex`).
- **A column type may be a string literal.** `pydb/sql/parser.py:119-127` looks at the text of the token only, so
  `CREATE TABLE t (a 'INT')` is accepted, and `Parsing.Parser.ParseColumnType` says so.

## Model

| member | source | states |
|---|---|---|
| `BPlusTrees.BPlusTree.Create` | pydb/index/bplus_tree.py:36-42 | A new tree is one empty leaf on a page that did not exist before; it stores nothing, and no existing page is changed. |
| `BPlusTrees.BPlusTree.Search` | pydb/index/bplus_tree.py:44-52 | The answer is exactly the list stored for the key in the map that the whole tree stands for, and empty for a key that is not stored; it is also what following the pages alone gives. |
| `BPlusTrees.BPlusTree.Insert` | pydb/index/bplus_tree.py:54-67 | Appends the pointer to the list of the key and changes no other key; order, separators, occupancy, uniform depth and the leaf chain hold again; no page outside the old tree is written, and no page of the tree is lost. With 64-bit keys the size flag is raised iff the leaf the key belongs to, with the pointer added, or one of its halves when it must be split, is too large for its page; never while no key has more than six pointers afterwards. |
| `BPlusTrees.BPlusTree.InsertRecursive` | pydb/index/bplus_tree.py:238-254 | The subtree is replaced by one or two well-formed siblings, in the same place of the leaf chain, whose entries are the old ones with the pointer inserted; the report names the separator and page of the second one. |
| `BPlusTrees.BPlusTree.InsertIntoLeaf` | pydb/index/bplus_tree.py:256-268 | The leaf, or the two halves of it, hold the old entries with the pointer inserted at the place of its key; it is split iff there are more than 32 keys then. |
| `BPlusTrees.BPlusTree.SplitLeaf` | pydb/index/bplus_tree.py:270-288 | The upper half of an overfull leaf moves to a new page that takes over the successor link, the leaf links to the new page, and the first key of the new page is reported. |
| `BPlusTrees.BPlusTree.SplitInternal` | pydb/index/bplus_tree.py:290-309 | The middle key of an overfull branch goes up and occurs in neither half; the keys and children above it move to a new page. |
| `BPlusTrees.BPlusTree.GrowRoot` | pydb/index/bplus_tree.py:61-67 | When the root splits, a new root above the halves gives a well-formed tree one level higher with the same entries. |
| `BPlusTrees.BPlusTree.FindLeafWithPath` | pydb/index/bplus_tree.py:104-114 | The descent ends after as many steps as the tree has levels, at the leaf whose key range holds the key, and the recorded path is the chain of branches and child positions above it. |
| `BPlusTrees.BPlusTree.Delete` | pydb/index/bplus_tree.py:69-99 | True iff the pointer was in the list of the key; removes its first occurrence only, and the key with its last pointer; every invariant of the tree holds again through all borrows, merges and cascades; only pages of the new tree are written; the root page changes iff the guard RootShrinks held before the call, and then the new tree is known. If all nodes fitted their pages, the size flag is raised iff a node of the new tree does not; never while no key had more than six pointers before. |
| `BPlusTrees.BPlusTree.RebalanceLeaf` | pydb/index/bplus_tree.py:128-170 | A leaf that is one key short is repaired by its neighbours: the tree is well-formed again with the same entries, and the root is lost iff every frame above is at its minimum. |
| `BPlusTrees.BPlusTree.BorrowFromLeftLeaf` | pydb/index/bplus_tree.py:137-144 | The last entry of the left leaf becomes the first of this one, and the separator between them is that key; the root stays. |
| `BPlusTrees.BPlusTree.BorrowFromRightLeaf` | pydb/index/bplus_tree.py:146-153 | The first entry of the right leaf becomes the last of this one, and the separator is the new first key on the right; the root stays. |
| `BPlusTrees.BPlusTree.MergeIntoLeftLeaf` | pydb/index/bplus_tree.py:155-161 | The left leaf takes all entries and the successor link, this page leaves the tree, and the parent loses one key and one child before it is repaired in turn. |
| `BPlusTrees.BPlusTree.MergeRightIntoLeaf` | pydb/index/bplus_tree.py:162-168 | This leaf takes the entries and the successor link of its right neighbour, whose page leaves the tree. |
| `BPlusTrees.BPlusTree.FinishParent` | pydb/index/bplus_tree.py:172-188 | After a merge below it the parent is written, given up for its only child if it was the root, or repaired in turn; the result is a complete tree with the same entries. |
| `BPlusTrees.BPlusTree.RebalanceInternal` | pydb/index/bplus_tree.py:190-236 | A branch that is one key short is repaired by its neighbours through all levels above it, with the same entries. |
| `BPlusTrees.BPlusTree.BorrowFromLeftBranch` | pydb/index/bplus_tree.py:203-210 | The last child of the left branch moves over, the separator comes down and the last key on the left goes up; the root stays. |
| `BPlusTrees.BPlusTree.BorrowFromRightBranch` | pydb/index/bplus_tree.py:212-219 | The first child of the right branch moves over, the separator comes down and the first key on the right goes up; the root stays. |
| `BPlusTrees.BPlusTree.MergeIntoLeftBranch` | pydb/index/bplus_tree.py:221-227 | Left branch, separator and this branch become one branch on the left page; the repair goes on above. |
| `BPlusTrees.BPlusTree.MergeRightIntoBranch` | pydb/index/bplus_tree.py:228-234 | This branch, separator and right branch become one branch on this page; the repair goes on above. |
| `BPlusTrees.BPlusTree.WriteNode` | pydb/index/bplus_tree.py:337-355 | Replaces the content of its page and nothing else, and sets a flag iff the JSON text of the node is too long for the page, where the code raises its error. |
| `EntryList.InsertEntryContents` | pydb/index/bplus_tree.py:256-262 | Inserting into the sorted entry list is appending to the list of one key in the map it stands for. |
| `EntryList.RemovedAt` | pydb/index/bplus_tree.py:80-87 | Taking a pointer out of its entry, and the entry out with its last pointer, is removal in the map. |
| `EntryList.RemoveFirstAt` | pydb/index/bplus_tree.py:80-81 | Of equal pointers in a list the first goes, and the rest keep their order. |
| `EntryList.BisectLeft` | pydb/index/bplus_tree.py:49 | All keys before the position are smaller and none from it on is. |
| `EntryList.BisectRight` | pydb/index/bplus_tree.py:111 | No key before the position is greater and all from it on are. |
| `TreeGrowth.Routed` | pydb/index/bplus_tree.py:242-243 | The child that the descent selects is the one whose separators enclose the key. |
| `TreeDelete.ThinnedRunsShort` | pydb/index/bplus_tree.py:85-93 | A leaf falls below its minimum iff it was at the minimum and the deleted pointer was the only one of its key. |
| `TreeDelete.BrinkCollapses` | pydb/index/bplus_tree.py:172-188 | A repair reaches and removes the root iff every branch on the path is at its minimum and so are the neighbours it would borrow from. |
| `TreeTheorems.RepUnique` | pydb/index/bplus_tree.py:311-328 | The pages determine the tree: two trees stored under one root page are the same. |
| `TreeTheorems.HeightBound` | pydb/index/bplus_tree.py:104-114 | A tree with h levels above its leaves holds at least 32 * 17^(h-1) distinct keys, so the descent is logarithmic in the number of keys. |
| `TreeTheorems.NodeSizes` | pydb/index/bplus_tree.py:85-99 | In a well-formed tree no node has more than 32 keys, and every node below the root has at least 16. |
| `TreeTheorems.LeafChain` | pydb/index/bplus_tree.py:270-288 | Following the leaf links from the leftmost leaf visits every leaf once, in order, ends at NO_PAGE, and the keys met on the way are the strictly increasing list of all stored keys. |
| `Descents.SearchTree` | pydb/index/bplus_tree.py:104-114 | In a well-formed tree the pages followed from the root lead to the leaf for the key, and the list found there is the one the whole tree stores. |
| `Descents.InsertSeen` | pydb/index/bplus_tree.py:256-268 | After an insertion that splits no leaf, begun at any page, every search from the same page finds the new pointer at the end of the list of its key and all other lists as before. |
| `StaleRoots.StaleRootIsNoTree` | pydb/index/bplus_tree.py:177-179 | After a deletion moved the root, the old root page is not the root of any well-formed tree. |
| `StaleRoots.StaleSearch` | pydb/sql/executor.py:145 | A search that goes on from the old root page ends at a leaf and finds, for every key, the list of the new tree, except that for the deleted key it still finds the pointer iff the key lay to the right at every branch on its path. |
| `StaleRoots.StaleRollback` | pydb/transaction/txn.py:94-110 | Putting the pointer back through the old root page splits no leaf; afterwards every search from there ends at a leaf and gives the key its old list, except that the pointer is listed twice in that same case. |
| `StaleRoots.RootLossExample` | pydb/sql/executor.py:145 | A tree of 32 keys on which every deletion takes the root away; the keys from 16 on are those whose pointer is still found. |
| `StaleAnswers.AnswersAfterDeletion` | pydb/sql/executor.py:198-223 | Right after such a deletion every indexed equality query comes to its end and has the answer of the scan, because a dead row is skipped. |
| `StaleAnswers.AnswersAfterRollback` | pydb/sql/executor.py:198-223 | After the ROLLBACK of such a deletion every indexed equality query comes to its end, and it has the answer of the scan iff it is not for the deleted key or that key did not lie to the right at every branch; otherwise it returns the row twice. |
| `NodeFit.NodeFits` | pydb/index/bplus_tree.py:349-351 | A node with 64-bit keys, 32-bit page ids, slot numbers below 816 and at most six pointers a key fits into its page as compact JSON. |
| `NodeFit.FitsIff` | pydb/index/bplus_tree.py:349-351 | A node is too large iff its JSON text has more than 4088 characters; the length of the text is 65 or 66 characters and those of the keys, lists, children and link. |
| `NodeFit.PayloadExamples` | pydb/index/bplus_tree.py:339-349 | The text of a leaf and of a branch, character by character: field names, their order, brackets and commas, without white space. |
| `Overflows.SeventhPointer` | pydb/index/bplus_tree.py:350-351 | Six is tight: a stored tree with 32 keys and six pointers for each, all different and such as heap pages give out, whose node fits, and a seventh pointer for one key with which it does not, so that the insertion raises the size flag. |
| `NarrowGrowth.LightFits` | pydb/index/bplus_tree.py:54-67 | An insertion after which no key has more than six pointers meets the condition under which the size flag stays down. |
| `NodeFit.TreeNodesFit` | pydb/index/bplus_tree.py:337-355 | While no key has more than six pointers, every page of a stored tree holds a node that fits into it. |
| `Decimals.DecimalRead` | pydb/sql/lexer.py:61-66 | A number written in decimal is read back. |
| `Decimals.Places` | pydb/sql/lexer.py:61-66 | Each digit counts ten times what stands before it and its own value, a minus sign negates, and a written number has no leading zero. |
| `Decimals.NumeralIff` | pydb/sql/lexer.py:61-66 | A numeral is a row of the characters 0 to 9 with or without a minus sign in front, and nothing else. |
| `Decimals.DigitsLength` | pydb/index/bplus_tree.py:349 | A number has at most d decimal digits iff it is below 10^d. |
| `BigEndian.PackUnpack` | pydb/storage/record.py:46-56 | Fixed-width big-endian numbers are read back; the first byte is the most significant one. |
| `BigEndian.PackDigit` | pydb/storage/record.py:46-63 | Byte i of w is n / 256^(w-1-i) mod 256. |
| `BigEndian.PackIs` | pydb/storage/record.py:46-63 | The bytes of one-, two-, four- and eight-byte numbers, written out with constants. |
| `BigEndian.PackIntIs` | pydb/storage/record.py:46-49 | A 64-bit integer is stored by the eight base-256 digits of itself, or of itself plus 2^64 if it is negative; the first byte is at least 0x80 iff it is negative. |
| `BigEndian.UnpackPackInt` | pydb/storage/record.py:46-56 | Every eight bytes are the two's complement of exactly one 64-bit integer. |
| `Utf8.EncodeDecode` | pydb/storage/record.py:59-75 | UTF-8 (section 3 of RFC 3629) decodes every encoded text to itself. |
| `Utf8.CharLayout` | pydb/storage/record.py:59-63 | The bit patterns of one to four bytes with six bits in each byte behind a leading one, for every code point. |
| `Utf8.EncodeConcat` | pydb/storage/record.py:59-63 | The bytes of a text are those of its characters, in order. |
| `Utf8.DecodeEncode` | pydb/storage/record.py:66-75 | Only shortest-form UTF-8 is accepted: bytes that decode are the encoding of what they decode to. |
| `Records.ValidateRow` | pydb/types.py:36-44 | Accepts exactly the rows with one value of the right type per column; a wrong count is reported before a wrong type. |
| `Records.EncodeRecord` | pydb/storage/record.py:12-24 | Succeeds iff there is one value per column, each an integer of 64 bits or a text of less than 2^32 bytes as the column says; the values follow one another in column order without gaps, an integer as the eight bytes of its two's complement, a text as its byte count in four bytes and its UTF-8 bytes, most significant byte first; a wrong count, a wrong type, or the first value that does not fit decides the error. |
| `Records.RowLaidOut` | pydb/storage/record.py:12-63 | The bytes of every row are laid out as said for EncodeRecord. |
| `Records.DecodeRecord` | pydb/storage/record.py:27-43 | Succeeds iff the bytes are the encoding of some row of the schema, and then returns that row. |
| `Records.RowBytesInjective` | pydb/storage/record.py:12-43 | Two rows of one schema with the same bytes are the same row. |
| `Records.FixedLength` | pydb/storage/record.py:46-49 | Rows of INT columns only all have the same encoded length. |
| `HeapPages.InitHeapPage` | pydb/storage/heap_file.py:133-135 | Any page becomes an empty heap page without a successor: its first bytes are HEAP, FF FF FF FF, 0000 and 1000. |
| `HeapPages.HeaderHeld` | pydb/storage/heap_file.py:138-148 | On a page that holds slots the header read back gives the successor, the number of slots and the start of the free space. |
| `HeapPages.HeaderRoundTrip` | pydb/storage/heap_file.py:138-154 | A written header is read back. |
| `HeapPages.EntryRoundTrip` | pydb/storage/heap_file.py:175-182 | A written slot entry is read back. |
| `HeapPages.Disjoint` | pydb/storage/heap_file.py:157-172 | Header, slot array and records lie side by side without overlap inside the 4096 bytes, each record right below the one before it. |
| `HeapPages.PageBytes` | pydb/storage/heap_file.py:138-182 | The bytes of a heap page: HEAP, next page, number of slots and start of the records; at 12 + 5i the offset and length of record i and 1 if it is live, else 0; the records from the end of the page downwards. |
| `HeapPages.UsedSum` | pydb/storage/heap_file.py:157-172 | The record bytes of a page are the sum of the lengths of its records. |
| `HeapPages.TryInsertIntoPage` | pydb/storage/heap_file.py:157-172 | Refuses, without changing a byte, iff 12 bytes, five for each slot and the new one, the records on the page and the new record are more than 4096 bytes; otherwise appends the record under the next slot number. |
| `HeapPages.InsertHolds` | pydb/storage/heap_file.py:163-171 | The three slice writes of an insertion leave every earlier slot entry and record as it was. |
| `HeapPages.LinkHolds` | pydb/storage/heap_file.py:62-73 | Setting the successor of a page changes no slot and no record. |
| `HeapPages.FlagHolds` | pydb/storage/heap_file.py:88-112 | Marking a slot live or deleted changes no record and no other slot. |
| `HeapModel.FirstFit` | pydb/storage/heap_file.py:57-61 | The page chosen is the first of the chain with room; all pages before it refuse. |
| `HeapModel.PlacedFirst` | pydb/storage/heap_file.py:54-73 | The record goes to the first page on which those bytes are at most 4096, and to slot 0 of a new page if there is none. |
| `HeapModel.PlacedItems` | pydb/storage/heap_file.py:49-73 | An insertion adds one live item under a new pointer and moves no other item. |
| `HeapModel.FlaggedItems` | pydb/storage/heap_file.py:88-112 | Marking a slot in the page chain is marking one item in scan order. |
| `HeapModel.InsertionStops` | pydb/storage/heap_file.py:56-73 | For a record of at most 4079 bytes the loop ends after at most chain length + 1 rounds with at most one new page. |
| `HeapModel.InsertionDiverges` | pydb/storage/heap_file.py:56-73 | For a longer record no number of rounds ends the loop. |
| `HeapModel.InsertionStopsIff` | pydb/storage/heap_file.py:49-73 | The insertion loop terminates iff the record is at most 4096 - 12 - 5 = 4079 bytes long. |
| `HeapFiles.HeapFile.Create` | pydb/storage/heap_file.py:41-47 | A new heap is one empty page that did not exist before. |
| `HeapFiles.HeapFile.Insert` | pydb/storage/heap_file.py:49-73 | Succeeds iff the row can be stored; the pointer returned names the first page of the chain on which 12 bytes, five for each slot and the new one, the records and the new record are at most 4096 bytes, and there the number of slots it had, or slot 0 of a new page, which is added iff there is no such page; exactly one live item is added; only pages of this heap are written; a refusal names the fault of the row. |
| `HeapFiles.HeapFile.InsertRecord` | pydb/storage/heap_file.py:56-73 | The search along the chain ends at the first fit, allocating at most one page. |
| `HeapFiles.HeapFile.AppendPage` | pydb/storage/heap_file.py:62-73 | The new page is linked behind the last one only, and the chain stays acyclic. |
| `HeapFiles.HeapFile.Scan` | pydb/storage/heap_file.py:75-86 | Yields every live row exactly once, in chain and slot order. |
| `HeapFiles.LiveRowsAre` | pydb/storage/heap_file.py:75-86 | A live slot contributes its pointer and row at its place in a scan, and a deleted slot nothing. |
| `HeapFiles.HeapFile.Delete` | pydb/storage/heap_file.py:88-98 | Marks exactly the named slot deleted, or reports that there is none; no byte of any record moves. |
| `HeapFiles.HeapFile.Restore` | pydb/storage/heap_file.py:100-112 | Marks exactly the named slot live, or reports that there is none. |
| `HeapFiles.HeapFile.Get` | pydb/storage/heap_file.py:114-123 | Returns the row that was inserted under the pointer iff it is live, and tells a deleted row from a slot that does not exist. |
| `HeapFiles.AddedFinds` | pydb/storage/heap_file.py:49-73 | After an insertion the new pointer, unknown before, finds the new row, and every other pointer finds what it found before. |
| `HeapTheorems.RowsStay` | pydb/storage/heap_file.py:88-112 | Through any run of insertions, deletions and restorations the chain stays acyclic, no two slots share a pointer, and every pointer keeps naming the row inserted under it. |
| `HeapTheorems.InsertionOrder` | pydb/storage/heap_file.py:75-86 | While all records have one length, a table grows at the end of the scan order only. |
| `HeapTheorems.IntTablesScanInOrder` | pydb/storage/heap_file.py:75-86 | A table with INT columns only is scanned in insertion order, through any deletions and restorations. |
| `HeapTheorems.AppendsIff` | pydb/storage/heap_file.py:54-73 | One insertion extends the list of all slots, dead ones included, at its end iff no page behind the first one with room has a slot. |
| `HeapTheorems.InsertionOrderIff` | pydb/storage/heap_file.py:75-86 | After any run of insertions, deletions and restorations all slots, dead ones included, are in insertion order iff every insertion of the run was made behind all slots. |
| `HeapTheorems.LiveAppendsIff` | pydb/storage/heap_file.py:54-86 | One insertion extends the live rows that a scan yields at their end iff no page behind the first one with room has a live slot. |
| `HeapTheorems.LiveOrderIff` | pydb/storage/heap_file.py:75-86 | After any run of insertions, deletions and restorations a scan yields the live rows in insertion order iff no row that is live at the end was put in front of an older one that is live at the end; which rows these are follows from the steps alone. |
| `HeapTheorems.OrderBroken` | pydb/storage/heap_file.py:49-86 | With records of 3000, 2000 and 1000 bytes the third row is scanned before the second: the promised insertion order is not general. |
| `BufferPools.BufferPool.FetchPage` | pydb/buffer/buffer_pool.py:36-47 | Returns the current content of the page, cached or not; counts a hit iff the page was held; the page becomes the most recently used. |
| `BufferPools.BufferPool.WritePage` | pydb/buffer/buffer_pool.py:53-62 | A page changed in place becomes the current content, whether its frame was still there or had been pushed out. |
| `BufferPools.BufferPool.Overwrite` | pydb/buffer/buffer_pool.py:36-62 | Fetch, change in place, write: the current content of that page is the new data and every other page is as before. |
| `BufferPools.BufferPool.MarkDirty` | pydb/buffer/buffer_pool.py:64-71 | Fails iff the page is not cached; otherwise its changed data becomes the current content. |
| `BufferPools.BufferPool.AllocatePage` | pydb/buffer/buffer_pool.py:73-78 | The file grows by one page of 4096 zero bytes, which is cached and whose id is the old page count. |
| `BufferPools.BufferPool.FlushPage` | pydb/buffer/buffer_pool.py:80-86 | Writes the page if it is cached and dirty; order and contents stay. |
| `BufferPools.BufferPool.FlushAll` | pydb/buffer/buffer_pool.py:88-91 | Afterwards the disk holds exactly what an uncached pager would hold, and no frame is dirty. |
| `BufferPools.BufferPool.EnsureCapacity` | pydb/buffer/buffer_pool.py:102-107 | A full pool gives up its oldest frame only, and writes it to disk first if it is dirty, so no update is lost. |
| `BufferPools.BufferPool.Bounded` | pydb/buffer/buffer_pool.py:21-30 | There are never more frames than the capacity, their order is that of the last accesses, and the hit counter is the number of fetches that found their page. |
| `BufferPools.SoundEvict` | pydb/buffer/buffer_pool.py:102-107 | Eviction keeps every page readable with its current content. |
| `BufferPools.AllClean` | pydb/buffer/buffer_pool.py:88-91 | With no dirty frame left the disk equals the current contents. |
| `Lru.HitKeeps` | pydb/buffer/buffer_pool.py:36-47 | An access to a held page moves it to the end of the order and evicts nothing. |
| `Lru.MissAppends` | pydb/buffer/buffer_pool.py:102-107 | An access to another page pushes out the least recently used one iff the pool is full. |
| `Lru.HeldIff` | pydb/buffer/buffer_pool.py:36-47 | A page is cached iff fewer different pages than the capacity were accessed since its own last access. |
| `Lru.HitsAre` | pydb/buffer/buffer_pool.py:36-47 | Exactly the fetches of such pages count as hits; changes, allocations and evictions do not. |
| `BufferPools.Serve` | pydb/buffer/buffer_pool.py:36-91 | Whatever pages the layers above load, change and allocate, through a pool of any capacity they see what they would see in the file, and after a flush the file is what they would have made of it. |
| `BufferPools.LargerPool` | pydb/buffer/buffer_pool.py:36-107 | Of two pools that served the same calls, the smaller one caches the end of what the larger one caches, in the same order, and has no more hits and no fewer misses. |
| `BufferPools.LargeEnoughPool` | pydb/buffer/buffer_pool.py:102-107 | A pool with room for all pages ever asked for caches exactly these: it never pushed one out. |
| `Lru.Inclusion` | pydb/buffer/buffer_pool.py:36-62 | On one trace the pages held with a smaller capacity are a suffix of those held with a larger one. |
| `Lru.HitsMonotone` | pydb/buffer/buffer_pool.py:36-47 | On one trace a larger pool never has fewer hits. |
| `Statements.TextOrder` | pydb/sql/executor.py:249-256 | Text comparison by code point is a strict total order. |
| `Statements.OperatorsOfOneOrder` | pydb/sql/executor.py:242-257 | The six operators of WHERE are those of one strict total order on each type: that of the integers, and for texts the one decided by the first character in which they differ, or by the length if there is none. |
| `Statements.IntComparisons` | pydb/sql/executor.py:242-257 | On integers the six operators are those of arithmetic. |
| `Statements.TextComparisons` | pydb/sql/executor.py:242-257 | On texts they compare for equality, or character by character; an integer is never compared with a text. |
| `Statements.ColumnIndex` | pydb/sql/executor.py:235-240 | The position returned is that of the first column of the name; nothing is returned iff no column has the name. |
| `Statements.MatchesWhereIs` | pydb/sql/executor.py:226-240 | Without a condition every row is kept; with one, the value in the first column of the name is compared; a name that no column has is an error. |
| `Statements.WhereFailsOnEveryRow` | pydb/sql/executor.py:226-257 | Whether a condition can be evaluated depends on the schema alone: it fails with the same error on every row or on none. |
| `Tables.GainAgrees` | pydb/sql/executor.py:69-77 | A row that becomes visible and is added to an index under its key keeps index and table in agreement. |
| `Tables.LossAgrees` | pydb/sql/executor.py:133-145 | A row that disappears and is removed from an index keeps them in agreement, even if the index never listed it. |
| `Tables.RestoreAgreesIff` | pydb/transaction/txn.py:83-91 | Undoing a deletion keeps an index in agreement iff the row was not live: repeating the undo would list it twice. |
| `Tables.BuiltAgrees` | pydb/sql/executor.py:168-195 | An index built from a scan, at any time, lists each live row exactly once. |
| `Tables.AnswerOnce` | pydb/sql/executor.py:88-97 | A scan answers with every live row that satisfies the condition exactly once. |
| `Tables.IndexedAnswer` | pydb/sql/executor.py:198-223 | The pointers an agreeing index lists for a key name the same multiset of rows as the filtered scan. |
| `Answers.WholeTable` | pydb/sql/executor.py:88-97 | Without a condition the answer is every live row, in scan order. |
| `Answers.AnswerSifts` | pydb/sql/executor.py:88-97 | With a condition the answer is exactly the live rows, in scan order, whose value in the named column compares. |
| `Answers.IntQuery` | pydb/sql/executor.py:88-97 | For a condition on an INT column, what a SELECT returns, operator by operator, in terms of the integers in the column. |
| `Answers.IntDeletion` | pydb/sql/executor.py:115-130 | For a condition on an INT column, which rows a DELETE leaves, operator by operator: with < k those whose integer is at least k, and so on, in the same order. |
| `TxnLog.OfTxnIsBlock` | pydb/transaction/txn.py:37-41 | The records with the id of the open transaction are one block at the end of the log, starting with its BEGIN. |
| `TxnLog.BlockIsNew` | pydb/transaction/txn.py:66-70 | Every record before the block has a smaller id. |
| `TxnLog.UndoSettles` | pydb/transaction/txn.py:72-91 | One backward pass gives every touched slot the flag that the first record about it says it had before, whatever its flag was, and touches no other slot. |
| `TxnLog.UndoRestartable` | pydb/transaction/txn.py:72-91 | From states that differ in flags of touched slots only, undo leads to the same slots; a second pass changes nothing. |
| `TxnLog.InsertLogged` | pydb/sql/executor.py:64-67 | After a logged insertion undo would give the same live rows as before it. |
| `TxnLog.DeleteLogged` | pydb/sql/executor.py:115-119 | After a logged deletion undo would give the same slots as before it. |
| `Engine.LoadNextTxid` | pydb/transaction/txn.py:66-70 | The first id is 1 if there is no record, and otherwise one more than the largest id in the log, so no record has it or a greater one. |
| `Parts.PartReplaced` | pydb/index/bplus_tree.py:104-114 | An operation that writes only pages of its own structure and new ones leaves all other heaps and trees well-formed and disjoint, and no abandoned page comes back. |
| `Parts.PartAdded` | pydb/storage/pager.py:26-30 | A structure built from newly allocated pages is disjoint from all others. |
| `DatabaseTheorems.PagesSeparate` | pydb/storage/pager.py:26-30 | In every state between statements no page belongs to two heaps or trees, and no page occurs twice in one tree. |
| `DatabaseTheorems.ListLengthIsCount` | pydb/sql/executor.py:198-223 | An index lists as many pointers for a key as a scan finds rows. |
| `Sparseness.SlotStorable` | pydb/storage/heap_file.py:157-172 | Every pointer handed out has a 32-bit page id and a slot number below 816, the number of slot entries for which a page has room. |
| `DatabaseTheorems.IndexNodesFit` | pydb/index/bplus_tree.py:349-351 | Between statements, while no key of an indexed column is carried by more than six live rows, every node of the index fits into its page. |
| `DatabaseTheorems.FewRowsIff` | pydb/index/bplus_tree.py:349-351 | The condition under which the operations of the engine write no node that is too large is the same as: every equality query on the indexed column has at most six rows. |
| `Sparseness.BuildingFew` | pydb/sql/executor.py:179-187 | While an index is built on a column with at most six rows a key, no list in it ever gets longer than six. |
| `Sparseness.SparseWhileUndoing` | pydb/transaction/txn.py:72-91 | While a transaction is undone, its indexes stay small enough if at each point no key is carried by more than six live rows. |
| `Agreement.DeletionLeaves` | pydb/sql/executor.py:115-121 | Marking the selected rows deleted leaves exactly the others live, in the same order. |
| `Agreement.GoodBegins` | pydb/transaction/txn.py:19-27 | A transaction that has only begun can be undone to the present rows. |
| `Agreement.GoodInserts` | pydb/sql/executor.py:64-77 | A logged and indexed insertion keeps indexes in agreement and the transaction undoable to the rows at its start. |
| `Agreement.GoodDeletes` | pydb/sql/executor.py:115-121 | A logged deletion that leaves the indexes keeps them in agreement and the transaction undoable. |
| `Agreement.GoodNewIndex` | pydb/sql/executor.py:168-195 | An index created inside a transaction agrees with the table, and the transaction is still undoable to the same rows. |
| `Agreement.RestoredRows` | pydb/transaction/txn.py:37-41 | With all records undone every table has its live rows of the start. |
| `Engine.Database.constructor` | docs/storage-engine.md:7-8 | A new file has page 0 set aside: no heap and no tree ever uses it. |
| `Engine.Database.Begin` | pydb/transaction/txn.py:19-27 | Refused iff a transaction is open; otherwise a BEGIN record with a new id is logged, and no earlier record has that id. |
| `Engine.Database.Commit` | pydb/transaction/txn.py:29-35 | Refused iff no transaction is open; otherwise a COMMIT record is logged and the transaction closed. |
| `Engine.Database.Rollback` | pydb/transaction/txn.py:37-45 | Refused iff no transaction is open; otherwise every table has exactly its live rows of BEGIN, in the same order, all indexes agree again, and a ROLLBACK record is logged. |
| `Engine.Database.TransactionForWrite` | pydb/transaction/txn.py:47-51 | Uses the open transaction, or opens one for the statement with a BEGIN record, from which on the present rows can be restored. |
| `Engine.Database.UndoRecords` | pydb/transaction/txn.py:72-91 | Undoing the records last one first keeps every index in agreement and arrives at the rows of the start; no slot is lost. |
| `Engine.Database.UndoRecord` | pydb/transaction/txn.py:74-91 | Undoing one record marks one slot and updates every index of its table. |
| `Engine.Database.AddIndexEntries` | pydb/transaction/txn.py:94-110 | All indexes of a table take up a row that became visible, and the catalog follows their roots. |
| `Engine.Database.RemoveIndexEntries` | pydb/transaction/txn.py:113-125 | All indexes of a table drop a row that disappeared. |
| `Engine.Database.IndexInsert` | pydb/sql/executor.py:74-77 | The pointer is appended in one index, whose new root goes into the catalog; no other structure changes. |
| `Engine.Database.IndexDelete` | pydb/sql/executor.py:141-145 | The pointer is removed from one index; the catalog keeps its old root page, which is still the root of a tree iff the guard TreeShrinks did not hold before the call; if it is not, the pages are those that StaleRoots is about. |
| `Engine.Database.HeapInsert` | pydb/sql/executor.py:65 | An insertion into one heap changes no other heap, no index and no catalog entry. |
| `Engine.Database.CreateTable` | pydb/sql/executor.py:44-48 | Accepted iff the table name is new and not empty and there are columns, with names that are neither empty nor repeated; then a new empty table without indexes is added, otherwise no table changes. Every statement with good columns, also one that is refused for its name, costs one page. |
| `Engine.RerootedSame` | pydb/catalog.py:80-93 | When a new root page is stored, the named index has it and keeps its name and column; all other entries of the catalog are as before. |
| `Engine.Database.Insert` | pydb/sql/executor.py:50-86 | Accepted iff the table exists and the row can be stored; exactly one live row is added under a pointer never used before, every index agrees, an open transaction stays open and undoable, and the log grows by the one INSERT record, between BEGIN and COMMIT if no transaction was open. A refusal names the missing table or the fault of the row; a refused row leaves BEGIN and ROLLBACK in the log and uses up an id, unless a transaction was open or the table is missing. |
| `Engine.InsertAcceptedIff` | pydb/types.py:36-44 | A row is accepted iff the table exists and there is one value per column, each an integer of 64 bits or a text of less than 2^32 bytes, as the column says. |
| `Engine.Database.Delete` | pydb/sql/executor.py:99-130 | Refused iff the table is missing, or there are rows and no column of the name or one of another type than the value; otherwise those rows are left, in the same order, whose value in the named column does not compare, in the table and all indexes; the number of the others is returned, and the log grows by one DELETE record for each of them, in scan order. The log of a refused statement is as for INSERT. |
| `Engine.Database.CreateIndex` | pydb/sql/executor.py:168-195 | Accepted iff the column exists, is an INT column and the name is new for the table; the new index, under its name, agrees with the table and no row changes; the reason of a refusal is the first that applies, and a name that is taken leaves the pages of the tree behind, any other refusal none. |
| `Engine.IndexAcceptedIff` | pydb/sql/executor.py:168-195 | Said over the names: the first column of the name has type INT, and no index of the table has the name of the new one. |
| `Engine.Database.BuildIndex` | pydb/sql/executor.py:179-187 | The new tree consists of new pages and stores exactly the live rows under their keys; no node is too large if there are at most six rows a key. |
| `Engine.Database.Select` | pydb/sql/executor.py:88-97 | Refused iff the table is missing, or there are rows and no column of the name or one of another type than the value; without a condition the rows returned are all live rows, and with one those whose value in the named column compares, in scan order when no index is used. |
| `Engine.RefusedIff` | pydb/sql/executor.py:226-245 | A query or deletion is refused iff there is a reason: the missing table, the missing column, or the type that differs, the last two only if the table has a row. |
| `Engine.Database.TryIndexedSelect` | pydb/sql/executor.py:198-223 | An index is used iff the condition is an equality with an integer on an indexed column, and then the rows are the multiset that the filtered scan gives. |
| `Engine.Database.Execute` | pydb/sql/executor.py:23-42 | Unless an index loses its root or a node overflows its page, each statement has its own effect and answer, and nothing else; every index agrees afterwards, no slot and no name in the catalog is lost and no abandoned page is used again. The first happens iff an index named in the catalog has no tree; the second does not happen while no key of an indexed column is carried by more than six live rows. |
| `Engine.Database.ExecuteAll` | pydb/sql/executor.py:23-42 | Over any run of statements, up to the first that makes an index lose its root or a node overflow, every step has its effect and in every state on the way every index agrees with its table. |
| `Runs.StaysOpen` | pydb/transaction/txn.py:19-51 | A transaction keeps its id, and its rollback goes back to the rows of its BEGIN, until a COMMIT or ROLLBACK closes it, whatever is executed in between. |
| `Runs.RollbackRestores` | docs/wal-recovery.md:27-32 | In any run, ROLLBACK gives every table exactly the live rows in the scan order it had before the BEGIN, and a table created since is empty. |
| `Runs.CommitIsFinal` | pydb/transaction/txn.py:29-45 | In any run, COMMIT changes no row, and from then on until the next BEGIN a ROLLBACK is refused and changes nothing. |
| `Runs.CatalogGrows` | pydb/catalog.py:50-93 | In any run tables keep their schema, and indexes keep their names, columns and order; none disappears. |
| `Runs.TableNamesTaken` | pydb/catalog.py:52-56 | After a CREATE TABLE that succeeded, another one for the name is refused for the rest of the run, also after a ROLLBACK. |
| `Runs.IndexNamesTaken` | pydb/catalog.py:65-68 | The same for the indexes of a table. |
| `Runs.PointersStay` | docs/storage-engine.md:53-55 | In any run a row pointer keeps naming the same row, through deletions and rollbacks. |
| `Runs.PointersAreNew` | pydb/storage/heap_file.py:49-73 | No two insertions of a run into one table get the same pointer, even if the first was rolled back. |
| `Runs.IndexesAreTransparent` | docs/bplus-tree.md:48-56 | The same query on the same rows finds the same multiset of rows with any set of indexes. |
| `Lexer.Tokenize` | pydb/sql/lexer.py:34-102 | The loop yields the tokens that the recursive definition of the token grammar gives for the text, with their positions, ending in one end-of-file token, or the position of the first character that starts no token. |
| `Lexer.ReadString` | pydb/sql/lexer.py:107-120 | A literal ends at its first single quote that is not doubled, and doubled quotes stand for one. |
| `Lexer.QuotedRead` | pydb/sql/lexer.py:107-120 | A text with its quotes doubled is read back. |
| `Lexer.SpellingRead` | pydb/sql/lexer.py:34-102 | A token that is followed by nothing that sticks to it is read back from its spelling. |
| `Lexer.CharactersAre` | pydb/sql/lexer.py:39-66 | White space, letters, digits and upper-casing by code point. |
| `Lexer.KeywordIff` | pydb/sql/lexer.py:21-26 | A word is a keyword iff it is one of sixteen words, written out, in any mixture of cases; its value is in capitals; every other word is a name as written. |
| `Lexer.FirstTokenIs` | pydb/sql/lexer.py:68-102 | The token of each punctuation character and operator, two characters before one, and the characters that start no token. |
| `Lexer.QuotesDoubled` | pydb/sql/lexer.py:107-120 | A single quote is written twice in a literal and every other character once. |
| `Lexer.TextRead` | pydb/sql/lexer.py:34-102 | Tokens written with any sufficient white space are read back in order. |
| `LexerTexts.LexIff` | pydb/sql/lexer.py:34-120 | A text breaks into given tokens iff it is one of the ways to write them: keywords in any case, everything else literally, quotes doubled in literals, and white space wherever a token would stick to the next. |
| `Parsing.Parser.ParseStatement` | pydb/sql/parser.py:20-37 | Returns a statement iff the whole token list, up to an optional semicolon, spells it; BEGIN, COMMIT and ROLLBACK are what the keyword of that text alone gives; the cursor never leaves the list. |
| `Parsing.Parser.ParseCreateTable` | pydb/sql/parser.py:47-59 | Returns the only CREATE TABLE statement that the tokens can spell, for a column list of any length. |
| `Parsing.Parser.ParseCreateIndex` | pydb/sql/parser.py:61-69 | Returns the only CREATE INDEX statement that the tokens can spell. |
| `Parsing.Parser.ParseInsert` | pydb/sql/parser.py:71-85 | Returns the only INSERT statement that the tokens can spell, for a value list of any length, also an empty one. |
| `Parsing.Parser.ParseSelect` | pydb/sql/parser.py:87-93 | Returns the only SELECT statement that the tokens can spell, with or without a condition. |
| `Parsing.Parser.ParseDelete` | pydb/sql/parser.py:95-102 | Returns the only DELETE statement that the tokens can spell; the condition is required. |
| `Parsing.Parser.ParseTransaction` | pydb/sql/parser.py:104-107 | Returns begin, commit or rollback iff the token is the keyword BEGIN, COMMIT or ROLLBACK. |
| `Parsing.CommandsSpelled` | pydb/sql/parser.py:104-107 | The token lists that open, commit or undo a transaction are the keyword BEGIN, COMMIT or ROLLBACK and the end, with or without a semicolon. |
| `Parsing.Parser.ParseOptionalWhere` | pydb/sql/parser.py:109-117 | Reads a condition iff the next token is the keyword WHERE. |
| `Parsing.Parser.ParseColumnType` | pydb/sql/parser.py:119-127 | Reads INT or TEXT by the text of the token alone, so a string literal of that text is accepted too. |
| `Parsing.Parser.ParseValue` | pydb/sql/parser.py:129-137 | Reads an integer or string literal and nothing else. |
| `Parsing.Parser.Expect` | pydb/sql/parser.py:139-181 | Advances by one token iff it is of the kind asked for. |
| `SqlText.Parse` | pydb/sql/parser.py:9-12 | Parsing a text returns a statement iff the tokens of the text spell it. |
| `Grammar.BodyIff` | pydb/sql/parser.py:20-181 | Tokens spell a statement iff they are a phrase of the grammar, which is given by lists of words with all keywords, operators, type names and punctuation written out. |
| `Grammar.ParsedIff` | pydb/sql/parser.py:9-37 | A text is parsed as a statement iff it is a phrase for it, written with any white space, keywords in any case, quotes doubled and at most one semicolon at the end. |
| `Grammar.CommandTexts` | pydb/sql/parser.py:104-107 | The texts BEGIN, COMMIT and ROLLBACK, in capitals or small letters, with any white space, with or without a semicolon, are parsed as these commands. |
| `SqlText.PrintParse` | pydb/sql/parser.py:9-37 | Every statement with identifiers that are not keywords is parsed back from its canonical text. |
| `SqlText.SpacedOutSpells` | pydb/sql/parser.py:9-37 | White space between tokens and a final semicolon do not change what is parsed. |
| `SqlText.SchemaForParses` | pydb/db.py:35-39 | What schema_for prints for a table parses as the CREATE TABLE statement of the table. |
| `SqlText.ColumnsJoined` | pydb/db.py:35-39 | The column list that schema_for prints: each name with INT or TEXT, and a comma and a space between columns. |

## Left out

- BPlusTrees.BPlusTree.WriteNode: the size error is a flag; the model writes the node and goes on, where the code stops in the middle of the operation, and what it leaves behind then is not modelled.
- BPlusTrees.BPlusTree.Insert: the JSON text of a node is modelled by its length only; reading a page back is taken to give the node that was written, and a node read by a method is a value of its own, as a freshly decoded node is in the code.
- HeapFiles.HeapFile.Insert: rows whose record is longer than 4079 bytes are excluded, because the loop does not end on them; page numbers stay below 0xFFFFFFFF, the number that means no page.
- HeapFiles.HeapFile.Create: as for Insert, page numbers stay below 0xFFFFFFFF.
- HeapFiles.HeapFile.Get: the pointer's page must be one of the heap's own pages, as it is for every pointer in an index or in the log; a pointer into another table's page is not modelled.
- HeapFiles.HeapFile.Delete: as for Get, the pointer's page must belong to the heap.
- HeapFiles.HeapFile.Restore: as for Get, the pointer's page must belong to the heap.
- Engine.Database.Commit: flushing the pool at the end of a transaction is not part of the engine's model; the engine works on the page file, and the pool is proved separately to give the same contents.
- Engine.Database.Rollback: nothing is promised once an index has lost its root on the way, except that it has.
- Engine.Database.Delete: as for Rollback.
- Engine.Database.CreateIndex: the scan of the table is completed before the first pointer is inserted, where the code interleaves the two; the new tree has pages of its own, so the scan reads the same.
- BPlusTrees.BPlusTree.Delete: which node of the resulting tree is too large is told from that tree, not from the old one.
- Engine.Database.Execute: nothing is promised after an index has lost its root or a node has overflowed; a refused statement is answered with its reason, but the message text is not modelled.
- Engine.Database.ExecuteAll: a run ends when an index loses its root, when a node overflows, and when the page numbers are used up.
- StaleAnswers.AnswersAfterRollback: speaks of one deletion that moves the root and the insertion that undoes it, not of what other statements do to the index in between.
- BufferPools.BufferPool.FetchPage: page ids at or beyond the page count are excluded; the empty page that the code makes up for the first id past the end of the file, and the error for the ids behind it, are not modelled.
- Lexer.Tokenize: letters, digits and upper-casing are those of ASCII, and so is white space.
- Statements.OperatorsOfOneOrder: a boolean does not occur as a value, although it is an integer in Python.
- Utf8.EncodeDecode: texts are sequences of Unicode scalar values, so a lone surrogate does not occur.
- The JSON text of the catalog, its size limit and its page 0; the catalog is a map from table name to schema, first page and indexes, and page 0 is only proved never to be used by a heap or a tree.
- The file of the log, its JSON lines and fsync; the log is a sequence of records.
- Recovery when a file is opened (`pydb/transaction/recovery.py`): it inserts committed rows again whose slots are dead, so the usual recovery theorem does not hold of it; only its undo pass is covered, by `TxnLog`.
- File access of the pager, and pages damaged from outside.
- The command line, result formatting and message texts.
