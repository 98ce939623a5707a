/** All heaps and trees that share one page file, and why they do not get into each other's way. */
module Parts {
  import opened Storage
  import opened EntryList
  import opened TreeModel
  import opened TreePath
  import opened HeapModel
  import opened HeapFiles
  import opened Records
  import opened NodeFit

  datatype PartKey = HeapKey(table: string) | TreeKey(table: string, index: nat)

  /** One structure in the file: the heap of a table or the tree of an index. */
  datatype Part =
    | HeapPart(schema: Schema, first: PageId, chain: seq<HeapPage>)
    | TreePart(root: PageId, tree: Tree, height: nat, lo: int, hi: int)

  ghost predicate PartInv(s: seq<PageData>, part: Part) {
    match part
    case HeapPart(schema, first, hs) => HeapInv(s, schema, first, hs)
    case TreePart(root, t, h, lo, hi) => TreeInv(s, root, t, h, lo, hi) && KeyRange(lo, hi)
  }

  ghost function PartIds(part: Part): set<PageId> {
    match part
    case HeapPart(_, _, hs) => HeapIds(hs)
    case TreePart(_, t, _, _, _) => set x | x in Ids(t)
  }

  /** Every structure is well formed, and no page belongs to two of them. */
  ghost predicate PartsInv(s: seq<PageData>, parts: map<PartKey, Part>) {
    && (forall k :: k in parts ==> PartInv(s, parts[k]))
    && (forall j, k :: j in parts && k in parts && j != k ==> PartIds(parts[j]) !! PartIds(parts[k]))
  }

  /** The pages in use. */
  ghost predicate InUse(parts: map<PartKey, Part>, x: PageId) {
    exists k :: k in parts && x in PartIds(parts[k])
  }

  /** A page that was allocated but out of use stays out of use. */
  ghost predicate NoReuse(s: seq<PageData>, parts: map<PartKey, Part>, parts': map<PartKey, Part>) {
    forall x :: 0 <= x < |s| && InUse(parts', x) ==> InUse(parts, x)
  }

  lemma NoReuseTrans(s: seq<PageData>, s': seq<PageData>, parts: map<PartKey, Part>, parts': map<PartKey, Part>, parts'': map<PartKey, Part>)
    requires NoReuse(s, parts, parts') && NoReuse(s', parts', parts'') && |s| <= |s'|
    ensures NoReuse(s, parts, parts'')
  {
  }

  lemma PartAllocated(s: seq<PageData>, part: Part)
    requires PartInv(s, part)
    ensures forall x :: x in PartIds(part) ==> x < |s|
  {
    match part
    case HeapPart(_, _, hs) =>
      forall x | x in HeapIds(hs) ensures x < |s| {
        var i :| 0 <= i < |hs| && hs[i].id == x;
        assert PageRep(s, hs, i);
      }
    case TreePart(_, t, _, _, _) =>
      IdsAllocated(s, t);
  }

  /** A structure whose pages are untouched stays well formed. */
  lemma PartFrame(s: seq<PageData>, s': seq<PageData>, part: Part)
    requires PartInv(s, part) && |s| <= |s'|
    requires forall x :: x in PartIds(part) && x < |s| ==> s'[x] == s[x]
    ensures PartInv(s', part)
  {
    match part
    case HeapPart(schema, first, hs) => HeapFrame(s, s', schema, first, hs);
    case TreePart(_, t, _, _, _) => RepFrame(s, s', t);
  }

  /** An operation on one structure that writes only its own pages and new ones. */
  lemma PartReplaced(s: seq<PageData>, s': seq<PageData>, parts: map<PartKey, Part>, k: PartKey, part: Part)
    requires PartsInv(s, parts) && k in parts && PartInv(s', part)
    requires Foreign(s, s', PartIds(parts[k]))
    requires forall x :: x in PartIds(part) ==> x in PartIds(parts[k]) || |s| <= x
    ensures PartsInv(s', parts[k := part]) && NoReuse(s, parts, parts[k := part])
  {
    var parts' := parts[k := part];
    hide PartInv, PartIds;
    forall j | j in parts' ensures PartInv(s', parts'[j]) {
      if j != k {
        PartFrame(s, s', parts[j]);
      }
    }
    forall i, j | i in parts' && j in parts' && i != j ensures PartIds(parts'[i]) !! PartIds(parts'[j]) {
      PartAllocated(s, parts[i]);
      PartAllocated(s, parts[j]);
    }
    forall x | 0 <= x < |s| && InUse(parts', x) ensures InUse(parts, x) {
      var j :| j in parts' && x in PartIds(parts'[j]);
      assert j in parts && x in PartIds(parts[j]);
    }
  }

  /** A structure built from new pages only. */
  lemma PartAdded(s: seq<PageData>, s': seq<PageData>, parts: map<PartKey, Part>, k: PartKey, part: Part)
    requires PartsInv(s, parts) && k !in parts && PartInv(s', part) && s <= s'
    requires forall x :: x in PartIds(part) ==> |s| <= x
    ensures PartsInv(s', parts[k := part]) && NoReuse(s, parts, parts[k := part])
  {
    var parts' := parts[k := part];
    hide PartInv, PartIds;
    forall j | j in parts' ensures PartInv(s', parts'[j]) {
      if j != k {
        PartFrame(s, s', parts[j]);
      }
    }
    forall i, j | i in parts' && j in parts' && i != j ensures PartIds(parts'[i]) !! PartIds(parts'[j]) {
      if i != k { PartAllocated(s, parts[i]); }
      if j != k { PartAllocated(s, parts[j]); }
    }
    forall x | 0 <= x < |s| && InUse(parts', x) ensures InUse(parts, x) {
      var j :| j in parts' && x in PartIds(parts'[j]);
      assert j in parts && x in PartIds(parts[j]);
    }
  }

  /** Pages appended to the file for nobody disturb nobody. */
  lemma PartsKept(s: seq<PageData>, s': seq<PageData>, parts: map<PartKey, Part>)
    requires PartsInv(s, parts) && s <= s'
    ensures PartsInv(s', parts)
  {
    hide PartInv, PartIds;
    forall j | j in parts ensures PartInv(s', parts[j]) {
      PartFrame(s, s', parts[j]);
    }
  }

  // ---------- The catalog and what it describes ----------

  datatype IndexMeta = IndexMeta(name: string, column: string, root: PageId)

  datatype TableMeta = TableMeta(schema: Schema, firstPage: PageId, indexes: seq<IndexMeta>)

  /** A table as its statements see it. */
  datatype TableView = TableView(schema: Schema, columns: seq<string>, items: seq<Item>, maps: seq<map<int, seq<RowPointer>>>)

  ghost predicate TableLinked(meta: TableMeta, n: string, parts: map<PartKey, Part>) {
    && HeapKey(n) in parts && parts[HeapKey(n)].HeapPart?
    && parts[HeapKey(n)].schema == meta.schema && parts[HeapKey(n)].first == meta.firstPage
    && forall i :: 0 <= i < |meta.indexes| ==> IndexLinked(meta.indexes[i], n, i, parts)
  }

  ghost predicate IndexLinked(index: IndexMeta, n: string, i: nat, parts: map<PartKey, Part>) {
    TreeKey(n, i) in parts && parts[TreeKey(n, i)].TreePart? && parts[TreeKey(n, i)].root == index.root
  }

  /** The catalog names exactly the structures in the file. */
  ghost predicate Linked(tables: map<string, TableMeta>, parts: map<PartKey, Part>) {
    && (forall n :: n in tables ==> TableLinked(tables[n], n, parts))
    && (forall k :: k in parts ==> k.table in tables && (k.TreeKey? ==> k.index < |tables[k.table].indexes|))
  }

  function NamesOf(indexes: seq<IndexMeta>): (r: seq<string>)
    ensures |r| == |indexes| && forall i :: 0 <= i < |indexes| ==> r[i] == indexes[i].name
  {
    seq(|indexes|, i requires 0 <= i < |indexes| => indexes[i].name)
  }

  function ColumnsOf(indexes: seq<IndexMeta>): (r: seq<string>)
    ensures |r| == |indexes| && forall i :: 0 <= i < |r| ==> r[i] == indexes[i].column
  {
    seq(|indexes|, i requires 0 <= i < |indexes| => indexes[i].column)
  }

  ghost function MapsOf(meta: TableMeta, n: string, parts: map<PartKey, Part>): (r: seq<map<int, seq<RowPointer>>>)
    requires TableLinked(meta, n, parts)
    ensures |r| == |meta.indexes|
    ensures forall i :: 0 <= i < |r| ==> IndexLinked(meta.indexes[i], n, i, parts) && r[i] == Contents(Entries(parts[TreeKey(n, i)].tree))
  {
    seq(|meta.indexes|, i requires 0 <= i < |meta.indexes| =>
      assert IndexLinked(meta.indexes[i], n, i, parts); Contents(Entries(parts[TreeKey(n, i)].tree)))
  }

  ghost function ViewOf(meta: TableMeta, n: string, parts: map<PartKey, Part>): TableView
    requires TableLinked(meta, n, parts)
  {
    TableView(meta.schema, ColumnsOf(meta.indexes), Items(meta.schema, parts[HeapKey(n)].chain), MapsOf(meta, n, parts))
  }

  ghost function Views(tables: map<string, TableMeta>, parts: map<PartKey, Part>): (v: map<string, TableView>)
    requires Linked(tables, parts)
    ensures v.Keys == tables.Keys
    ensures forall n :: n in tables ==> TableLinked(tables[n], n, parts) && v[n] == ViewOf(tables[n], n, parts)
  {
    map n | n in tables :: ViewOf(tables[n], n, parts)
  }

  // ---------- What a change to one structure means for the views ----------

  /** Table `n` has the same structures in both files. */
  ghost predicate SameParts(n: string, parts: map<PartKey, Part>, parts': map<PartKey, Part>) {
    forall k :: k in parts && k.table == n ==> k in parts' && parts'[k] == parts[k]
  }

  lemma SameView(meta: TableMeta, n: string, parts: map<PartKey, Part>, parts': map<PartKey, Part>)
    requires TableLinked(meta, n, parts) && SameParts(n, parts, parts')
    ensures TableLinked(meta, n, parts') && ViewOf(meta, n, parts') == ViewOf(meta, n, parts)
  {
    forall i | 0 <= i < |meta.indexes| ensures IndexLinked(meta.indexes[i], n, i, parts') {
      assert IndexLinked(meta.indexes[i], n, i, parts);
    }
    assert MapsOf(meta, n, parts') == MapsOf(meta, n, parts);
  }

  /** One table changed, the others did not. */
  lemma OneViewChanged(tables: map<string, TableMeta>, parts: map<PartKey, Part>, tables': map<string, TableMeta>, parts': map<PartKey, Part>,
                       n: string, v: TableView)
    requires Linked(tables, parts) && tables'.Keys == tables.Keys + {n}
    requires TableLinked(tables'[n], n, parts') && ViewOf(tables'[n], n, parts') == v
    requires forall m :: m in tables && m != n ==> tables'[m] == tables[m] && SameParts(m, parts, parts')
    requires forall k :: k in parts' ==> k.table in tables' && (k.TreeKey? ==> k.index < |tables'[k.table].indexes|)
    ensures Linked(tables', parts') && Views(tables', parts') == Views(tables, parts)[n := v]
  {
    hide TableLinked, ViewOf, SameParts;
    assert forall m :: m in tables' <==> m in tables || m == n;
    forall m | m in tables' && m != n ensures TableLinked(tables'[m], m, parts') && ViewOf(tables'[m], m, parts') == ViewOf(tables[m], m, parts) {
      SameView(tables[m], m, parts, parts');
    }
    assert Linked(tables', parts');
    SameMaps(Views(tables', parts'), Views(tables, parts), n, v);
  }

  lemma SameMaps(a: map<string, TableView>, b: map<string, TableView>, n: string, v: TableView)
    requires a.Keys == b.Keys + {n} && a[n] == v && forall m :: m in b && m != n ==> a[m] == b[m]
    ensures a == b[n := v]
  {
  }

  /** Another content for one structure of table `n`. */
  lemma OthersSame(tables: map<string, TableMeta>, parts: map<PartKey, Part>, k: PartKey, part: Part)
    requires Linked(tables, parts) && k.table in tables && (k.TreeKey? ==> k.index < |tables[k.table].indexes|)
    ensures TableLinked(tables[k.table], k.table, parts)
    ensures var parts' := parts[k := part];
      && (forall m :: m in tables && m != k.table ==> SameParts(m, parts, parts'))
      && forall j :: j in parts' ==> j.table in tables && (j.TreeKey? ==> j.index < |tables[j.table].indexes|)
  {
    hide TableLinked;
  }

  lemma HeapChanged(tables: map<string, TableMeta>, parts: map<PartKey, Part>, n: string, hs: seq<HeapPage>)
    requires Linked(tables, parts) && n in tables
    ensures TableLinked(tables[n], n, parts)
    ensures var parts' := parts[HeapKey(n) := HeapPart(tables[n].schema, tables[n].firstPage, hs)];
      && Linked(tables, parts')
      && Views(tables, parts') == Views(tables, parts)[n := ViewOf(tables[n], n, parts).(items := Items(tables[n].schema, hs))]
  {
    var meta := tables[n];
    var parts' := parts[HeapKey(n) := HeapPart(meta.schema, meta.firstPage, hs)];
    OthersSame(tables, parts, HeapKey(n), parts'[HeapKey(n)]);
    hide Linked, TableLinked, ViewOf, SameParts;
    HeapView(meta, n, parts, hs);
    OneViewChanged(tables, parts, tables, parts', n, ViewOf(meta, n, parts').(items := Items(meta.schema, hs)));
  }

  lemma HeapView(meta: TableMeta, n: string, parts: map<PartKey, Part>, hs: seq<HeapPage>)
    requires TableLinked(meta, n, parts)
    ensures var parts' := parts[HeapKey(n) := HeapPart(meta.schema, meta.firstPage, hs)];
      TableLinked(meta, n, parts') && ViewOf(meta, n, parts') == ViewOf(meta, n, parts).(items := Items(meta.schema, hs))
  {
    var parts' := parts[HeapKey(n) := HeapPart(meta.schema, meta.firstPage, hs)];
    forall i | 0 <= i < |meta.indexes| ensures IndexLinked(meta.indexes[i], n, i, parts') {
      assert IndexLinked(meta.indexes[i], n, i, parts);
    }
    assert MapsOf(meta, n, parts') == MapsOf(meta, n, parts);
  }

  /** The catalog with another root page for one index. */
  function Rerooted(tables: map<string, TableMeta>, n: string, i: nat, root: PageId): map<string, TableMeta>
    requires n in tables && i < |tables[n].indexes|
  {
    var meta := tables[n];
    tables[n := meta.(indexes := meta.indexes[i := meta.indexes[i].(root := root)])]
  }

  lemma TreeChanged(tables: map<string, TableMeta>, parts: map<PartKey, Part>, n: string, i: nat, part: Part)
    requires Linked(tables, parts) && n in tables && i < |tables[n].indexes| && part.TreePart?
    ensures TableLinked(tables[n], n, parts)
    ensures var parts', tables' := parts[TreeKey(n, i) := part], Rerooted(tables, n, i, part.root);
      && Linked(tables', parts')
      && var v := ViewOf(tables[n], n, parts);
         Views(tables', parts') == Views(tables, parts)[n := v.(maps := v.maps[i := Contents(Entries(part.tree))])]
  {
    var parts', tables' := parts[TreeKey(n, i) := part], Rerooted(tables, n, i, part.root);
    OthersSame(tables, parts, TreeKey(n, i), part);
    hide Linked, TableLinked, ViewOf, SameParts, EntryList.Contents, Entries;
    TreeView(tables[n], n, parts, i, part);
    var v := ViewOf(tables[n], n, parts);
    OneViewChanged(tables, parts, tables', parts', n, v.(maps := v.maps[i := Contents(Entries(part.tree))]));
  }

  lemma TreeView(meta: TableMeta, n: string, parts: map<PartKey, Part>, i: nat, part: Part)
    requires TableLinked(meta, n, parts) && i < |meta.indexes| && part.TreePart?
    ensures var meta' := meta.(indexes := meta.indexes[i := meta.indexes[i].(root := part.root)]);
      var parts', v := parts[TreeKey(n, i) := part], ViewOf(meta, n, parts);
      && TableLinked(meta', n, parts')
      && ViewOf(meta', n, parts') == v.(maps := v.maps[i := Contents(Entries(part.tree))])
  {
    var meta' := meta.(indexes := meta.indexes[i := meta.indexes[i].(root := part.root)]);
    var parts' := parts[TreeKey(n, i) := part];
    forall j | 0 <= j < |meta'.indexes| ensures IndexLinked(meta'.indexes[j], n, j, parts') {
      assert IndexLinked(meta.indexes[j], n, j, parts);
    }
    assert ColumnsOf(meta'.indexes) == ColumnsOf(meta.indexes);
    assert MapsOf(meta', n, parts') == MapsOf(meta, n, parts)[i := Contents(Entries(part.tree))];
  }

  /** A new index at the end of the list of a table. */
  lemma TreeAppended(tables: map<string, TableMeta>, parts: map<PartKey, Part>, n: string, index: IndexMeta, part: Part)
    requires Linked(tables, parts) && n in tables && part.TreePart? && part.root == index.root
    ensures TableLinked(tables[n], n, parts) && TreeKey(n, |tables[n].indexes|) !in parts
    ensures var meta, parts' := tables[n], parts[TreeKey(n, |tables[n].indexes|) := part];
      var tables', v := tables[n := meta.(indexes := meta.indexes + [index])], ViewOf(meta, n, parts);
      && Linked(tables', parts')
      && Views(tables', parts') ==
         Views(tables, parts)[n := v.(columns := v.columns + [index.column], maps := v.maps + [Contents(Entries(part.tree))])]
  {
    var meta, parts' := tables[n], parts[TreeKey(n, |tables[n].indexes|) := part];
    var tables' := tables[n := meta.(indexes := meta.indexes + [index])];
    assert TreeKey(n, |meta.indexes|) !in parts;
    AppendedView(meta, n, parts, index, part);
    var v := ViewOf(meta, n, parts);
    hide ViewOf;
    OneViewChanged(tables, parts, tables', parts', n,
                   v.(columns := v.columns + [index.column], maps := v.maps + [Contents(Entries(part.tree))]));
  }

  lemma AppendedView(meta: TableMeta, n: string, parts: map<PartKey, Part>, index: IndexMeta, part: Part)
    requires TableLinked(meta, n, parts) && part.TreePart? && part.root == index.root && TreeKey(n, |meta.indexes|) !in parts
    ensures var meta' := meta.(indexes := meta.indexes + [index]);
      var parts', v := parts[TreeKey(n, |meta.indexes|) := part], ViewOf(meta, n, parts);
      && TableLinked(meta', n, parts')
      && ViewOf(meta', n, parts') == v.(columns := v.columns + [index.column], maps := v.maps + [Contents(Entries(part.tree))])
  {
    var meta', parts' := meta.(indexes := meta.indexes + [index]), parts[TreeKey(n, |meta.indexes|) := part];
    forall j | 0 <= j < |meta'.indexes| ensures IndexLinked(meta'.indexes[j], n, j, parts') {
      assert j < |meta.indexes| ==> IndexLinked(meta.indexes[j], n, j, parts);
    }
    assert ColumnsOf(meta'.indexes) == ColumnsOf(meta.indexes) + [index.column];
    assert MapsOf(meta', n, parts') == MapsOf(meta, n, parts) + [Contents(Entries(part.tree))];
  }

  /** A new table with an empty heap. */
  lemma TableAdded(tables: map<string, TableMeta>, parts: map<PartKey, Part>, n: string, meta: TableMeta, part: Part)
    requires Linked(tables, parts) && n !in tables && meta.indexes == []
    requires part.HeapPart? && part.schema == meta.schema && part.first == meta.firstPage
    ensures HeapKey(n) !in parts
    ensures var tables', parts' := tables[n := meta], parts[HeapKey(n) := part];
      && Linked(tables', parts')
      && Views(tables', parts') == Views(tables, parts)[n := TableView(meta.schema, [], Items(meta.schema, part.chain), [])]
  {
    var tables', parts' := tables[n := meta], parts[HeapKey(n) := part];
    assert TableLinked(meta, n, parts');
    OneViewChanged(tables, parts, tables', parts', n, ViewOf(meta, n, parts'));
  }
}
