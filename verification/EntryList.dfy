/** Sorted lists of index entries, and the map from key to row pointers they stand for. */
module EntryList {
  import opened Storage

  /** One key with the pointers of the rows that carry it. */
  datatype Entry = Entry(key: int, ptrs: seq<RowPointer>)

  function Keys(es: seq<Entry>): (ks: seq<int>)
    ensures |ks| == |es|
    ensures forall i :: 0 <= i < |es| ==> ks[i] == es[i].key
  {
    seq(|es|, i requires 0 <= i < |es| => es[i].key)
  }

  function Vals(es: seq<Entry>): (vs: seq<seq<RowPointer>>)
    ensures |vs| == |es|
    ensures forall i :: 0 <= i < |es| ==> vs[i] == es[i].ptrs
  {
    seq(|es|, i requires 0 <= i < |es| => es[i].ptrs)
  }

  lemma KeysConcat(a: seq<Entry>, e: Entry, b: seq<Entry>)
    ensures Keys(a + [e] + b) == Keys(a) + [e.key] + Keys(b)
    ensures Vals(a + [e] + b) == Vals(a) + [e.ptrs] + Vals(b)
  {
  }

  lemma KeysPrefix(es: seq<Entry>, i: nat)
    requires i <= |es|
    ensures Keys(es[..i]) == Keys(es)[..i] && Vals(es[..i]) == Vals(es)[..i]
  {
  }

  lemma KeysSuffix(es: seq<Entry>, i: nat)
    requires i <= |es|
    ensures Keys(es[i..]) == Keys(es)[i..] && Vals(es[i..]) == Vals(es)[i..]
  {
  }

  ghost predicate Increasing(ks: seq<int>) {
    forall i, j :: 0 <= i < j < |ks| ==> ks[i] < ks[j]
  }

  ghost predicate Sorted(es: seq<Entry>) {
    forall i, j :: 0 <= i < j < |es| ==> es[i].key < es[j].key
  }

  ghost predicate Within(es: seq<Entry>, lo: int, hi: int) {
    forall i :: 0 <= i < |es| ==> lo <= es[i].key < hi
  }

  ghost predicate NoneEmpty(es: seq<Entry>) {
    forall i :: 0 <= i < |es| ==> es[i].ptrs != []
  }

  ghost predicate AllBelow(es: seq<Entry>, k: int) {
    forall i :: 0 <= i < |es| ==> es[i].key < k
  }

  ghost predicate AllAbove(es: seq<Entry>, k: int) {
    forall i :: 0 <= i < |es| ==> k < es[i].key
  }

  /** The map view of an entry list. */
  function Contents(es: seq<Entry>): map<int, seq<RowPointer>> {
    if es == [] then map[] else Contents(es[1..])[es[0].key := es[0].ptrs]
  }

  function Lookup(m: map<int, seq<RowPointer>>, k: int): seq<RowPointer> {
    if k in m then m[k] else []
  }

  /** Drops the first occurrence of `p`, as list removal does. */
  function RemoveFirst(ps: seq<RowPointer>, p: RowPointer): seq<RowPointer> {
    if ps == [] then []
    else if ps[0] == p then ps[1..]
    else [ps[0]] + RemoveFirst(ps[1..], p)
  }

  lemma {:induction false} RemoveFirstOne(ps: seq<RowPointer>, p: RowPointer)
    ensures multiset(RemoveFirst(ps, p)) == multiset(ps) - multiset{p}
  {
    if ps != [] {
      assert ps == [ps[0]] + ps[1..];
      RemoveFirstOne(ps[1..], p);
    }
  }

  lemma {:induction false} RemoveFirstLength(ps: seq<RowPointer>, p: RowPointer)
    ensures |RemoveFirst(ps, p)| == if p in ps then |ps| - 1 else |ps|
  {
    if ps != [] {
      assert ps == [ps[0]] + ps[1..];
      RemoveFirstLength(ps[1..], p);
    }
  }

  /** It is the first occurrence that goes; the rest keeps its order. */
  lemma {:induction false} RemoveFirstAt(ps: seq<RowPointer>, p: RowPointer, i: nat)
    requires i < |ps| && ps[i] == p && forall j :: 0 <= j < i ==> ps[j] != p
    ensures var r := RemoveFirst(ps, p);
      && |r| == |ps| - 1
      && (forall j :: 0 <= j < i ==> r[j] == ps[j])
      && (forall j :: i <= j < |r| ==> r[j] == ps[j + 1])
    decreases i
  {
    if i > 0 {
      RemoveFirstAt(ps[1..], p, i - 1);
    }
  }

  /** Map append: what inserting one pointer means. */
  function Added(m: map<int, seq<RowPointer>>, k: int, p: RowPointer): map<int, seq<RowPointer>> {
    m[k := Lookup(m, k) + [p]]
  }

  /** Map removal: what deleting one pointer means; the key goes with its last pointer. */
  function Removed(m: map<int, seq<RowPointer>>, k: int, p: RowPointer): map<int, seq<RowPointer>> {
    if p !in Lookup(m, k) then m
    else
      var rest := RemoveFirst(m[k], p);
      if rest == [] then m - {k} else m[k := rest]
  }

  lemma {:induction false} ContentsKey(es: seq<Entry>, k: int)
    ensures k in Contents(es) <==> exists i :: 0 <= i < |es| && es[i].key == k
  {
    if es != [] {
      ContentsKey(es[1..], k);
      if k in Contents(es[1..]) {
        var i :| 0 <= i < |es[1..]| && es[1..][i].key == k;
        assert es[i + 1].key == k;
      }
      if i :| 0 <= i < |es| && es[i].key == k && i > 0 {
        assert es[1..][i - 1].key == k;
      } else if exists i :: 0 <= i < |es| && es[i].key == k {
        assert es[0].key == k;
      }
    }
  }

  lemma {:induction false} ContentsConcat(a: seq<Entry>, b: seq<Entry>)
    ensures Contents(a + b) == Contents(b) + Contents(a)
  {
    if a == [] {
      assert a + b == b;
    } else {
      assert (a + b)[1..] == a[1..] + b;
      ContentsConcat(a[1..], b);
    }
  }

  lemma ContentsSplit(a: seq<Entry>, e: Entry, b: seq<Entry>)
    requires AllBelow(a, e.key) && AllAbove(b, e.key)
    ensures Contents(a + [e] + b) == (Contents(b) + Contents(a))[e.key := e.ptrs]
    ensures e.key !in Contents(b) + Contents(a)
  {
    ContentsOne(e);
    ContentsKey(a, e.key);
    ContentsKey(b, e.key);
    hide Contents;
    ContentsConcat(a + [e], b);
    ContentsConcat(a, [e]);
    OverrideOne(Contents(b), e.key, e.ptrs, Contents(a));
  }

  lemma ContentsOne(e: Entry)
    ensures Contents([e]) == map[e.key := e.ptrs]
  {
    assert [e][1..] == [];
  }

  lemma OverrideOne(b: map<int, seq<RowPointer>>, k: int, v: seq<RowPointer>, a: map<int, seq<RowPointer>>)
    requires k !in a
    ensures b + (map[k := v] + a) == (b + a)[k := v]
  {
  }

  /** `k` does not occur: a new entry appears at its place. */
  lemma AddedNew(a: seq<Entry>, b: seq<Entry>, k: int, p: RowPointer)
    requires AllBelow(a, k) && AllAbove(b, k)
    ensures Contents(a + [Entry(k, [p])] + b) == Added(Contents(a + b), k, p)
  {
    ContentsSplit(a, Entry(k, [p]), b);
    ContentsConcat(a, b);
    assert [] + [p] == [p];
  }

  /** `k` occurs: its pointer list grows. */
  lemma AddedOld(a: seq<Entry>, ps: seq<RowPointer>, b: seq<Entry>, k: int, p: RowPointer)
    requires AllBelow(a, k) && AllAbove(b, k)
    ensures Contents(a + [Entry(k, ps + [p])] + b) == Added(Contents(a + [Entry(k, ps)] + b), k, p)
  {
    ContentsSplit(a, Entry(k, ps + [p]), b);
    ContentsSplit(a, Entry(k, ps), b);
  }

  /** The entry kept or dropped when `p` is taken out of it. */
  function Shrunk(e: Entry, p: RowPointer): seq<Entry> {
    var rest := RemoveFirst(e.ptrs, p);
    if rest == [] then [] else [Entry(e.key, rest)]
  }

  lemma RemovedAt(a: seq<Entry>, e: Entry, b: seq<Entry>, p: RowPointer)
    requires AllBelow(a, e.key) && AllAbove(b, e.key) && p in e.ptrs
    ensures Contents(a + Shrunk(e, p) + b) == Removed(Contents(a + [e] + b), e.key, p)
  {
    ContentsSplit(a, e, b);
    var rest := RemoveFirst(e.ptrs, p);
    var others := Contents(b) + Contents(a);
    if rest == [] {
      assert a + [] + b == a + b;
      ContentsConcat(a, b);
      MapDropAdded(others, e.key, e.ptrs);
    } else {
      ContentsSplit(a, Entry(e.key, rest), b);
      MapReplaceAdded(others, e.key, e.ptrs, rest);
    }
  }

  lemma MapDropAdded(m: map<int, seq<RowPointer>>, k: int, v: seq<RowPointer>)
    requires k !in m
    ensures m[k := v] - {k} == m
  {
  }

  lemma MapReplaceAdded(m: map<int, seq<RowPointer>>, k: int, v: seq<RowPointer>, w: seq<RowPointer>)
    ensures m[k := v][k := w] == m[k := w]
  {
  }

  lemma LookupAt(a: seq<Entry>, e: Entry, b: seq<Entry>)
    requires AllBelow(a, e.key) && AllAbove(b, e.key)
    ensures Lookup(Contents(a + [e] + b), e.key) == e.ptrs
  {
    ContentsSplit(a, e, b);
  }

  lemma LookupAbsent(a: seq<Entry>, b: seq<Entry>, k: int)
    requires AllBelow(a, k) && AllAbove(b, k)
    ensures Lookup(Contents(a + b), k) == []
  {
    ContentsConcat(a, b);
    ContentsKey(a, k);
    ContentsKey(b, k);
  }

  /** The position where `k` is, or should be: the number of keys below it. */
  function BisectLeft(ks: seq<int>, k: int): (i: nat)
    requires Increasing(ks)
    ensures i <= |ks|
    ensures forall j :: 0 <= j < i ==> ks[j] < k
    ensures forall j :: i <= j < |ks| ==> k <= ks[j]
  {
    if ks == [] then 0
    else if ks[|ks| - 1] < k then |ks|
    else BisectLeft(ks[..|ks| - 1], k)
  }

  /** The position after every key not above `k`. */
  function BisectRight(ks: seq<int>, k: int): (i: nat)
    requires Increasing(ks)
    ensures i <= |ks|
    ensures forall j :: 0 <= j < i ==> ks[j] <= k
    ensures forall j :: i <= j < |ks| ==> k < ks[j]
  {
    if ks == [] then 0
    else if ks[|ks| - 1] <= k then |ks|
    else BisectRight(ks[..|ks| - 1], k)
  }

  lemma BisectLeftUnique(ks: seq<int>, k: int, n: nat)
    requires Increasing(ks) && n <= |ks|
    requires forall j :: 0 <= j < n ==> ks[j] < k
    requires forall j :: n <= j < |ks| ==> k <= ks[j]
    ensures BisectLeft(ks, k) == n
  {
  }

  // ---------- Insertion into a sorted list ----------

  function InsertEntry(es: seq<Entry>, k: int, p: RowPointer): seq<Entry>
    requires Sorted(es)
  {
    var i := BisectLeft(Keys(es), k);
    if i < |es| && es[i].key == k then es[..i] + [Entry(k, es[i].ptrs + [p])] + es[i + 1..]
    else es[..i] + [Entry(k, [p])] + es[i..]
  }

  /** The two shapes of an insertion: entries `i..j` (none, or the one for `k`) make room for one entry. */
  lemma InsertEntryShape(es: seq<Entry>, k: int, p: RowPointer) returns (i: nat, ps: seq<RowPointer>, j: nat)
    requires Sorted(es)
    ensures i == BisectLeft(Keys(es), k) && i <= j <= |es|
    ensures AllBelow(es[..i], k) && AllAbove(es[j..], k)
    ensures InsertEntry(es, k, p) == es[..i] + [Entry(k, ps + [p])] + es[j..]
    ensures if j == i then ps == [] else j == i + 1 && es[i] == Entry(k, ps)
  {
    i := BisectLeft(Keys(es), k);
    KeysAround(es, i, k);
    hide BisectLeft, Keys;
    if i < |es| && es[i].key == k {
      ps, j := es[i].ptrs, i + 1;
    } else {
      ps, j := [], i;
      assert ps + [p] == [p];
    }
  }

  lemma KeysAround(es: seq<Entry>, i: nat, k: int)
    requires Sorted(es) && i == BisectLeft(Keys(es), k)
    ensures i <= |es| && AllBelow(es[..i], k)
    ensures if i < |es| && es[i].key == k then AllAbove(es[i + 1..], k) else AllAbove(es[i..], k)
  {
    assert forall j :: 0 <= j < |es| ==> Keys(es)[j] == es[j].key;
  }

  lemma InsertEntryContents(es: seq<Entry>, k: int, p: RowPointer)
    requires Sorted(es)
    ensures Contents(InsertEntry(es, k, p)) == Added(Contents(es), k, p)
  {
    hide *;
    var i, ps, j := InsertEntryShape(es, k, p);
    if j == i {
      assert es == es[..i] + es[i..];
      assert ps + [p] == [p];
      AddedNew(es[..i], es[i..], k, p);
    } else {
      assert es == es[..i] + [Entry(k, ps)] + es[j..];
      AddedOld(es[..i], ps, es[j..], k, p);
    }
  }

  lemma InsertEntryWF(es: seq<Entry>, k: int, p: RowPointer, lo: int, hi: int)
    requires Sorted(es) && Within(es, lo, hi) && NoneEmpty(es) && lo <= k < hi
    ensures var es' := InsertEntry(es, k, p);
      && Sorted(es') && Within(es', lo, hi) && NoneEmpty(es') && |es| <= |es'| <= |es| + 1
  {
    hide InsertEntry;
    var i, ps, j := InsertEntryShape(es, k, p);
    PartsWF(es, i, j, lo, hi);
    hide *;
    InsertedWF(es[..i], Entry(k, ps + [p]), es[j..], lo, hi);
  }

  lemma PartsWF(es: seq<Entry>, i: nat, j: nat, lo: int, hi: int)
    requires Sorted(es) && Within(es, lo, hi) && NoneEmpty(es) && i <= j <= |es|
    ensures Sorted(es[..i]) && Within(es[..i], lo, hi) && NoneEmpty(es[..i])
    ensures Sorted(es[j..]) && Within(es[j..], lo, hi) && NoneEmpty(es[j..])
  {
  }

  lemma InsertedWF(a: seq<Entry>, e: Entry, b: seq<Entry>, lo: int, hi: int)
    requires Sorted(a) && Sorted(b) && AllBelow(a, e.key) && AllAbove(b, e.key)
    requires Within(a, lo, hi) && Within(b, lo, hi) && lo <= e.key < hi
    requires NoneEmpty(a) && NoneEmpty(b) && e.ptrs != []
    ensures Sorted(a + [e] + b) && Within(a + [e] + b, lo, hi) && NoneEmpty(a + [e] + b)
  {
  }

  lemma DroppedWF(es: seq<Entry>, i: nat, lo: int, hi: int)
    requires i < |es| && Sorted(es) && Within(es, lo, hi) && NoneEmpty(es)
    ensures var es' := es[..i] + es[i + 1..]; Sorted(es') && Within(es', lo, hi) && NoneEmpty(es')
  {
  }

  lemma UpdatedWF(es: seq<Entry>, i: nat, ps: seq<RowPointer>, lo: int, hi: int)
    requires i < |es| && Sorted(es) && Within(es, lo, hi) && NoneEmpty(es) && ps != []
    ensures var es' := es[i := Entry(es[i].key, ps)]; Sorted(es') && Within(es', lo, hi) && NoneEmpty(es')
  {
  }

  /** Insertion happens in the part of the list whose range covers the key. */
  lemma InsertEntryLocal(a: seq<Entry>, es: seq<Entry>, b: seq<Entry>, k: int, p: RowPointer)
    requires AllBelow(a, k) && AllAbove(b, k) && Sorted(a + es + b) && Sorted(es)
    ensures InsertEntry(a + es + b, k, p) == a + InsertEntry(es, k, p) + b
  {
    hide *;
    var i, ps, j := InsertEntryShape(es, k, p);
    var n, qs, m := InsertEntryShape(a + es + b, k, p);
    BisectLocal(a, es, b, k);
    InsertShapeAgrees(a, es, b, k, i, ps, j, n, qs, m);
    InsertRegroup(a, es, b, Entry(k, ps + [p]), i, j);
  }

  lemma InsertRegroup(a: seq<Entry>, es: seq<Entry>, b: seq<Entry>, e: Entry, i: nat, j: nat)
    requires i <= j <= |es|
    ensures (a + es + b)[..|a| + i] + [e] + (a + es + b)[|a| + j..] == a + (es[..i] + [e] + es[j..]) + b
  {
    SliceTail(a, es, b, i);
    SliceTail(a, es, b, j);
    RegroupInsert(a, es[..i], e, es[j..], b);
  }

  lemma InsertShapeAgrees(a: seq<Entry>, es: seq<Entry>, b: seq<Entry>, k: int,
                          i: nat, ps: seq<RowPointer>, j: nat, n: nat, qs: seq<RowPointer>, m: nat)
    requires AllAbove(b, k)
    requires i <= j <= |es| && n == |a| + i && n <= m <= |a + es + b|
    requires AllAbove(es[j..], k) && AllAbove((a + es + b)[m..], k)
    requires if j == i then ps == [] else j == i + 1 && es[i] == Entry(k, ps)
    requires if m == n then qs == [] else m == n + 1 && (a + es + b)[n] == Entry(k, qs)
    ensures m == |a| + j && qs == ps
  {
    var all := a + es + b;
    if n < |all| {
      assert if i < |es| then all[n] == es[i] else all[n] == b[0];
      assert m == n ==> all[m..][0] == all[n];
      assert j == i && i < |es| ==> es[j..][0] == es[i];
    }
  }

  lemma SliceTail(a: seq<Entry>, es: seq<Entry>, b: seq<Entry>, i: nat)
    requires i <= |es|
    ensures (a + es + b)[..|a| + i] == a + es[..i]
    ensures (a + es + b)[|a| + i..] == es[i..] + b
  {
  }

  lemma RegroupInsert(a: seq<Entry>, x: seq<Entry>, e: Entry, y: seq<Entry>, b: seq<Entry>)
    ensures (a + x) + [e] + (y + b) == a + (x + [e] + y) + b
  {
  }

  lemma BisectLocal(a: seq<Entry>, es: seq<Entry>, b: seq<Entry>, k: int)
    requires AllBelow(a, k) && AllAbove(b, k) && Sorted(a + es + b) && Sorted(es)
    ensures BisectLeft(Keys(a + es + b), k) == |a| + BisectLeft(Keys(es), k)
  {
    var i := BisectLeft(Keys(es), k);
    BisectLeftUnique(Keys(a + es + b), k, |a| + i);
  }
}
