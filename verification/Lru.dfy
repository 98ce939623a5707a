/** Least-recently-used order, as a function of the access trace alone. */
module Lru {
  import opened Storage

  datatype Access = Fetch(id: PageId) | Store(id: PageId) | Allocate(id: PageId) | Touch(id: PageId)

  function Without(ids: seq<PageId>, x: PageId): seq<PageId> {
    if ids == [] then []
    else if ids[0] == x then Without(ids[1..], x)
    else [ids[0]] + Without(ids[1..], x)
  }

  /** The distinct pages of a trace, the least recently used one first. */
  function Recency(trace: seq<Access>): seq<PageId> {
    if trace == [] then []
    else
      var n := |trace| - 1;
      Without(Recency(trace[..n]), trace[n].id) + [trace[n].id]
  }

  function LastN<T>(s: seq<T>, n: nat): seq<T> {
    if |s| <= n then s else s[|s| - n..]
  }

  /** The pages a pool of that capacity holds after a trace. */
  function Held(trace: seq<Access>, capacity: nat): seq<PageId> {
    LastN(Recency(trace), capacity)
  }

  ghost predicate NoRepeats(ids: seq<PageId>) {
    forall i, j :: 0 <= i < j < |ids| ==> ids[i] != ids[j]
  }

  // ---------- Recency ----------

  lemma {:induction false} WithoutMeans(ids: seq<PageId>, x: PageId)
    ensures forall y :: y in Without(ids, x) <==> y in ids && y != x
  {
    if ids != [] {
      WithoutMeans(ids[1..], x);
      assert ids == [ids[0]] + ids[1..];
    }
  }

  lemma {:induction false} WithoutDistinct(ids: seq<PageId>, x: PageId)
    requires NoRepeats(ids)
    ensures NoRepeats(Without(ids, x))
  {
    if ids != [] {
      assert NoRepeats(ids[1..]);
      WithoutDistinct(ids[1..], x);
      if ids[0] != x {
        WithoutMeans(ids[1..], x);
        assert ids[0] !in ids[1..];
      }
    }
  }

  lemma {:induction false} WithoutAbsent(ids: seq<PageId>, x: PageId)
    requires x !in ids
    ensures Without(ids, x) == ids
  {
    if ids != [] {
      WithoutAbsent(ids[1..], x);
    }
  }

  lemma {:induction false} WithoutConcat(a: seq<PageId>, b: seq<PageId>, x: PageId)
    ensures Without(a + b, x) == Without(a, x) + Without(b, x)
  {
    if a == [] {
      assert a + b == b;
    } else {
      assert (a + b)[1..] == a[1..] + b;
      WithoutConcat(a[1..], b, x);
    }
  }

  /** Where a page occurs once, taking it out closes the gap. */
  lemma WithoutAt(ids: seq<PageId>, i: nat)
    requires i < |ids| && NoRepeats(ids)
    ensures Without(ids, ids[i]) == ids[..i] + ids[i + 1..]
  {
    hide *;
    AroundPlace(ids, i);
    WithoutMiddle(ids[..i], ids[i], ids[i + 1..]);
  }

  lemma AroundPlace(ids: seq<PageId>, i: nat)
    requires i < |ids| && NoRepeats(ids)
    ensures ids[..i] + [ids[i]] + ids[i + 1..] == ids && ids[i] !in ids[..i] && ids[i] !in ids[i + 1..]
  {
  }

  lemma WithoutMiddle(a: seq<PageId>, x: PageId, b: seq<PageId>)
    requires x !in a && x !in b
    ensures Without(a + [x] + b, x) == a + b
  {
    hide *;
    WithoutConcat(a + [x], b, x);
    WithoutConcat(a, [x], x);
    WithoutAbsent(a, x);
    WithoutAbsent(b, x);
    WithoutSelf(x);
    assert a + [] == a;
  }

  lemma WithoutSelf(x: PageId)
    ensures Without([x], x) == []
  {
    assert Without([x], x) == Without([], x);
  }

  lemma {:induction false} RecencyDistinct(trace: seq<Access>)
    ensures NoRepeats(Recency(trace))
    ensures forall x :: x in Recency(trace) <==> exists i :: 0 <= i < |trace| && trace[i].id == x
  {
    if trace != [] {
      var n := |trace| - 1;
      RecencyDistinct(trace[..n]);
      WithoutMeans(Recency(trace[..n]), trace[n].id);
      WithoutDistinct(Recency(trace[..n]), trace[n].id);
      AppendDistinct(Without(Recency(trace[..n]), trace[n].id), trace[n].id);
    }
  }

  lemma AppendDistinct(ids: seq<PageId>, x: PageId)
    requires NoRepeats(ids) && x !in ids
    ensures NoRepeats(ids + [x])
  {
    forall i, j | 0 <= i < j < |ids + [x]| ensures (ids + [x])[i] != (ids + [x])[j] {
      assert ids[i] in ids;
    }
  }

  // ---------- One access ----------

  /** An access to a page that is held moves it to the end. */
  lemma HitKeeps(trace: seq<Access>, capacity: nat, a: Access)
    requires a.id in Held(trace, capacity)
    ensures Held(trace + [a], capacity) == Without(Held(trace, capacity), a.id) + [a.id]
  {
    var r, x := Recency(trace), a.id;
    assert (trace + [a])[..|trace|] == trace;
    RecencyDistinct(trace);
    var k := |r| - |Held(trace, capacity)|;
    assert r == r[..k] + r[k..];
    MoveInside(r[..k], r[k..], x, capacity);
  }

  lemma MoveInside(front: seq<PageId>, held: seq<PageId>, x: PageId, capacity: nat)
    requires NoRepeats(front + held) && x in held && |held| <= capacity && (front != [] ==> |held| == capacity)
    ensures LastN(Without(front + held, x) + [x], capacity) == Without(held, x) + [x]
  {
    var i :| 0 <= i < |held| && held[i] == x;
    RepeatsApart(front, held, i);
    hide NoRepeats, LastN;
    WithoutConcat(front, held, x);
    WithoutAbsent(front, x);
    WithoutAt(held, i);
    SuffixOfSameLength(front, Without(held, x) + [x], capacity, |held|);
    assert front + Without(held, x) + [x] == front + (Without(held, x) + [x]);
  }

  lemma RepeatsApart(a: seq<PageId>, b: seq<PageId>, i: nat)
    requires NoRepeats(a + b) && i < |b|
    ensures NoRepeats(b) && b[i] !in a
  {
    assert forall j :: 0 <= j < |b| ==> (a + b)[|a| + j] == b[j];
    assert forall j :: 0 <= j < |a| ==> (a + b)[j] == a[j];
  }

  lemma SuffixOfSameLength(front: seq<PageId>, held: seq<PageId>, capacity: nat, n: nat)
    requires |held| == n && (front != [] ==> n == capacity) && n <= capacity
    ensures LastN(front + held, capacity) == held
  {
    if front == [] {
      assert front + held == held;
    }
  }

  /** An access to a page that is not held pushes out the least recently used one when the pool is full. */
  lemma MissAppends(trace: seq<Access>, capacity: nat, a: Access)
    requires a.id !in Held(trace, capacity) && capacity > 0
    ensures var held := Held(trace, capacity);
      Held(trace + [a], capacity) == (if |held| < capacity then held else held[1..]) + [a.id]
  {
    var r, x := Recency(trace), a.id;
    assert (trace + [a])[..|trace|] == trace;
    var held := Held(trace, capacity);
    var k := |r| - |held|;
    var front := r[..k];
    assert r == front + held;
    WithoutConcat(front, held, x);
    WithoutAbsent(held, x);
    var front' := Without(front, x);
    if |held| < capacity {
      assert front == [];
      assert r == held && front' + held + [x] == held + [x];
    } else {
      assert front' + held + [x] == (front' + [held[0]]) + (held[1..] + [x]);
      SuffixOfSameLength(front' + [held[0]], held[1..] + [x], capacity, capacity);
    }
  }

  // ---------- Pools of different capacities ----------

  /** On one trace, the smaller pool holds the end of what the larger pool holds. */
  lemma Inclusion(trace: seq<Access>, small: nat, large: nat)
    requires small <= large
    ensures |Held(trace, small)| <= |Held(trace, large)|
    ensures Held(trace, small) == Held(trace, large)[|Held(trace, large)| - |Held(trace, small)|..]
    ensures forall x :: x in Held(trace, small) ==> x in Held(trace, large)
  {
    var a, b := Held(trace, small), Held(trace, large);
    assert a == b[|b| - |a|..];
  }

  /** The fetches that found their page. */
  function Hits(trace: seq<Access>, capacity: nat): nat {
    if trace == [] then 0
    else
      var n := |trace| - 1;
      Hits(trace[..n], capacity) +
        if trace[n].Fetch? && trace[n].id in Held(trace[..n], capacity) then 1 else 0
  }

  function Fetches(trace: seq<Access>): nat {
    if trace == [] then 0 else Fetches(trace[..|trace| - 1]) + if trace[|trace| - 1].Fetch? then 1 else 0
  }

  /** A larger pool never has fewer hits. */
  lemma {:induction false} HitsMonotone(trace: seq<Access>, small: nat, large: nat)
    requires small <= large
    ensures Hits(trace, small) <= Hits(trace, large) <= Fetches(trace)
  {
    if trace != [] {
      var n := |trace| - 1;
      HitsMonotone(trace[..n], small, large);
      Inclusion(trace[..n], small, large);
    }
  }

  /** A pool as large as the number of pages never pushes anything out. */
  lemma LargeEnough(trace: seq<Access>, capacity: nat)
    requires |Recency(trace)| <= capacity
    ensures forall x :: x in Held(trace, capacity) <==> exists i :: 0 <= i < |trace| && trace[i].id == x
  {
    RecencyDistinct(trace);
  }

  // ---------- Distances in the trace ----------

  /** The pages asked for since position `i`. */
  ghost function Since(trace: seq<Access>, i: nat): set<PageId> {
    set j | i < j < |trace| :: trace[j].id
  }

  /** The last access to page `x` was at position `i`. */
  ghost predicate LastAccess(trace: seq<Access>, x: PageId, i: nat) {
    i < |trace| && trace[i].id == x && forall j :: i < j < |trace| ==> trace[j].id != x
  }

  /** The pages behind a page in the order are exactly those asked for since its last access. */
  lemma {:induction false} RecencyBehind(trace: seq<Access>, x: PageId, i: nat) returns (front: seq<PageId>, back: seq<PageId>)
    requires LastAccess(trace, x, i)
    ensures Recency(trace) == front + [x] + back && forall y :: y in back <==> y in Since(trace, i)
  {
    var n := |trace| - 1;
    var r, a := Recency(trace[..n]), trace[n].id;
    if a == x {
      front, back := Without(r, x), [];
      assert front + [x] + back == Recency(trace);
    } else {
      var f, b := RecencyBehind(trace[..n], x, i);
      front, back := Without(f, a), Without(b, a) + [a];
      WithoutConcat(f + [x], b, a);
      WithoutConcat(f, [x], a);
      WithoutAbsent([x], a);
      assert Recency(trace) == front + [x] + back;
      WithoutMeans(b, a);
      SinceGrows(trace, i);
    }
  }

  lemma SinceGrows(trace: seq<Access>, i: nat)
    requires i < |trace| - 1
    ensures Since(trace, i) == Since(trace[..|trace| - 1], i) + {trace[|trace| - 1].id}
  {
    var n := |trace| - 1;
    forall y | y in Since(trace, i) ensures y in Since(trace[..n], i) + {trace[n].id} {
      var j :| i < j < |trace| && trace[j].id == y;
      assert j < n ==> trace[..n][j].id == y;
    }
    forall y | y in Since(trace[..n], i) ensures y in Since(trace, i) {
      var j :| i < j < n && trace[..n][j].id == y;
      assert trace[j].id == y;
    }
  }

  lemma {:induction false} DistinctCount(ids: seq<PageId>, s: set<PageId>)
    requires NoRepeats(ids) && forall y :: y in ids <==> y in s
    ensures |s| == |ids|
    decreases |ids|
  {
    if ids == [] {
      assert s == {};
    } else {
      assert ids == [ids[0]] + ids[1..] && ids[0] !in ids[1..];
      DistinctCount(ids[1..], s - {ids[0]});
    }
  }

  lemma {:induction false} LastOne(trace: seq<Access>, x: PageId, k: nat) returns (i: nat)
    requires k < |trace| && trace[k].id == x
    ensures LastAccess(trace, x, i)
    decreases |trace| - k
  {
    if j :| k < j < |trace| && trace[j].id == x {
      i := LastOne(trace, x, j);
    } else {
      i := k;
    }
  }

  /** A page is held if and only if fewer different pages than the capacity were asked for since its own last access. */
  lemma HeldIff(trace: seq<Access>, capacity: nat, x: PageId)
    ensures x in Held(trace, capacity) <==> exists i :: LastAccess(trace, x, i) && |Since(trace, i)| < capacity
  {
    RecencyDistinct(trace);
    if i :| LastAccess(trace, x, i) {
      HeldSince(trace, capacity, x, i);
      forall i' | LastAccess(trace, x, i') ensures i' == i {
      }
    } else if x in Held(trace, capacity) {
      assert x in Recency(trace);
      var k :| 0 <= k < |trace| && trace[k].id == x;
      var i := LastOne(trace, x, k);
    }
  }

  lemma HeldSince(trace: seq<Access>, capacity: nat, x: PageId, i: nat)
    requires LastAccess(trace, x, i)
    ensures x in Held(trace, capacity) <==> |Since(trace, i)| < capacity
  {
    RecencyDistinct(trace);
    var front, back := RecencyBehind(trace, x, i);
    hide Recency, Since, LastAccess;
    BehindDistinct(front, x, back);
    DistinctCount(back, Since(trace, i));
    InLast(front, x, back, capacity);
  }

  lemma BehindDistinct(front: seq<PageId>, x: PageId, back: seq<PageId>)
    requires NoRepeats(front + [x] + back)
    ensures NoRepeats(back) && x !in back
  {
    var ids, n := front + [x] + back, |front| + 1;
    assert ids[n - 1] == x && forall j :: 0 <= j < |back| ==> ids[n + j] == back[j];
  }

  lemma InLast(front: seq<PageId>, x: PageId, back: seq<PageId>, n: nat)
    requires x !in back
    ensures x in LastN(front + [x] + back, n) <==> |back| < n
  {
    var ids := front + [x] + back;
    if |back| < n {
      var last := LastN(ids, n);
      assert last[|last| - 1 - |back|] == x;
    } else {
      assert LastN(ids, n) == back[|back| - n..];
    }
  }

  /** The hits are the fetches of pages that were held; nothing else counts. */
  lemma HitsAre(trace: seq<Access>, capacity: nat, a: Access)
    ensures Hits([], capacity) == 0 && Fetches([]) == 0
    ensures Hits(trace + [a], capacity) == Hits(trace, capacity) + if a.Fetch? &&
      (exists i :: LastAccess(trace, a.id, i) && |Since(trace, i)| < capacity) then 1 else 0
    ensures Fetches(trace + [a]) == Fetches(trace) + if a.Fetch? then 1 else 0
  {
    HeldIff(trace, capacity, a.id);
    assert (trace + [a])[..|trace|] == trace;
  }
}
