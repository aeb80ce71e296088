// LRU replacement as a law over whole access traces: a pool with k frames holds
// exactly the k most recently used distinct pages.
module LruStack {
  import opened ByteCodec
  import opened BufferPool

  // One fetch-then-release of page id, seen through the eviction order (oldest
  // first) of a pool with capacity frames and no guard out.
  function Access(order: seq<Word64>, capacity: nat, id: Word64): seq<Word64> {
    if id in order then Without(order, id) + [id]
    else if |order| < capacity || order == [] then order + [id]
    else order[1..] + [id]
  }

  // The resident pages after a whole trace, starting from an empty pool.
  function Replay(trace: seq<Word64>, capacity: nat): seq<Word64> {
    if trace == [] then []
    else Access(Replay(trace[..|trace| - 1], capacity), capacity, trace[|trace| - 1])
  }

  // Every page of the trace once, ordered by its last use.
  function Recency(trace: seq<Word64>): seq<Word64> {
    if trace == [] then []
    else
      var last := trace[|trace| - 1];
      Without(Recency(trace[..|trace| - 1]), last) + [last]
  }

  function Youngest(s: seq<Word64>, k: nat): seq<Word64> {
    if |s| <= k then s else s[|s| - k..]
  }

  // Accesses that found their page resident.
  function Hits(trace: seq<Word64>, capacity: nat): nat {
    if trace == [] then 0
    else
      var earlier := trace[..|trace| - 1];
      Hits(earlier, capacity) +
        (if trace[|trace| - 1] in Replay(earlier, capacity) then 1 else 0)
  }

  lemma {:induction false} RecencyDistinct(trace: seq<Word64>)
    ensures Distinct(Recency(trace))
    ensures forall id :: id in Recency(trace) <==> id in trace
  {
    if trace != [] {
      var earlier, last := trace[..|trace| - 1], trace[|trace| - 1];
      RecencyDistinct(earlier);
      WithoutProperties(Recency(earlier), last);
      DistinctSnoc(Without(Recency(earlier), last), last);
      assert trace == earlier + [last];
    }
  }

  lemma {:induction false} WithoutAppend(a: seq<Word64>, b: seq<Word64>, x: Word64)
    ensures Without(a + b, x) == if x in a then Without(a, x) + b else a + Without(b, x)
  {
    if a == [] {
      assert a + b == b;
    } else {
      WithoutAppend(a[1..], b, x);
      assert (a + b)[1..] == a[1..] + b;
    }
  }

  lemma SplitAt(r: seq<Word64>, k: nat) returns (a: seq<Word64>, b: seq<Word64>)
    requires Distinct(r) && k < |r|
    ensures r == a + b && |b| == k && b == Youngest(r, k)
    ensures forall x | x in b :: x !in a
  {
    a, b := r[..|r| - k], r[|r| - k..];
    forall x | x in b ensures x !in a {
      var j :| 0 <= j < |b| && b[j] == x;
      forall i | 0 <= i < |a| ensures a[i] != x {
        assert r[i] != r[|a| + j];
      }
    }
  }

  lemma HitYoungest(a: seq<Word64>, b: seq<Word64>, x: Word64)
    requires x in b && x !in a
    ensures Youngest(Without(a + b, x) + [x], |b|) == Without(b, x) + [x]
  {
    WithoutAppend(a, b, x);
    WithoutSize(b, x);
    assert (a + Without(b, x)) + [x] == a + (Without(b, x) + [x]);
    YoungestAppend(a, Without(b, x) + [x], |b|);
  }

  lemma MissYoungest(a: seq<Word64>, b: seq<Word64>, x: Word64)
    requires x !in b && b != []
    ensures Youngest(Without(a + b, x) + [x], |b|) == b[1..] + [x]
  {
    WithoutAppend(a, b, x);
    WithoutAbsent(b, x);
    DropOldest(if x in a then Without(a, x) else a, b, x);
  }

  lemma DropOldest(a: seq<Word64>, b: seq<Word64>, x: Word64)
    requires b != []
    ensures Youngest(a + b + [x], |b|) == b[1..] + [x]
  {
    assert a + b + [x] == (a + b[..1]) + (b[1..] + [x]);
    YoungestAppend(a + b[..1], b[1..] + [x], |b|);
  }

  // One access keeps a pool at the k youngest pages.
  lemma AccessYoungest(r: seq<Word64>, k: nat, x: Word64)
    requires k > 0 && Distinct(r)
    ensures Access(Youngest(r, k), k, x) == Youngest(Without(r, x) + [x], k)
  {
    if |r| > k {
      var a, b := SplitAt(r, k);
      if x in b {
        HitYoungest(a, b, x);
      } else {
        MissYoungest(a, b, x);
      }
    } else {
      WithoutSize(r, x);
      if x !in r {
        WithoutAbsent(r, x);
      }
    }
  }

  lemma {:induction false} WithoutSize(s: seq<Word64>, x: Word64)
    ensures |Without(s, x)| == |s| - (if x in s then 1 else 0)
  {
    if s != [] {
      WithoutSize(s[1..], x);
    }
  }

  lemma YoungestAppend(a: seq<Word64>, b: seq<Word64>, k: nat)
    requires |b| == k
    ensures Youngest(a + b, k) == b
  {
  }

  // The stack property.
  lemma {:induction false} HoldsMostRecent(trace: seq<Word64>, k: nat)
    requires k > 0
    ensures Replay(trace, k) == Youngest(Recency(trace), k)
  {
    if trace != [] {
      var earlier, last := trace[..|trace| - 1], trace[|trace| - 1];
      HoldsMostRecent(earlier, k);
      RecencyDistinct(earlier);
      AccessYoungest(Recency(earlier), k, last);
    }
  }

  // A larger pool always holds everything that a smaller one holds.
  lemma Inclusion(trace: seq<Word64>, k: nat, m: nat)
    requires 0 < k <= m
    ensures forall id | id in Replay(trace, k) :: id in Replay(trace, m)
  {
    HoldsMostRecent(trace, k);
    HoldsMostRecent(trace, m);
    var r := Recency(trace);
    if |r| > m {
      assert Youngest(r, k) == Youngest(r, m)[m - k..];
    }
  }

  // Adding frames never loses a hit.
  lemma {:induction false} HitsMonotone(trace: seq<Word64>, k: nat, m: nat)
    requires 0 < k <= m
    ensures Hits(trace, k) <= Hits(trace, m)
  {
    if trace != [] {
      var earlier := trace[..|trace| - 1];
      HitsMonotone(earlier, k, m);
      Inclusion(earlier, k, m);
    }
  }
}
