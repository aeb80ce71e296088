// Whole-page access over a buffer pool: each operation takes one guard and
// gives it back before it returns.
module PageManager {
  import opened Results
  import opened ByteCodec
  import opened Pages
  import opened BufferPool
  import opened LruStack

  // A pool over a sound file with no guard out.
  ghost predicate Idle(pool: BufferPoolManager)
    reads pool
  {
    pool.Valid() && SoundDisk(pool.disk) && pool.live == map[]
  }

  function UpTo(n: nat): (s: set<nat>)
    ensures forall x: nat :: x in s <==> x < n
    ensures |s| == n
  {
    if n == 0 then {} else
      var s := UpTo(n - 1);
      assert n - 1 !in s;
      s + {n - 1}
  }

  lemma {:induction false} DistinctSize<T(!new)>(s: seq<T>)
    requires Distinct(s)
    ensures |set x | x in s| == |s|
  {
    if s != [] {
      var tail := s[1..];
      forall i, j | 0 <= i < j < |tail| ensures tail[i] != tail[j] {
        assert s[i + 1] != s[j + 1];
      }
      DistinctSize(tail);
      assert s == [s[0]] + tail;
      assert (set x | x in s) == {s[0]} + set x | x in tail;
      forall j | 0 <= j < |tail| ensures tail[j] != s[0] {
        assert tail[j] == s[j + 1];
      }
    }
  }

  lemma SubsetSize<T>(a: set<T>, b: set<T>)
    requires a <= b
    ensures |a| <= |b| && (|a| == |b| ==> a == b)
  {
    assert |b - a| == |b| - |a|;
    if |a| == |b| {
      assert b - a == {};
    }
  }

  // Distinct numbers below n: there are n of them exactly when none is missing.
  lemma FullList(s: seq<nat>, n: nat)
    requires Distinct(s) && forall x | x in s :: x < n
    ensures |s| <= n
    ensures |s| < n <==> exists f: nat :: f < n && f !in s
  {
    var members := set f | f in s;
    DistinctSize(s);
    SubsetSize(members, UpTo(n));
    if f: nat :| f < n && f !in s {
      assert f !in members && f in UpTo(n);
    } else {
      forall f | f in UpTo(n) ensures f in members {
        assert f in s;
      }
      SubsetSize(UpTo(n), members);
    }
  }

  // With no guard out every resident page is in the eviction order, and the
  // pool is full exactly when the order is as long as the pool has frames.
  lemma IdleFacts(s: State)
    requires StateOk(s) && s.live == map[]
    ensures forall f: nat | f < |s.frames| :: s.frames[f].pins == 0
    ensures |OrderOf(s)| <= |s.frames|
    ensures |OrderOf(s)| < |s.frames| <==> exists f: nat :: f < |s.frames| && s.frames[f].page.None?
    ensures forall id :: id in OrderOf(s) <==> id in s.table
  {
    hide Strip, PageIdOf, HeaderOk, Get;
    forall f: nat | f < |s.frames| ensures s.frames[f].pins == 0 {
      assert HoldersOf(s.live, f) == {};
    }
    forall f: nat | f < |s.frames| ensures f in s.lru <==> s.frames[f].page.Some? {
      assert f in s.lru <==> Loaded(s, f);
    }
    FullList(s.lru, |s.frames|);
    forall id ensures id in OrderOf(s) <==> id in s.table {
      IdAmong(s, s.lru, id);
    }
  }

  lemma {:induction false} IdAmong(s: State, fs: seq<nat>, id: Word64)
    requires TableInverse(s) && forall f | f in fs :: Loaded(s, f)
    ensures id in IdsOf(s, fs) <==> id in s.table && s.table[id] in fs
  {
    if fs != [] {
      IdAmong(s, fs[1..], id);
    }
  }

  // A copy of a page, by way of a guard that is released at once. Reading is an
  // access of the LRU law.
  method ReadPage(pool: BufferPoolManager, id: Word64) returns (r: Result<Page>)
    requires Idle(pool)
    modifies pool
    ensures Idle(pool) && pool.View() == old(pool.View()) && |pool.frames| == old(|pool.frames|)
    ensures r.Ok? <==> id < |pool.View()|
    ensures r.Ok? ==> Strip(r.value) == pool.View()[id] && HeaderOk(r.value, id)
    ensures r.Ok? ==> pool.Order() == Access(old(pool.Order()), |pool.frames|, id)
    ensures r.Err? ==> r.error == (if id == INVALID_ID then InvalidArgument else OutOfRange)
    ensures r.Err? ==> unchanged(pool)
  {
    hide StateOk, ViewOf, OrderOf, Strip, HeaderOk;
    IdleFacts(pool.Now());
    SizeFacts(pool.Now());
    assert pool.frames[0].pins == 0;
    var fetched := pool.FetchPage(id);
    if fetched.Err? {
      return Forward(fetched);
    }
    var guard := fetched.value;
    var page := guard.Read();
    var _ := guard.Release();
    assert pool.live == map[];
    return Ok(page);
  }

  // Reads a whole trace of pages. A pool that starts without resident pages ends
  // up with the most recently used ones, and every page found resident is a hit.
  method ReadTrace(pool: BufferPoolManager, trace: seq<Word64>) returns (hits: nat)
    requires Idle(pool) && pool.table == map[] && forall id | id in trace :: id < |pool.View()|
    modifies pool
    ensures Idle(pool) && pool.View() == old(pool.View()) && |pool.frames| == old(|pool.frames|)
    ensures pool.Order() == Replay(trace, |pool.frames|) == Youngest(Recency(trace), |pool.frames|)
    ensures forall id :: id in pool.table <==> id in Youngest(Recency(trace), |pool.frames|)
    ensures hits == Hits(trace, |pool.frames|)
  {
    hide StateOk, ViewOf, OrderOf;
    ghost var k := |pool.frames|;
    IdleFacts(pool.Now());
    SizeFacts(pool.Now());
    FirstListed(pool.Order());
    hits := 0;
    for i := 0 to |trace|
      invariant Idle(pool) && pool.View() == old(pool.View()) && |pool.frames| == k
      invariant pool.Order() == Replay(trace[..i], k) && hits == Hits(trace[..i], k)
    {
      assert trace[i] in trace && trace[..i + 1][..i] == trace[..i];
      IdleFacts(pool.Now());
      if trace[i] in pool.table {
        hits := hits + 1;
      }
      var _ := ReadPage(pool, trace[i]);
    }
    assert trace[..|trace|] == trace;
    IdleFacts(pool.Now());
    HoldsMostRecent(trace, k);
  }

  lemma FirstListed(order: seq<Word64>)
    ensures order == [] || order[0] in order
  {
  }

  // The same trace on a smaller and on a larger pool: the larger one ends up with
  // everything that the smaller one has, and has no fewer hits.
  method CompareTraces(small: BufferPoolManager, large: BufferPoolManager, trace: seq<Word64>) returns (few: nat, many: nat)
    requires small != large && Idle(small) && Idle(large) && |small.frames| <= |large.frames|
    requires small.table == map[] && large.table == map[]
    requires forall id | id in trace :: id < |small.View()| && id < |large.View()|
    modifies small, large
    ensures Idle(small) && Idle(large)
    ensures forall id | id in small.table :: id in large.table
    ensures few <= many
  {
    hide StateOk, ViewOf, OrderOf;
    SizeFacts(small.Now());
    few := ReadTrace(small, trace);
    many := ReadTrace(large, trace);
    HoldsMostRecent(trace, |small.frames|);
    HoldsMostRecent(trace, |large.frames|);
    Inclusion(trace, |small.frames|, |large.frames|);
    HitsMonotone(trace, |small.frames|, |large.frames|);
  }

  method AllocatePage(pool: BufferPoolManager, t: PageType) returns (r: Result<Page>)
    requires Idle(pool)
    modifies pool
    ensures Idle(pool) && |pool.frames| == old(|pool.frames|)
    ensures r.Ok? <==> |old(pool.View())| <= MAX_DISK_ID
    ensures r.Ok? ==>
      && pool.View() == old(pool.View()) + [Strip(Create(t, old(|pool.disk|)).value)]
      && HeaderOk(r.value, old(|pool.disk|))
      && Strip(r.value) == Strip(Create(t, old(|pool.disk|)).value)
    ensures r.Err? ==> r.error == OutOfRange && pool.View() == old(pool.View())
    ensures r == Err(OutOfRange) <==> |old(pool.View())| * 4096 >= 0x1_0000_0000_0000_0000
  {
    hide StateOk, ViewOf, OrderOf, Strip, HeaderOk, Create;
    IdleFacts(pool.Now());
    SizeFacts(pool.Now());
    assert pool.frames[0].pins == 0;
    var made := pool.NewPage(t);
    if made.Err? {
      return Forward(made);
    }
    var guard := made.value;
    var page := guard.Read();
    var _ := guard.Release();
    assert pool.live == map[];
    return Ok(page);
  }

  // Overwrites a page and writes it through to the disk.
  method WritePage(pool: BufferPoolManager, page: Page) returns (r: Result<()>)
    requires Idle(pool) && HeaderOk(page, PageIdOf(page))
    modifies pool
    ensures Idle(pool) && |pool.frames| == old(|pool.frames|)
    ensures r.Ok? <==> PageIdOf(page) < |old(pool.View())|
    ensures r.Ok? ==> pool.View() == old(pool.View())[PageIdOf(page) := Strip(page)]
    ensures r.Ok? ==> Strip(pool.disk[PageIdOf(page)]) == Strip(page)
    ensures r.Err? ==> unchanged(pool)
  {
    hide StateOk, ViewOf, OrderOf, Strip, HeaderOk, PageIdOf;
    IdleFacts(pool.Now());
    SizeFacts(pool.Now());
    assert pool.frames[0].pins == 0;
    var fetched := pool.FetchPage(PageIdOf(page));
    if fetched.Err? {
      return Forward(fetched);
    }
    var guard := fetched.value;
    if guard.pageId != PageIdOf(page) {
      return Err(Internal);
    }
    HeaderId(page, guard.pageId);
    guard.Write(page);
    assert pool.live.Keys == {guard};
    var released := guard.Release();
    if released.Err? {
      return released;
    }
    assert pool.live == map[];
    IdleFacts(pool.Now());
    r := pool.FlushPage(PageIdOf(page));
  }
}
