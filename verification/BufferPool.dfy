// The buffer pool: a bounded cache of page frames with pins, dirty flags and an
// LRU replacer, proved indistinguishable from a flat array of pages.
module BufferPool {
  import opened Results
  import opened ByteCodec
  import opened Pages

  // ---- the page file below the pool: only the final page can be deleted, and
  // no write may leave a gap ----

  // The largest page id whose byte offset fits 64 bits.
  const MAX_DISK_ID: Word64 := 0xF_FFFF_FFFF_FFFF

  function DiskRead(disk: seq<Page>, id: Word64): Result<Page> {
    if id == INVALID_ID || id > MAX_DISK_ID then Err(OutOfRange)
    else if id >= |disk| then Err(OutOfRange)
    else Deserialize(disk[id], Some(id))
  }

  function DiskWrite(disk: seq<Page>, page: Page): Result<seq<Page>> {
    var id := PageIdOf(page);
    var checked := Deserialize(page, Some(id));
    if checked.Err? then Err(checked.error)
    else if id > MAX_DISK_ID then Err(OutOfRange)
    else if id > |disk| then Err(OutOfRange)
    else if id == |disk| then Ok(disk + [page])
    else Ok(disk[id := page])
  }

  function DiskDelete(disk: seq<Page>, id: Word64): Result<seq<Page>> {
    if id == INVALID_ID then Err(InvalidArgument)
    else if id >= |disk| then Err(OutOfRange)
    else if id != |disk| - 1 then Err(Unsupported)
    else Ok(disk[..id])
  }

  // Every page of the file passes the checks of a read.
  ghost predicate SoundDisk(disk: seq<Page>) {
    forall i: Word64 | i < |disk| :: DiskRead(disk, i) == Ok(disk[i])
  }

  // ---- sequences without repetition ----

  function Without<T(==)>(s: seq<T>, x: T): seq<T> {
    if s == [] then []
    else if s[0] == x then s[1..]
    else [s[0]] + Without(s[1..], x)
  }

  ghost predicate Distinct<T(!new)>(s: seq<T>) {
    forall i, j | 0 <= i < j < |s| :: s[i] != s[j]
  }

  lemma {:induction false} WithoutProperties<T(!new)>(s: seq<T>, x: T)
    requires Distinct(s)
    ensures Distinct(Without(s, x)) && x !in Without(s, x)
    ensures forall y :: y in Without(s, x) <==> y in s && y != x
    ensures x !in s ==> Without(s, x) == s
    ensures |Without(s, x)| == |s| - (if x in s then 1 else 0)
  {
    if s != [] {
      var tail := s[1..];
      forall i, j | 0 <= i < j < |tail| ensures tail[i] != tail[j] {
        assert s[i + 1] != s[j + 1];
      }
      WithoutProperties(tail, x);
      assert s == [s[0]] + tail;
      forall j | 0 <= j < |tail| ensures tail[j] != s[0] {
        assert tail[j] == s[j + 1];
      }
      if s[0] != x {
        var w := Without(tail, x);
        forall j | 0 <= j < |w| ensures w[j] != s[0] {
          assert w[j] in w;
        }
        assert Without(s, x) == [s[0]] + w;
      }
    }
  }

  lemma DistinctSnoc<T(!new)>(s: seq<T>, x: T)
    requires Distinct(s) && x !in s
    ensures Distinct(s + [x])
  {
  }

  // ---- the state of a pool ----

  datatype Frame = Frame(page: Option<Page>, pins: nat, dirty: bool)

  // What the pool knows about an outstanding guard.
  datatype Pin = Pin(frame: nat, id: Word64, dirty: bool)

  datatype State = State(
    disk: seq<Page>,
    frames: seq<Frame>,
    table: map<Word64, nat>,
    lru: seq<nat>,
    live: map<PinnedPage, Pin>)

  ghost predicate Loaded(s: State, f: nat) {
    f < |s.frames| && s.frames[f].page.Some?
  }

  ghost function PageAt(s: State, f: nat): Page
    requires Loaded(s, f)
  {
    s.frames[f].page.value
  }

  // The page table and the frames are inverse to each other.
  ghost predicate TableInverse(s: State) {
    && (forall id | id in s.table ::
          && Loaded(s, s.table[id])
          && HeaderOk(PageAt(s, s.table[id]), id)
          && PageIdOf(PageAt(s, s.table[id])) == id
          && id < |s.disk|)
    && (forall f: nat | Loaded(s, f) ::
          PageIdOf(PageAt(s, f)) in s.table && s.table[PageIdOf(PageAt(s, f))] == f)
  }

  // The replacer lists exactly the unpinned resident frames, once each.
  ghost predicate ReplacerExact(s: State) {
    && Distinct(s.lru)
    && forall f: nat :: f in s.lru <==> Loaded(s, f) && s.frames[f].pins == 0
  }

  ghost function HoldersOf(live: map<PinnedPage, Pin>, f: nat): set<PinnedPage> {
    set g | g in live && live[g].frame == f
  }

  // Every pin is owned by exactly one outstanding guard.
  ghost predicate PinsOwned(s: State) {
    && (forall f: nat | f < |s.frames| :: s.frames[f].pins == |HoldersOf(s.live, f)|)
    && (forall g | g in s.live ::
          Loaded(s, s.live[g].frame) && PageIdOf(PageAt(s, s.live[g].frame)) == s.live[g].id)
  }

  ghost predicate DirtyHolder(live: map<PinnedPage, Pin>, f: nat) {
    exists g :: g in live && live[g].frame == f && live[g].dirty
  }

  // A clean frame may differ from the disk only while some guard that mutated
  // it has not been released.
  ghost predicate CleanMatchesDisk(s: State)
    requires TableInverse(s)
  {
    forall f: nat | Loaded(s, f) && !s.frames[f].dirty ::
      Strip(PageAt(s, f)) == Strip(s.disk[PageIdOf(PageAt(s, f))]) || DirtyHolder(s.live, f)
  }

  ghost predicate EmptyIsBlank(s: State) {
    forall f: nat | f < |s.frames| && !Loaded(s, f) :: s.frames[f] == Frame(None, 0, false)
  }

  ghost predicate StateOk(s: State) {
    && 0 < |s.frames|
    && EmptyIsBlank(s)
    && |s.disk| <= MAX_DISK_ID + 1
    && TableInverse(s)
    && ReplacerExact(s)
    && PinsOwned(s)
    && CleanMatchesDisk(s)
  }

  // The page a reader of position id sees, checksum aside.
  ghost function Seen(s: State, id: nat): Page
    requires id < |s.disk| && TableInverse(s)
  {
    if id in s.table then Strip(PageAt(s, s.table[id])) else Strip(s.disk[id])
  }

  // The flat array of pages that the pool stands for.
  ghost function ViewOf(s: State): (view: seq<Page>)
    requires TableInverse(s)
    ensures |view| == |s.disk|
    ensures forall i | 0 <= i < |view| :: view[i] == Seen(s, i)
  {
    seq(|s.disk|, i requires 0 <= i < |s.disk| => Seen(s, i))
  }

  // Page ids of a list of resident frames.
  ghost function IdsOf(s: State, fs: seq<nat>): (ids: seq<Word64>)
    requires forall f | f in fs :: Loaded(s, f)
    ensures |ids| == |fs|
  {
    if fs == [] then [] else [PageIdOf(PageAt(s, fs[0]))] + IdsOf(s, fs[1..])
  }

  // Unpinned resident pages, least recently released first.
  ghost function OrderOf(s: State): seq<Word64>
    requires ReplacerExact(s)
  {
    IdsOf(s, s.lru)
  }

  // ---- lemmas about pins ----

  lemma HoldersAfterPin(live: map<PinnedPage, Pin>, g: PinnedPage, pin: Pin, f: nat)
    requires g !in live
    ensures |HoldersOf(live[g := pin], f)| == |HoldersOf(live, f)| + (if f == pin.frame then 1 else 0)
  {
    var after := HoldersOf(live[g := pin], f);
    if f == pin.frame {
      assert after == HoldersOf(live, f) + {g};
    } else {
      assert after == HoldersOf(live, f);
    }
  }

  lemma HoldersAfterUnpin(live: map<PinnedPage, Pin>, g: PinnedPage, f: nat)
    requires g in live
    ensures |HoldersOf(live, f)| == |HoldersOf(live - {g}, f)| + (if f == live[g].frame then 1 else 0)
  {
    var after := HoldersOf(live - {g}, f);
    if f == live[g].frame {
      assert HoldersOf(live, f) == after + {g};
    } else {
      assert HoldersOf(live, f) == after;
    }
  }

  lemma HoldersAfterMark(live: map<PinnedPage, Pin>, g: PinnedPage, pin: Pin, f: nat)
    requires g in live && pin.frame == live[g].frame
    ensures HoldersOf(live[g := pin], f) == HoldersOf(live, f)
  {
  }

  lemma HeldFrameIsPinned(s: State, g: PinnedPage)
    requires PinsOwned(s) && g in s.live
    ensures s.frames[s.live[g].frame].pins > 0
  {
    assert g in HoldersOf(s.live, s.live[g].frame);
  }

  lemma UnpinnedHasNoHolder(s: State, f: nat)
    requires PinsOwned(s) && f < |s.frames| && s.frames[f].pins == 0
    ensures forall g | g in s.live :: s.live[g].frame != f
  {
    forall g | g in s.live ensures s.live[g].frame != f {
      HeldFrameIsPinned(s, g);
    }
  }

  // Lists of frames whose pages kept their ids keep their list of ids.
  lemma {:induction false} IdsUnchanged(s: State, t: State, fs: seq<nat>)
    requires forall f | f in fs :: Loaded(s, f) && Loaded(t, f)
    requires forall f | f in fs :: PageIdOf(PageAt(s, f)) == PageIdOf(PageAt(t, f))
    ensures IdsOf(s, fs) == IdsOf(t, fs)
  {
    if fs != [] {
      IdsUnchanged(s, t, fs[1..]);
    }
  }

  lemma {:induction false} IdsSnoc(s: State, fs: seq<nat>, f: nat)
    requires forall x | x in fs + [f] :: Loaded(s, x)
    ensures forall x | x in fs :: x in fs + [f]
    ensures IdsOf(s, fs + [f]) == IdsOf(s, fs) + [PageIdOf(PageAt(s, f))]
  {
    if fs == [] {
      assert fs + [f] == [f];
    } else {
      assert (fs + [f])[1..] == fs[1..] + [f];
      IdsSnoc(s, fs[1..], f);
    }
  }

  lemma {:induction false} IdsWithout(s: State, fs: seq<nat>, f: nat)
    requires TableInverse(s) && Distinct(fs) && Loaded(s, f)
    requires forall x | x in fs :: Loaded(s, x)
    ensures forall x | x in Without(fs, f) :: x in fs
    ensures IdsOf(s, Without(fs, f)) == Without(IdsOf(s, fs), PageIdOf(PageAt(s, f)))
  {
    WithoutProperties(fs, f);
    if fs != [] {
      var tail := fs[1..];
      forall i, j | 0 <= i < j < |tail| ensures tail[i] != tail[j] {
        assert fs[i + 1] != fs[j + 1];
      }
      IdsWithout(s, tail, f);
      assert IdsOf(s, fs)[1..] == IdsOf(s, tail);
      if fs[0] != f {
        assert Without(fs, f) == [fs[0]] + Without(tail, f);
        assert Without(fs, f)[1..] == Without(tail, f);
        assert PageIdOf(PageAt(s, fs[0])) != PageIdOf(PageAt(s, f));
      }
    }
  }

  // Only frame f changed, and every unreleased mutation elsewhere is still marked.
  lemma CleanCarries(s: State, t: State, f: nat)
    requires TableInverse(s) && TableInverse(t) && CleanMatchesDisk(s)
    requires |s.frames| == |t.frames| && s.disk == t.disk
    requires forall x: nat | x < |s.frames| && x != f :: s.frames[x] == t.frames[x]
    requires forall x: nat | x != f && DirtyHolder(s.live, x) :: DirtyHolder(t.live, x)
    requires Loaded(t, f) && !t.frames[f].dirty ==>
      Strip(PageAt(t, f)) == Strip(t.disk[PageIdOf(PageAt(t, f))]) || DirtyHolder(t.live, f)
    ensures CleanMatchesDisk(t)
  {
    hide Strip, PageIdOf, HeaderOk;
    forall x: nat | Loaded(t, x) && !t.frames[x].dirty
      ensures Strip(PageAt(t, x)) == Strip(t.disk[PageIdOf(PageAt(t, x))]) || DirtyHolder(t.live, x)
    {
      if x != f {
        assert Loaded(s, x) && PageAt(s, x) == PageAt(t, x);
      }
    }
  }

  // A mutation mark survives as long as its guard does.
  lemma MarksCarry(live: map<PinnedPage, Pin>, live': map<PinnedPage, Pin>, f: nat)
    requires forall h | h in live && live[h].frame == f && live[h].dirty ::
      h in live' && live'[h].frame == f && live'[h].dirty
    ensures DirtyHolder(live, f) ==> DirtyHolder(live', f)
  {
  }

  // ---- the transitions of a pool ----

  // One more pin on a resident frame; the frame leaves the replacer.
  ghost function Pinned(s: State, g: PinnedPage, f: nat): State
    requires Loaded(s, f)
  {
    var frame := s.frames[f];
    s.(frames := s.frames[f := frame.(pins := frame.pins + 1)],
       lru := Without(s.lru, f),
       live := s.live[g := Pin(f, PageIdOf(frame.page.value), false)])
  }

  lemma PinnedReplacer(s: State, g: PinnedPage, f: nat)
    requires TableInverse(s) && ReplacerExact(s) && Loaded(s, f)
    ensures ReplacerExact(Pinned(s, g, f))
    ensures OrderOf(Pinned(s, g, f)) == Without(OrderOf(s), PageIdOf(PageAt(s, f)))
  {
    hide Strip, PageIdOf, HeaderOk, Get, Finalize, Deserialize;
    var t := Pinned(s, g, f);
    WithoutProperties(s.lru, f);
    forall x: nat ensures Loaded(t, x) <==> Loaded(s, x) {}
    assert ReplacerExact(t);
    IdsUnchanged(s, t, t.lru);
    IdsWithout(s, s.lru, f);
  }

  lemma PinnedOk(s: State, g: PinnedPage, f: nat)
    requires StateOk(s) && Loaded(s, f) && g !in s.live
    ensures StateOk(Pinned(s, g, f)) && ViewOf(Pinned(s, g, f)) == ViewOf(s)
    ensures OrderOf(Pinned(s, g, f)) == Without(OrderOf(s), PageIdOf(PageAt(s, f)))
  {
    hide Strip, PageIdOf, HeaderOk, Get, Finalize, Deserialize;
    hide OrderOf, ReplacerExact, HoldersOf, DirtyHolder;
    var t := Pinned(s, g, f);
    PinnedReplacer(s, g, f);
    forall x: nat ensures Loaded(t, x) <==> Loaded(s, x) {}
    assert TableInverse(t);
    assert PinsOwned(t) by {
      forall x: nat | x < |s.frames| ensures t.frames[x].pins == |HoldersOf(t.live, x)| {
        HoldersAfterPin(s.live, g, t.live[g], x);
      }
    }
    forall x: nat ensures DirtyHolder(s.live, x) ==> DirtyHolder(t.live, x) {
      MarksCarry(s.live, t.live, x);
    }
    CleanCarries(s, t, f);
  }

  // A page read from disk enters an empty frame, pinned once.
  ghost function Filled(s: State, g: PinnedPage, f: nat, p: Page): State
    requires f < |s.frames|
  {
    s.(frames := s.frames[f := Frame(Some(p), 1, false)],
       table := s.table[PageIdOf(p) := f],
       live := s.live[g := Pin(f, PageIdOf(p), false)])
  }

  lemma FilledReplacer(s: State, g: PinnedPage, f: nat, p: Page)
    requires ReplacerExact(s) && f < |s.frames| && !Loaded(s, f)
    ensures ReplacerExact(Filled(s, g, f, p))
    ensures OrderOf(Filled(s, g, f, p)) == OrderOf(s)
  {
    hide Strip, PageIdOf, HeaderOk, Get, Finalize, Deserialize;
    var t := Filled(s, g, f, p);
    forall x: nat ensures Loaded(t, x) <==> Loaded(s, x) || x == f {}
    IdsUnchanged(s, t, s.lru);
  }

  lemma FilledOk(s: State, g: PinnedPage, f: nat, p: Page)
    requires StateOk(s) && f < |s.frames| && !Loaded(s, f) && s.frames[f].pins == 0 && g !in s.live
    requires HeaderOk(p, PageIdOf(p)) && PageIdOf(p) < |s.disk| && PageIdOf(p) !in s.table
    requires Strip(p) == Strip(s.disk[PageIdOf(p)])
    ensures StateOk(Filled(s, g, f, p)) && ViewOf(Filled(s, g, f, p)) == ViewOf(s)
    ensures OrderOf(Filled(s, g, f, p)) == OrderOf(s)
  {
    hide Strip, PageIdOf, HeaderOk, Get, Finalize, Deserialize;
    hide OrderOf, ReplacerExact, HoldersOf, DirtyHolder;
    var t := Filled(s, g, f, p);
    assert HeaderOk(p, PageIdOf(p));
    forall x: nat ensures Loaded(t, x) <==> Loaded(s, x) || x == f {}
    assert TableInverse(t);
    assert PinsOwned(t) by {
      forall x: nat | x < |s.frames| ensures t.frames[x].pins == |HoldersOf(t.live, x)| {
        HoldersAfterPin(s.live, g, t.live[g], x);
      }
    }
    forall x: nat ensures DirtyHolder(s.live, x) ==> DirtyHolder(t.live, x) {
      MarksCarry(s.live, t.live, x);
    }
    CleanCarries(s, t, f);
    FilledReplacer(s, g, f, p);
  }

  // A guard marks itself and replaces the bytes of its frame.
  ghost function Written(s: State, g: PinnedPage, p: Page): State
    requires g in s.live && Loaded(s, s.live[g].frame)
  {
    var f := s.live[g].frame;
    s.(frames := s.frames[f := s.frames[f].(page := Some(p))],
       live := s.live[g := s.live[g].(dirty := true)])
  }

  lemma WrittenReplacer(s: State, g: PinnedPage, p: Page)
    requires ReplacerExact(s) && g in s.live && Loaded(s, s.live[g].frame)
    requires PageIdOf(p) == PageIdOf(PageAt(s, s.live[g].frame))
    ensures ReplacerExact(Written(s, g, p))
    ensures OrderOf(Written(s, g, p)) == OrderOf(s)
  {
    hide Strip, PageIdOf, HeaderOk, Get, Finalize, Deserialize;
    var t := Written(s, g, p);
    forall x: nat ensures Loaded(t, x) <==> Loaded(s, x) {}
    IdsUnchanged(s, t, s.lru);
  }

  lemma WrittenOk(s: State, g: PinnedPage, p: Page)
    requires StateOk(s) && g in s.live && HeaderOk(p, s.live[g].id)
    ensures StateOk(Written(s, g, p))
    ensures s.live[g].id < |s.disk|
    ensures ViewOf(Written(s, g, p)) == ViewOf(s)[s.live[g].id := Strip(p)]
    ensures OrderOf(Written(s, g, p)) == OrderOf(s)
  {
    hide Strip, PageIdOf, HeaderOk, Get, Finalize, Deserialize;
    hide OrderOf, ReplacerExact, HoldersOf;
    var t := Written(s, g, p);
    var f := s.live[g].frame;
    HeaderId(p, s.live[g].id);
    forall x: nat ensures Loaded(t, x) <==> Loaded(s, x) {}
    assert TableInverse(t);
    assert PinsOwned(t) by {
      forall x: nat | x < |s.frames| ensures t.frames[x].pins == |HoldersOf(t.live, x)| {
        HoldersAfterMark(s.live, g, t.live[g], x);
      }
    }
    assert t.live[g].frame == f && t.live[g].dirty;
    forall x: nat ensures DirtyHolder(s.live, x) ==> DirtyHolder(t.live, x) {
      MarksCarry(s.live, t.live, x);
    }
    CleanCarries(s, t, f);
    WrittenReplacer(s, g, p);
  }

  // A guard is gone: its mark reaches the frame, its pin is given back, and the
  // last pin puts the frame at the young end of the replacer.
  ghost function Unpinned(s: State, g: PinnedPage): State
    requires g in s.live && Loaded(s, s.live[g].frame) && s.frames[s.live[g].frame].pins > 0
  {
    var f := s.live[g].frame;
    var frame := s.frames[f];
    s.(frames := s.frames[f := Frame(frame.page, frame.pins - 1, frame.dirty || s.live[g].dirty)],
       lru := if frame.pins == 1 then Without(s.lru, f) + [f] else s.lru,
       live := s.live - {g})
  }

  lemma UnpinnedReplacer(s: State, g: PinnedPage)
    requires ReplacerExact(s) && g in s.live && Loaded(s, s.live[g].frame)
    requires s.frames[s.live[g].frame].pins > 0
    ensures ReplacerExact(Unpinned(s, g))
    ensures OrderOf(Unpinned(s, g)) == OrderOf(s) +
      (if s.frames[s.live[g].frame].pins == 1 then [PageIdOf(PageAt(s, s.live[g].frame))] else [])
  {
    hide Strip, PageIdOf, HeaderOk, Get, Finalize, Deserialize;
    var t := Unpinned(s, g);
    var f := s.live[g].frame;
    WithoutProperties(s.lru, f);
    forall x: nat ensures Loaded(t, x) <==> Loaded(s, x) {}
    IdsUnchanged(s, t, s.lru);
    if s.frames[f].pins == 1 {
      DistinctSnoc(s.lru, f);
      IdsSnoc(t, s.lru, f);
    }
  }

  lemma UnpinnedOk(s: State, g: PinnedPage)
    requires StateOk(s) && g in s.live
    ensures s.frames[s.live[g].frame].pins > 0
    ensures StateOk(Unpinned(s, g)) && ViewOf(Unpinned(s, g)) == ViewOf(s)
    ensures OrderOf(Unpinned(s, g)) ==
      OrderOf(s) + (if s.frames[s.live[g].frame].pins == 1 then [s.live[g].id] else [])
  {
    hide Strip, PageIdOf, HeaderOk, Get, Finalize, Deserialize;
    hide OrderOf, ReplacerExact, HoldersOf, DirtyHolder;
    HeldFrameIsPinned(s, g);
    var t := Unpinned(s, g);
    var f := s.live[g].frame;
    forall x: nat ensures Loaded(t, x) <==> Loaded(s, x) {}
    assert TableInverse(t);
    assert PinsOwned(t) by {
      forall x: nat | x < |s.frames| ensures t.frames[x].pins == |HoldersOf(t.live, x)| {
        HoldersAfterUnpin(s.live, g, x);
      }
    }
    forall x: nat | x != f || !s.live[g].dirty ensures DirtyHolder(s.live, x) ==> DirtyHolder(t.live, x) {
      MarksCarry(s.live, t.live, x);
    }
    CleanCarries(s, t, f);
    UnpinnedReplacer(s, g);
  }

  // A dirty frame is finalized and written to its place on disk.
  ghost function Flushed(s: State, f: nat): State
    requires Loaded(s, f) && PageIdOf(PageAt(s, f)) < |s.disk|
  {
    var p := Finalize(PageAt(s, f));
    s.(disk := s.disk[PageIdOf(PageAt(s, f)) := p],
       frames := s.frames[f := s.frames[f].(page := Some(p), dirty := false)])
  }

  lemma FlushedOk(s: State, f: nat)
    requires StateOk(s) && Loaded(s, f)
    ensures DiskWrite(s.disk, Finalize(PageAt(s, f))) == Ok(Flushed(s, f).disk)
    ensures StateOk(Flushed(s, f)) && ViewOf(Flushed(s, f)) == ViewOf(s)
    ensures OrderOf(Flushed(s, f)) == OrderOf(s)
    ensures Strip(Flushed(s, f).disk[PageIdOf(PageAt(s, f))]) == Strip(PageAt(s, f))
    ensures SoundDisk(s.disk) ==> SoundDisk(Flushed(s, f).disk)
  {
    hide Strip, PageIdOf, Get, Finalize, Deserialize;
    var old' := PageAt(s, f);
    var id := PageIdOf(old');
    var p := Finalize(old');
    var t := Flushed(s, f);
    FinalizedAccepted(old', id);
    StripFinalize(old');
    SameHeader(old', p);
    forall x: nat ensures Loaded(t, x) <==> Loaded(s, x) {}
    forall x: nat | Loaded(s, x) && x != f ensures PageAt(t, x) == PageAt(s, x) && PageIdOf(PageAt(s, x)) != id {}
    assert TableInverse(t);
    IdsUnchanged(s, t, s.lru);
  }

  // A clean unpinned frame is emptied.
  ghost function Emptied(s: State, f: nat): State
    requires Loaded(s, f)
  {
    s.(frames := s.frames[f := Frame(None, 0, false)],
       table := s.table - {PageIdOf(PageAt(s, f))},
       lru := Without(s.lru, f))
  }

  lemma EmptiedOk(s: State, f: nat)
    requires StateOk(s) && Loaded(s, f) && s.frames[f].pins == 0 && !s.frames[f].dirty
    ensures StateOk(Emptied(s, f)) && ViewOf(Emptied(s, f)) == ViewOf(s)
    ensures OrderOf(Emptied(s, f)) == Without(OrderOf(s), PageIdOf(PageAt(s, f)))
  {
    hide Strip, PageIdOf, Get, Finalize, Deserialize;
    EmptiedKeeps(s, f);
    UnpinnedHasNoHolder(s, f);
    assert !DirtyHolder(s.live, f);
  }

  // The part of emptying that does not need the frame to be clean.
  lemma EmptiedReplacer(s: State, f: nat)
    requires TableInverse(s) && ReplacerExact(s) && Loaded(s, f)
    ensures ReplacerExact(Emptied(s, f))
    ensures OrderOf(Emptied(s, f)) == Without(OrderOf(s), PageIdOf(PageAt(s, f)))
  {
    hide Strip, PageIdOf, HeaderOk, Get, Finalize, Deserialize;
    var t := Emptied(s, f);
    WithoutProperties(s.lru, f);
    forall x: nat ensures Loaded(t, x) <==> Loaded(s, x) && x != f {}
    assert ReplacerExact(t);
    IdsUnchanged(s, t, t.lru);
    IdsWithout(s, s.lru, f);
  }

  lemma EmptiedKeeps(s: State, f: nat)
    requires StateOk(s) && Loaded(s, f) && s.frames[f].pins == 0
    ensures StateOk(Emptied(s, f))
    ensures OrderOf(Emptied(s, f)) == Without(OrderOf(s), PageIdOf(PageAt(s, f)))
    ensures forall i | 0 <= i < |s.disk| && i != PageIdOf(PageAt(s, f)) :: Seen(Emptied(s, f), i) == Seen(s, i)
  {
    hide Strip, PageIdOf, HeaderOk, Get, Finalize, Deserialize;
    hide OrderOf, ReplacerExact, DirtyHolder;
    var t := Emptied(s, f);
    forall x: nat ensures Loaded(t, x) <==> Loaded(s, x) && x != f {}
    assert TableInverse(t);
    assert PinsOwned(t) by {
      UnpinnedHasNoHolder(s, f);
      assert HoldersOf(s.live, f) == {};
    }
    CleanCarries(s, t, f);
    EmptiedReplacer(s, f);
  }

  // A page is added at the end of the disk.
  lemma AppendedOk(s: State, p: Page)
    requires StateOk(s) && |s.disk| <= MAX_DISK_ID
    ensures StateOk(s.(disk := s.disk + [p]))
    ensures ViewOf(s.(disk := s.disk + [p])) == ViewOf(s) + [Strip(p)]
    ensures OrderOf(s.(disk := s.disk + [p])) == OrderOf(s)
  {
    hide Strip, PageIdOf, Get, Finalize, Deserialize;
    var t := s.(disk := s.disk + [p]);
    forall x: nat ensures Loaded(t, x) <==> Loaded(s, x) {}
    assert TableInverse(t);
    IdsUnchanged(s, t, s.lru);
  }

  // The final page of the disk goes; it is not resident.
  lemma TruncatedOk(s: State, id: nat)
    requires StateOk(s) && id == |s.disk| - 1 && id !in s.table
    ensures StateOk(s.(disk := s.disk[..id]))
    ensures ViewOf(s.(disk := s.disk[..id])) == ViewOf(s)[..id]
    ensures OrderOf(s.(disk := s.disk[..id])) == OrderOf(s)
  {
    hide Strip, PageIdOf, Get, Finalize, Deserialize;
    var t := s.(disk := s.disk[..id]);
    forall x: nat ensures Loaded(t, x) <==> Loaded(s, x) {}
    assert TableInverse(t);
    IdsUnchanged(s, t, s.lru);
  }

  // ---- what a pool in good state knows ----

  lemma GuardFacts(s: State, g: PinnedPage)
    requires StateOk(s) && g in s.live
    ensures var pin := s.live[g];
      && Loaded(s, pin.frame) && s.frames[pin.frame].pins > 0
      && PageIdOf(PageAt(s, pin.frame)) == pin.id && HeaderOk(PageAt(s, pin.frame), pin.id)
      && pin.id in s.table && s.table[pin.id] == pin.frame && pin.id < |s.disk|
    ensures s.frames[s.live[g].frame].pins == |HoldersOf(s.live, s.live[g].frame)|
    ensures TableInverse(s) && ViewOf(s)[s.live[g].id] == Strip(PageAt(s, s.live[g].frame))
  {
    hide Strip, PageIdOf, HeaderOk, Get;
    HeldFrameIsPinned(s, g);
  }

  lemma SizeFacts(s: State)
    requires StateOk(s)
    ensures 0 < |s.frames| && |s.disk| <= MAX_DISK_ID + 1
    ensures forall id | id in s.table :: id < |s.disk|
  {
  }

  lemma ResidentFacts(s: State, id: Word64)
    requires StateOk(s) && id in s.table
    ensures Loaded(s, s.table[id]) && PageIdOf(PageAt(s, s.table[id])) == id && id < |s.disk|
    ensures HeaderOk(PageAt(s, s.table[id]), id)
  {
    hide Strip, PageIdOf, HeaderOk, Get;
  }

  lemma FrameFacts(s: State, f: nat)
    requires StateOk(s) && f < |s.frames|
    ensures !Loaded(s, f) ==> s.frames[f] == Frame(None, 0, false)
    ensures Loaded(s, f) ==>
      var id := PageIdOf(PageAt(s, f));
      id in s.table && s.table[id] == f && id < |s.disk| && HeaderOk(PageAt(s, f), id)
    ensures f in s.lru <==> Loaded(s, f) && s.frames[f].pins == 0
  {
    hide Strip, PageIdOf, HeaderOk, Get;
  }

  // The oldest frame of the replacer holds the first page of the eviction order.
  lemma OldestFacts(s: State)
    requires StateOk(s)
    ensures s.lru == [] <==> OrderOf(s) == []
    ensures s.lru == [] <==> forall f: nat | f < |s.frames| :: Loaded(s, f) ==> s.frames[f].pins > 0
    ensures s.lru != [] ==>
      var f := s.lru[0];
      && Loaded(s, f) && s.frames[f].pins == 0
      && OrderOf(s)[0] == PageIdOf(PageAt(s, f))
      && Without(OrderOf(s), PageIdOf(PageAt(s, f))) == OrderOf(s)[1..]
  {
    hide Strip, PageIdOf, HeaderOk, Get;
    if s.lru != [] {
      assert s.lru[0] in s.lru;
    } else {
      forall f: nat | Loaded(s, f) ensures s.frames[f].pins > 0 {
        assert f !in s.lru;
      }
    }
  }

  // A disk page that is not resident is what the flat array shows.
  lemma ReadFacts(s: State, id: Word64)
    requires StateOk(s) && id !in s.table && DiskRead(s.disk, id).Ok?
    ensures id < |s.disk| && DiskRead(s.disk, id).value == s.disk[id]
    ensures HeaderOk(s.disk[id], id) && PageIdOf(s.disk[id]) == id
    ensures ViewOf(s)[id] == Strip(s.disk[id])
  {
    AcceptedExactly(s.disk[id], id);
    hide Strip, Get, Finalize;
  }

  // A created page can be written at the end of the file while its id has a
  // file offset.
  lemma CreateFacts(disk: seq<Page>, t: PageType)
    requires |disk| < INVALID_ID
    ensures Create(t, |disk|).Ok?
    ensures var p := Create(t, |disk|).value;
      && PageIdOf(p) == |disk| && HeaderOk(p, |disk|)
      && DiskWrite(disk, p) == (if |disk| <= MAX_DISK_ID then Ok(disk + [p]) else Err(OutOfRange))
      && (SoundDisk(disk) && |disk| <= MAX_DISK_ID ==> SoundDisk(disk + [p]))
  {
    CreateWellFormed(t, |disk|);
    HeaderId(Create(t, |disk|).value, |disk|);
    hide RawPage, Finalize, PageIdOf, Get, Deserialize, HeaderOk;
  }

  // ---- the guard ----

  // A move-only pin on one frame. The frame number stands for the raw page
  // pointer; manager is null once the guard has been released or moved from.
  class PinnedPage {
    var manager: BufferPoolManager?
    var pageId: Word64
    var frame: nat
    var dirty: bool

    // The guard owns a pin that its pool knows about.
    ghost predicate Held()
      reads this, manager
    {
      && manager != null
      && this in manager.live
      && manager.live[this] == Pin(frame, pageId, dirty)
    }

    constructor (manager: BufferPoolManager, pageId: Word64, frame: nat)
      ensures this.manager == manager && this.pageId == pageId && this.frame == frame && !dirty
    {
      this.manager, this.pageId, this.frame, this.dirty := manager, pageId, frame, false;
    }

    // Moving transfers the pin, and with it the mutation mark. Moving from an
    // empty guard makes an empty guard.
    constructor Move(other: PinnedPage)
      requires other.manager != null ==> other.Held() && other.manager.Valid()
      modifies other, other.manager
      ensures manager == old(other.manager) && other.manager == null
      ensures pageId == old(other.pageId) && frame == old(other.frame) && dirty == old(other.dirty)
      ensures manager != null ==>
        && manager.Valid() && Held()
        && manager.live == (old(other.manager.live) - {other})[this := Pin(frame, pageId, dirty)]
        && manager.View() == old(other.manager.View()) && manager.Order() == old(other.manager.Order())
    {
      manager, pageId, frame, dirty := null, INVALID_ID, 0, false;
      new;
      hide BufferPoolManager.Valid, BufferPoolManager.View, BufferPoolManager.Order;
      Take(other);
    }

    // What is left of a move once this guard is empty.
    method Take(other: PinnedPage)
      requires manager == null && other != this
      requires other.manager != null ==> other.Held() && other.manager.Valid() && this !in other.manager.live
      modifies this, other, other.manager
      ensures manager == old(other.manager) && other.manager == null
      ensures pageId == old(other.pageId) && frame == old(other.frame) && dirty == old(other.dirty)
      ensures manager != null ==>
        && manager.Valid() && Held()
        && manager.live == (old(other.manager.live) - {other})[this := Pin(frame, pageId, dirty)]
        && manager.View() == old(other.manager.View()) && manager.Order() == old(other.manager.Order())
    {
      hide BufferPoolManager.Valid, BufferPoolManager.View, BufferPoolManager.Order;
      manager, pageId, frame, dirty := other.manager, other.pageId, other.frame, other.dirty;
      other.Reset();
      if manager != null {
        manager.HandOver(other, this);
      }
    }

    // Reading through the guard shows the latest contents of its page.
    method Read() returns (p: Page)
      requires Held() && manager.Valid()
      ensures pageId < |manager.View()| && Strip(p) == manager.View()[pageId]
      ensures HeaderOk(p, pageId)
    {
      GuardFacts(manager.Now(), this);
      p := manager.frames[frame].page.value;
    }

    // mutable_page(): the guard is marked and the bytes of the frame change at
    // once, but the frame's own dirty flag stays as it is. Clients keep the
    // page header.
    method Write(p: Page)
      requires Held() && manager.Valid() && HeaderOk(p, pageId)
      modifies this, manager
      ensures unchanged(`manager) && unchanged(`pageId) && unchanged(`frame)
      ensures manager.Valid() && Held() && dirty
      ensures manager.live == old(manager.live)[this := Pin(frame, pageId, true)]
      ensures pageId < |old(manager.View())|
      ensures manager.View() == old(manager.View())[pageId := Strip(p)]
      ensures manager.Order() == old(manager.Order())
      ensures manager.table.Keys == old(manager.table.Keys) && |manager.frames| == old(|manager.frames|)
      ensures manager.disk == old(manager.disk)
    {
      hide StateOk, ViewOf, OrderOf, Strip, PageIdOf, HeaderOk, Get, Finalize, Deserialize, RawPage;
      GuardFacts(manager.Now(), this);
      WrittenOk(manager.Now(), this, p);
      ghost var after := Written(manager.Now(), this, p);
      dirty := true;
      manager.live := manager.live[this := Pin(frame, pageId, true)];
      manager.frames := manager.frames[frame := manager.frames[frame].(page := Some(p))];
      assert manager.Now() == after;
    }

    // Releasing passes the mutation mark on to the frame and gives the pin back;
    // the last release puts the page at the young end of the replacer.
    // Releasing twice is harmless.
    method Release() returns (r: Result<()>)
      requires manager != null ==> Held() && manager.Valid()
      modifies this, manager
      ensures manager == null && r == Ok(())
      ensures var m := old(manager);
        m != null ==>
          && m.Valid()
          && m.live == old(manager.live) - {this}
          && m.View() == old(manager.View())
          && m.Order() == old(manager.Order()) +
               (if exists g :: g in m.live && m.live[g].frame == old(frame) then [] else [old(pageId)])
          && m.table == old(manager.table)
          && |m.frames| == old(|manager.frames|)
          && m.disk == old(manager.disk)
    {
      if manager == null {
        return Ok(());
      }
      var m, id, d := manager, pageId, dirty;
      Reset();
      r := m.UnpinPage(id, d, this);
    }

    method Reset()
      modifies this
      ensures manager == null && pageId == INVALID_ID && !dirty
    {
      manager, pageId, frame, dirty := null, INVALID_ID, 0, false;
    }

    // Move assignment: this guard's own pin is released first. Assigning a guard
    // to itself does nothing.
    method MoveFrom(other: PinnedPage)
      requires other.manager != null ==> other.Held() && other.manager.Valid()
      requires other.manager != null && this in other.manager.live ==> manager == other.manager
      requires manager != null ==> Held() && manager.Valid()
      modifies this, manager, other, other.manager
      ensures other == this ==>
        && unchanged(this)
        && (manager != null ==> unchanged(manager))
      ensures manager == old(other.manager) && pageId == old(other.pageId) && dirty == old(other.dirty)
      ensures other != this ==> other.manager == null
      ensures manager != null ==> manager.Valid() && Held() && manager.View() == old(other.manager.View())
      ensures manager != null && other != this ==> manager.live.Keys == old(other.manager.live.Keys) - {other} + {this}
      ensures var m := old(manager);
        m != null ==>
          && m.Valid() && m.View() == old(manager.View())
          && (other != this && m != manager ==> m.live == old(manager.live) - {this})
    {
      hide BufferPoolManager.Valid, BufferPoolManager.View, BufferPoolManager.Order;
      if this == other {
        return;
      }
      var _ := Release();
      Take(other);
    }
  }

  ghost function Moved(s: State, g: PinnedPage, h: PinnedPage): State
    requires g in s.live
  {
    s.(live := (s.live - {g})[h := s.live[g]])
  }

  lemma MovedReplacer(s: State, g: PinnedPage, h: PinnedPage)
    requires ReplacerExact(s) && g in s.live
    ensures ReplacerExact(Moved(s, g, h)) && OrderOf(Moved(s, g, h)) == OrderOf(s)
  {
    hide Strip, PageIdOf, HeaderOk, Get;
    forall f: nat ensures Loaded(Moved(s, g, h), f) <==> Loaded(s, f) {}
    IdsUnchanged(s, Moved(s, g, h), s.lru);
  }

  lemma MovedOk(s: State, g: PinnedPage, h: PinnedPage)
    requires StateOk(s) && g in s.live && h !in s.live
    ensures StateOk(Moved(s, g, h))
    ensures ViewOf(Moved(s, g, h)) == ViewOf(s) && OrderOf(Moved(s, g, h)) == OrderOf(s)
  {
    hide Strip, PageIdOf, HeaderOk, Get;
    hide ReplacerExact, OrderOf;
    var t := Moved(s, g, h);
    MovedReplacer(s, g, h);
    forall f: nat ensures Loaded(t, f) <==> Loaded(s, f) {}
    assert TableInverse(t);
    assert PinsOwned(t) by {
      forall f: nat | f < |s.frames| ensures t.frames[f].pins == |HoldersOf(t.live, f)| {
        HoldersAfterUnpin(s.live, g, f);
        HoldersAfterPin(s.live - {g}, h, s.live[g], f);
      }
    }
    forall f: nat ensures DirtyHolder(s.live, f) ==> DirtyHolder(t.live, f) {
      if DirtyHolder(s.live, f) {
        var x: PinnedPage :| x in s.live && s.live[x].frame == f && s.live[x].dirty;
        var y := if x == g then h else x;
        assert y in t.live && t.live[y].frame == f && t.live[y].dirty;
      }
    }
    CleanCarries(s, t, |s.frames|);
  }

  // ---- the pool ----

  class BufferPoolManager {
    var disk: seq<Page>
    var frames: seq<Frame>
    var table: map<Word64, nat>
    var lru: seq<nat>
    ghost var live: map<PinnedPage, Pin>

    ghost function Now(): State
      reads this
    {
      State(disk, frames, table, lru, live)
    }

    ghost predicate Valid()
      reads this
    {
      StateOk(Now())
    }

    ghost function View(): (view: seq<Page>)
      requires Valid()
      reads this
      ensures |view| == |disk|
    {
      ViewOf(Now())
    }

    ghost function Order(): seq<Word64>
      requires Valid()
      reads this
    {
      OrderOf(Now())
    }

    ghost predicate HasEmptyFrame()
      reads this
    {
      exists f: nat :: f < |frames| && frames[f].page.None?
    }

    constructor (disk: seq<Page>, frameCount: nat)
      requires frameCount > 0 && |disk| <= MAX_DISK_ID + 1
      ensures Valid() && this.disk == disk && |frames| == frameCount
      ensures live == map[] && table == map[] && Order() == []
      ensures forall i | 0 <= i < |disk| :: View()[i] == Strip(disk[i])
    {
      this.disk := disk;
      frames := seq(frameCount, i => Frame(None, 0, false));
      table, lru, live := map[], [], map[];
      new;
      forall f: nat ensures HoldersOf(live, f) == {} {}
    }

    // A pin changes hands; what the pool holds stays as it is.
    ghost method HandOver(g: PinnedPage, h: PinnedPage)
      requires Valid() && g in live && h !in live
      modifies this`live
      ensures Valid() && live == (old(live) - {g})[h := old(live)[g]]
      ensures View() == old(View()) && Order() == old(Order())
    {
      hide StateOk, ViewOf, OrderOf;
      MovedOk(Now(), g, h);
      live := (live - {g})[h := live[g]];
    }

    // The first empty frame, or else the oldest unpinned one.
    method AcquireFrame() returns (r: Result<nat>)
      requires Valid()
      ensures r.Ok? ==> r.value < |frames|
      ensures r.Ok? && HasEmptyFrame() ==> frames[r.value].page.None?
      ensures r.Ok? && !HasEmptyFrame() ==> lru != [] && r.value == lru[0]
      ensures r.Err? <==> forall f: nat | f < |frames| :: frames[f].page.Some? && frames[f].pins > 0
      ensures r.Err? ==> r.error == ResourceExhausted
    {
      for f := 0 to |frames|
        invariant forall x: nat | x < f :: frames[x].page.Some?
      {
        if frames[f].page.None? {
          return Ok(f);
        }
      }
      if lru == [] {
        return Err(ResourceExhausted);
      }
      assert lru[0] in lru;
      return Ok(lru[0]);
    }

    // Writes a dirty frame back; a clean or empty one is left alone.
    method FlushFrame(f: nat) returns (r: Result<()>)
      requires Valid() && f < |frames|
      modifies this
      ensures Valid() && r == Ok(())
      ensures View() == old(View()) && Order() == old(Order())
      ensures unchanged(`table) && unchanged(`lru) && unchanged(`live)
      ensures |frames| == old(|frames|) && |disk| == old(|disk|)
      ensures !frames[f].dirty && frames[f].pins == old(frames[f].pins)
      ensures frames[f].page.Some? == old(frames[f].page.Some?)
      ensures frames[f].page.Some? ==> PageIdOf(frames[f].page.value) == old(PageIdOf(frames[f].page.value))
      ensures forall x: nat | x < |frames| && x != f :: frames[x] == old(frames[x])
      ensures forall i: Word64 | i < |disk| && i !in table :: disk[i] == old(disk)[i]
      ensures old(SoundDisk(disk)) ==> SoundDisk(disk)
    {
      hide StateOk, ViewOf, OrderOf, Strip, PageIdOf, HeaderOk, Get, Finalize, Deserialize, RawPage;
      FrameFacts(Now(), f);
      if frames[f].page.None? || !frames[f].dirty {
        return Ok(());
      }
      FlushedOk(Now(), f);
      StripFinalize(frames[f].page.value);
      SameHeader(frames[f].page.value, Finalize(frames[f].page.value));
      ghost var after := Flushed(Now(), f);
      var page := Finalize(frames[f].page.value);
      frames := frames[f := frames[f].(page := Some(page))];
      var written := DiskWrite(disk, page);
      if written.Err? {
        return Forward(written);
      }
      disk := written.value;
      frames := frames[f := frames[f].(dirty := false)];
      assert Now() == after;
      return Ok(());
    }

    // Empties an unpinned frame, writing it back first.
    method PrepareFrameForUse(f: nat) returns (r: Result<()>)
      requires Valid() && f < |frames| && frames[f].pins == 0
      modifies this
      ensures Valid() && r == Ok(()) && View() == old(View())
      ensures unchanged(`live) && |frames| == old(|frames|) && |disk| == old(|disk|)
      ensures frames[f] == Frame(None, 0, false)
      ensures old(frames[f].page.None?) ==> unchanged(this)
      ensures old(frames[f].page.Some?) ==>
        var id := old(PageIdOf(frames[f].page.value));
        table == old(table) - {id} && Order() == Without(old(Order()), id)
      ensures forall i: Word64 | i < |disk| && i !in old(table) :: disk[i] == old(disk)[i]
      ensures old(SoundDisk(disk)) ==> SoundDisk(disk)
    {
      hide StateOk, ViewOf, OrderOf, Strip, PageIdOf;
      FrameFacts(Now(), f);
      if frames[f].page.None? {
        return Ok(());
      }
      if frames[f].pins != 0 {
        return Err(Internal);
      }
      var flushed := FlushFrame(f);
      if flushed.Err? {
        return flushed;
      }
      EmptiedOk(Now(), f);
      ghost var after := Emptied(Now(), f);
      var id := PageIdOf(frames[f].page.value);
      table := table - {id};
      RemoveFromReplacer(f);
      frames := frames[f := Frame(None, frames[f].pins, false)];
      assert Now() == after;
      return Ok(());
    }

    method RemoveFromReplacer(f: nat)
      modifies `lru
      ensures lru == Without(old(lru), f)
    {
      lru := Without(lru, f);
    }

    method AddToReplacer(f: nat)
      modifies `lru
      ensures lru == Without(old(lru), f) + [f]
    {
      RemoveFromReplacer(f);
      lru := lru + [f];
    }

    // A fetch pins the page and shows the current contents of the flat array.
    // It succeeds on a resident page, and on any other page that can be read
    // while some frame is empty or unpinned; it then displaces the oldest
    // unpinned page only if no frame is empty. A fetch that fails changes nothing.
    method FetchPage(id: Word64) returns (r: Result<PinnedPage>)
      requires Valid()
      modifies this
      ensures Valid() && View() == old(View())
      ensures r.Ok? <==>
        && id != INVALID_ID
        && (id in old(table) ||
             (DiskRead(old(disk), id).Ok? &&
              exists f: nat :: f < old(|frames|) && old(frames[f].pins == 0)))
      ensures r.Err? ==> unchanged(this)
      ensures id == INVALID_ID ==> r == Err(InvalidArgument)
      ensures r.Err? && id != INVALID_ID && id !in table ==>
        r.error == (if forall f: nat | f < |frames| :: frames[f].page.Some? && frames[f].pins > 0
                    then ResourceExhausted else DiskRead(disk, id).error)
      ensures r.Ok? ==>
        && fresh(r.value) && r.value.Held() && r.value.manager == this
        && r.value.pageId == id && !r.value.dirty
        && live == old(live)[r.value := Pin(r.value.frame, id, false)]
      ensures r.Ok? && id in old(table) ==>
        table == old(table) && Order() == Without(old(Order()), id)
      ensures r.Ok? && id !in old(table) && old(HasEmptyFrame()) ==>
        table.Keys == old(table.Keys) + {id} && Order() == old(Order())
      ensures r.Ok? && id !in old(table) && !old(HasEmptyFrame()) ==>
        && old(Order()) != []
        && table.Keys == old(table.Keys) - {old(Order())[0]} + {id}
        && Order() == old(Order())[1..]
      ensures |frames| == old(|frames|) && |disk| == old(|disk|)
      ensures old(SoundDisk(disk)) ==> SoundDisk(disk)
    {
      hide StateOk, ViewOf, OrderOf, Strip, PageIdOf, HeaderOk, Get, Finalize, Deserialize, RawPage;
      if id == INVALID_ID {
        return Err(InvalidArgument);
      }
      if id in table {
        var f := table[id];
        ResidentFacts(Now(), id);
        if frames[f].page.None? {
          return Err(Internal);
        }
        ghost var before := Now();
        frames := frames[f := frames[f].(pins := frames[f].pins + 1)];
        RemoveFromReplacer(f);
        var guard := PinFrame(f);
        PinnedOk(before, guard, f);
        assert Now() == Pinned(before, guard, f);
        return Ok(guard);
      }
      var acquired := AcquireFrame();
      if acquired.Err? {
        return Forward(acquired);
      }
      var f := acquired.value;
      var read := DiskRead(disk, id);
      if read.Err? {
        return Forward(read);
      }
      FrameFacts(Now(), f);
      OldestFacts(Now());
      ReadFacts(Now(), id);
      var prepared := PrepareFrameForUse(f);
      if prepared.Err? {
        return Forward(prepared);
      }
      ghost var before := Now();
      ReadFacts(before, id);
      frames := frames[f := Frame(Some(read.value), 1, false)];
      table := table[id := f];
      var guard := PinFrame(f);
      FilledOk(before, guard, f, read.value);
      assert Now() == Filled(before, guard, f, read.value);
      return Ok(guard);
    }

    method PinFrame(f: nat) returns (guard: PinnedPage)
      requires f < |frames| && frames[f].page.Some?
      modifies `live
      ensures fresh(guard) && guard.manager == this && guard.frame == f && !guard.dirty
      ensures guard.pageId == PageIdOf(frames[f].page.value)
      ensures live == old(live)[guard := Pin(f, guard.pageId, false)] && guard !in old(live)
    {
      guard := new PinnedPage(this, PageIdOf(frames[f].page.value), f);
      live := live[guard := Pin(f, guard.pageId, false)];
    }

    method UnpinPage(id: Word64, dirty: bool, ghost guard: PinnedPage) returns (r: Result<()>)
      requires Valid() && guard in live && live[guard].id == id && live[guard].dirty == dirty
      modifies this
      ensures r == Ok(()) && Valid() && View() == old(View())
      ensures live == old(live) - {guard}
      ensures Order() == old(Order()) +
        (if exists g :: g in live && live[g].frame == old(live)[guard].frame then [] else [id])
      ensures table == old(table) && |frames| == old(|frames|) && disk == old(disk)
    {
      hide StateOk, ViewOf, OrderOf, Strip, PageIdOf, HeaderOk, Get, Finalize, Deserialize, RawPage;
      GuardFacts(Now(), guard);
      UnpinnedOk(Now(), guard);
      ghost var after := Unpinned(Now(), guard);
      if id !in table {
        return Err(Internal);
      }
      var f := table[id];
      if frames[f].pins == 0 {
        return Err(Internal);
      }
      ghost var left := HoldersOf(live - {guard}, f);
      HoldersAfterUnpin(live, guard, f);
      assert left == {} <==> !exists g :: g in live - {guard} && live[g].frame == f;
      if dirty {
        frames := frames[f := frames[f].(dirty := true)];
      }
      frames := frames[f := frames[f].(pins := frames[f].pins - 1)];
      if frames[f].pins == 0 {
        AddToReplacer(f);
      }
      live := live - {guard};
      assert Now() == after;
      return Ok(());
    }

    // A new page takes the next position of the file and is written there at
    // once, so the flat array grows by one fresh page.
    method NewPage(t: PageType) returns (r: Result<PinnedPage>)
      requires Valid()
      modifies this
      ensures Valid()
      ensures r.Ok? <==> old(|disk|) <= MAX_DISK_ID && exists f: nat :: f < old(|frames|) && old(frames[f].pins == 0)
      ensures r.Err? ==> View() == old(View()) && live == old(live) && |disk| == old(|disk|)
      ensures r.Err? ==>
        r.error == (if exists f: nat :: f < old(|frames|) && old(frames[f].pins == 0)
                    then OutOfRange else ResourceExhausted)
      ensures (exists f: nat :: f < old(|frames|) && old(frames[f].pins == 0)) ==>
        (r == Err(OutOfRange) <==> old(|disk|) * 4096 >= 0x1_0000_0000_0000_0000)
      ensures r.Ok? ==>
        && |disk| == old(|disk|) + 1
        && View() == old(View()) + [Strip(Create(t, old(|disk|)).value)]
        && fresh(r.value) && r.value.Held() && r.value.manager == this
        && r.value.pageId == old(|disk|) && !r.value.dirty
        && live == old(live)[r.value := Pin(r.value.frame, r.value.pageId, false)]
      ensures |frames| == old(|frames|)
      ensures old(SoundDisk(disk)) ==> SoundDisk(disk)
    {
      hide StateOk, ViewOf, OrderOf, Strip, PageIdOf, HeaderOk, Get, Finalize, Deserialize, Create, DiskWrite, SoundDisk;
      SizeFacts(Now());
      if |disk| == INVALID_ID {
        return Err(ResourceExhausted);
      }
      var id: Word64 := |disk|;
      var created := Create(t, id);
      CreateFacts(disk, t);
      if created.Err? {
        return Forward(created);
      }
      var acquired := AcquireFrame();
      if acquired.Err? {
        return Forward(acquired);
      }
      var f := acquired.value;
      FrameFacts(Now(), f);
      OldestFacts(Now());
      var prepared := PrepareFrameForUse(f);
      if prepared.Err? {
        return Forward(prepared);
      }
      SizeFacts(Now());
      CreateFacts(disk, t);
      var written := DiskWrite(disk, created.value);
      if written.Err? {
        return Forward(written);
      }
      AppendedOk(Now(), created.value);
      disk := written.value;
      ghost var before := Now();
      frames := frames[f := Frame(Some(created.value), 1, false)];
      table := table[id := f];
      var guard := PinFrame(f);
      FilledOk(before, guard, f, created.value);
      assert Now() == Filled(before, guard, f, created.value);
      return Ok(guard);
    }

    method FlushPage(id: Word64) returns (r: Result<()>)
      requires Valid()
      modifies this
      ensures Valid() && View() == old(View()) && Order() == old(Order())
      ensures unchanged(`table) && unchanged(`lru) && unchanged(`live)
      ensures |frames| == old(|frames|) && |disk| == old(|disk|)
      ensures r.Ok? <==> id in table
      ensures r.Err? ==> r.error == NotFound
      // After a flush the disk holds the page, unless a guard has marked it and is still out.
      ensures r.Ok? && !DirtyHolder(live, table[id]) ==> Strip(disk[id]) == View()[id]
      ensures old(SoundDisk(disk)) ==> SoundDisk(disk)
    {
      if id !in table {
        return Err(NotFound);
      }
      r := FlushFrame(table[id]);
    }

    // With no guard out, flushing everything makes the disk equal the view.
    method FlushAllPages() returns (r: Result<()>)
      requires Valid()
      modifies this
      ensures Valid() && r == Ok(()) && View() == old(View()) && Order() == old(Order())
      ensures unchanged(`table) && unchanged(`lru) && unchanged(`live)
      ensures |frames| == old(|frames|) && |disk| == old(|disk|)
      ensures forall f: nat | f < |frames| :: !frames[f].dirty
      ensures live == map[] ==> forall i | 0 <= i < |disk| :: Strip(disk[i]) == View()[i]
      ensures old(SoundDisk(disk)) ==> SoundDisk(disk)
    {
      for f := 0 to |frames|
        invariant Valid() && View() == old(View()) && Order() == old(Order())
        invariant unchanged(`table) && unchanged(`lru) && unchanged(`live)
        invariant |frames| == old(|frames|) && |disk| == old(|disk|)
        invariant forall x: nat | x < f :: !frames[x].dirty
        invariant old(SoundDisk(disk)) ==> SoundDisk(disk)
      {
        r := FlushFrame(f);
        if r.Err? {
          return;
        }
      }
      CleanPoolMatchesDisk(Now());
      return Ok(());
    }

    // Only the final page of the file can be deleted, and only unpinned.
    method DeletePage(id: Word64) returns (r: Result<()>)
      requires Valid()
      modifies this
      ensures Valid()
      ensures r.Ok? <==> id + 1 == |old(disk)| && !(id in old(table) && old(frames[table[id]].pins > 0))
      ensures r.Err? ==> unchanged(this)
      ensures r.Err? ==>
        r.error == (if id == INVALID_ID then InvalidArgument
                    else if id in table && frames[table[id]].pins > 0 then ResourceExhausted
                    else DiskDelete(disk, id).error)
      ensures r.Err? && id != INVALID_ID && !(id in table && frames[table[id]].pins > 0) ==>
        r.error == (if id < |disk| then Unsupported else OutOfRange)
      ensures r.Ok? ==> View() == old(View())[..id] && live == old(live) && id !in table
      ensures r.Ok? ==> Order() == Without(old(Order()), id)
      ensures |frames| == old(|frames|)
      ensures old(SoundDisk(disk)) ==> SoundDisk(disk)
    {
      hide StateOk, ViewOf, OrderOf, Strip, PageIdOf, HeaderOk, Get, Finalize, Deserialize, RawPage;
      SizeFacts(Now());
      if id in table {
        ResidentFacts(Now(), id);
      }
      if id == INVALID_ID {
        return Err(InvalidArgument);
      }
      if id in table && frames[table[id]].pins != 0 {
        return Err(ResourceExhausted);
      }
      var deleted := DiskDelete(disk, id);
      if deleted.Err? {
        return Forward(deleted);
      }
      if id in table {
        var f := table[id];
        EmptiedKeeps(Now(), f);
        TruncatedOk(Emptied(Now(), f), id);
        ghost var after := Emptied(Now(), f).(disk := deleted.value);
        disk := deleted.value;
        RemoveFromReplacer(f);
        table := table - {id};
        frames := frames[f := Frame(None, 0, false)];
        assert Now() == after;
      } else {
        TruncatedOk(Now(), id);
        NotListed(Now(), id);
        disk := deleted.value;
      }
      return Ok(());
    }
  }

  lemma CleanPoolMatchesDisk(s: State)
    requires StateOk(s) && forall f: nat | f < |s.frames| :: !s.frames[f].dirty
    ensures s.live == map[] ==> forall i | 0 <= i < |s.disk| :: Strip(s.disk[i]) == ViewOf(s)[i]
  {
    hide Strip, PageIdOf, HeaderOk;
    if s.live == map[] {
      forall i | 0 <= i < |s.disk| ensures Strip(s.disk[i]) == ViewOf(s)[i] {
        if i in s.table {
          assert !DirtyHolder(s.live, s.table[i]);
        }
      }
    }
  }

  // A page that is not resident is not in the eviction order.
  lemma NotListed(s: State, id: Word64)
    requires StateOk(s) && id !in s.table
    ensures Without(OrderOf(s), id) == OrderOf(s)
  {
    NotAmong(s, s.lru, id);
    WithoutAbsent(OrderOf(s), id);
  }

  lemma {:induction false} NotAmong(s: State, fs: seq<nat>, id: Word64)
    requires TableInverse(s) && id !in s.table
    requires forall f | f in fs :: Loaded(s, f)
    ensures id !in IdsOf(s, fs)
  {
    if fs != [] {
      NotAmong(s, fs[1..], id);
    }
  }

  lemma {:induction false} WithoutAbsent<T>(s: seq<T>, x: T)
    requires x !in s
    ensures Without(s, x) == s
  {
    if s != [] {
      WithoutAbsent(s[1..], x);
    }
  }
}
