// Slotted pages: record bytes grow upwards from the header, 12-byte slot entries
// grow downwards from the end of the page.
module SlottedPages {
  import opened Results
  import opened ByteCodec
  import opened Pages

  const SLOT_COUNT_AT: nat := 40
  const FREE_START_AT: nat := 42
  const FREE_END_AT: nat := 44
  const RESERVED_AT: nat := 46
  const RECORD_DATA_START: nat := 48
  const SLOT_SIZE: nat := 12
  const SLOT_GENERATION: nat := 1
  const SLOT_ALLOCATED: nat := 1

  // The longest record that an empty page takes.
  const MAX_RECORD: nat := 4036

  function SlotCount(p: Page): nat {
    Get(p, SLOT_COUNT_AT, 2)
  }

  function FreeStart(p: Page): nat {
    Get(p, FREE_START_AT, 2)
  }

  function FreeEnd(p: Page): nat {
    Get(p, FREE_END_AT, 2)
  }

  function SlotAt(i: nat): int {
    PAGE_SIZE - (i + 1) * SLOT_SIZE
  }

  predicate BoundsOk(p: Page) {
    && RECORD_DATA_START <= FreeStart(p) <= FreeEnd(p) <= PAGE_SIZE
    && SlotCount(p) * SLOT_SIZE <= PAGE_SIZE - FreeEnd(p)
  }

  predicate SlotOk(p: Page, i: nat)
    requires BoundsOk(p) && i < SlotCount(p)
  {
    var o := SlotAt(i);
    && Get(p, o + 8, 4) == SLOT_ALLOCATED
    && RECORD_DATA_START <= Get(p, o, 2) <= FreeStart(p)
    && Get(p, o + 2, 2) <= FreeStart(p) - Get(p, o, 2)
  }

  // What loading a slotted page checks.
  predicate SlottedOk(p: Page) {
    && (TypeOf(p) == Heap || TypeOf(p) == Catalog)
    && BoundsOk(p)
    && forall i: nat | i < SlotCount(p) :: SlotOk(p, i)
  }

  function FreeBytes(p: Page): nat
    requires BoundsOk(p)
  {
    FreeEnd(p) - FreeStart(p)
  }

  function Record(p: Page, i: nat): seq<Byte>
    requires SlottedOk(p) && i < SlotCount(p)
  {
    assert SlotOk(p, i);
    var o := SlotAt(i);
    p[Get(p, o, 2)..Get(p, o, 2) + Get(p, o + 2, 2)]
  }

  // The records of a page in slot order.
  function RecordsOf(p: Page): (rs: seq<seq<Byte>>)
    requires SlottedOk(p)
    ensures |rs| == SlotCount(p)
  {
    seq(SlotCount(p), i requires 0 <= i < SlotCount(p) => Record(p, i))
  }

  // ---- what the writes of an insertion do to the bytes ----

  function SlotEntry(start: nat, length: nat): (s: seq<Byte>)
    ensures |s| == SLOT_SIZE
  {
    LittleEndian(2, start) + LittleEndian(2, length) + LittleEndian(4, SLOT_GENERATION) + LittleEndian(4, SLOT_ALLOCATED)
  }

  function HeapHeader(count: nat, start: nat, end: nat): (s: seq<Byte>)
    ensures |s| == 6
  {
    LittleEndian(2, count) + LittleEndian(2, start) + LittleEndian(2, end)
  }

  function Fits(p: Page, record: seq<Byte>): bool
    requires BoundsOk(p)
  {
    |record| + SLOT_SIZE <= FreeBytes(p)
  }

  // The page with one record more, in the order of the source's writes.
  function Written(p: Page, record: seq<Byte>): Page
    requires BoundsOk(p) && Fits(p, record)
  {
    var start, end, count := FreeStart(p), FreeEnd(p), SlotCount(p);
    var o := SlotAt(count);
    var p1 := Splice(p, start, record);
    var p2 := Put(p1, o, 2, start);
    var p3 := Put(p2, o + 2, 2, |record|);
    var p4 := Put(p3, o + 4, 4, SLOT_GENERATION);
    var p5 := Put(p4, o + 8, 4, SLOT_ALLOCATED);
    var p6 := Put(p5, SLOT_COUNT_AT, 2, count + 1);
    var p7 := Put(p6, FREE_START_AT, 2, start + |record|);
    Put(p7, FREE_END_AT, 2, end - SLOT_SIZE)
  }

  function Appended(p: Page, record: seq<Byte>): Page
    requires BoundsOk(p) && Fits(p, record)
  {
    Finalize(Written(p, record))
  }

  function Blocks(p: Page, record: seq<Byte>): Page
    requires BoundsOk(p) && Fits(p, record)
  {
    var start, count := FreeStart(p), SlotCount(p);
    Splice(
      Splice(Splice(p, start, record), SlotAt(count), SlotEntry(start, |record|)),
      SLOT_COUNT_AT, HeapHeader(count + 1, start + |record|, FreeEnd(p) - SLOT_SIZE))
  }

  lemma FourAdjacent(s: seq<Byte>, o: nat, a: seq<Byte>, b: seq<Byte>, c: seq<Byte>, d: seq<Byte>)
    requires o + |a| + |b| + |c| + |d| <= |s|
    ensures Splice(Splice(Splice(Splice(s, o, a), o + |a|, b), o + |a| + |b|, c), o + |a| + |b| + |c|, d)
      == Splice(s, o, a + b + c + d)
  {
    SpliceAdjacent(s, o, a, b);
    SpliceAdjacent(s, o, a + b, c);
    SpliceAdjacent(s, o, a + b + c, d);
  }

  lemma ThreeAdjacent(s: seq<Byte>, o: nat, a: seq<Byte>, b: seq<Byte>, c: seq<Byte>)
    requires o + |a| + |b| + |c| <= |s|
    ensures Splice(Splice(Splice(s, o, a), o + |a|, b), o + |a| + |b|, c) == Splice(s, o, a + b + c)
  {
    SpliceAdjacent(s, o, a, b);
    SpliceAdjacent(s, o, a + b, c);
  }

  lemma WrittenIsBlocks(p: Page, record: seq<Byte>)
    requires BoundsOk(p) && Fits(p, record)
    ensures Written(p, record) == Blocks(p, record)
  {
    hide Splice, Get, LittleEndian;
    var start, end, count := FreeStart(p), FreeEnd(p), SlotCount(p);
    var o := SlotAt(count);
    var p1 := Splice(p, start, record);
    FourAdjacent(p1, o, LittleEndian(2, start), LittleEndian(2, |record|),
      LittleEndian(4, SLOT_GENERATION), LittleEndian(4, SLOT_ALLOCATED));
    var p5 := Splice(p1, o, SlotEntry(start, |record|));
    ThreeAdjacent(p5, SLOT_COUNT_AT, LittleEndian(2, count + 1), LittleEndian(2, start + |record|),
      LittleEndian(2, end - SLOT_SIZE));
  }

  lemma SpliceAt(s: seq<Byte>, offset: nat, block: seq<Byte>, i: nat)
    requires offset + |block| <= |s| && i < |s| && !(offset <= i < offset + |block|)
    ensures Splice(s, offset, block)[i] == s[i]
  {
  }

  // Three disjoint blocks read back.
  lemma ThreeBlocks(p: seq<Byte>, a: nat, x: seq<Byte>, b: nat, y: seq<Byte>, c: nat, z: seq<Byte>)
    requires c + |z| <= a && a + |x| <= b && b + |y| <= |p|
    ensures var q := Splice(Splice(Splice(p, a, x), b, y), c, z);
      q[a..a + |x|] == x && q[b..b + |y|] == y && q[c..c + |z|] == z
  {
    hide Splice;
    var q1 := Splice(p, a, x);
    var q2 := Splice(q1, b, y);
    SpliceInside(p, a, x);
    SpliceOutside(q1, b, y, a, a + |x|);
    SpliceInside(q1, b, y);
    SpliceOutside(q2, c, z, a, a + |x|);
    SpliceOutside(q2, c, z, b, b + |y|);
    SpliceInside(q2, c, z);
  }

  // Everything outside three blocks stays.
  lemma ThreeBlocksElsewhere(p: seq<Byte>, a: nat, x: seq<Byte>, b: nat, y: seq<Byte>, c: nat, z: seq<Byte>, i: nat)
    requires a + |x| <= |p| && b + |y| <= |p| && c + |z| <= |p| && i < |p|
    requires !(a <= i < a + |x|) && !(b <= i < b + |y|) && !(c <= i < c + |z|)
    ensures Splice(Splice(Splice(p, a, x), b, y), c, z)[i] == p[i]
  {
    hide Splice;
    SpliceAt(p, a, x, i);
    SpliceAt(Splice(p, a, x), b, y, i);
    SpliceAt(Splice(Splice(p, a, x), b, y), c, z, i);
  }

  lemma EntryFields(start: nat, length: nat)
    requires start < 0x1_0000 && length < 0x1_0000
    ensures var s := SlotEntry(start, length);
      Get(s, 0, 2) == start && Get(s, 2, 2) == length && Get(s, 8, 4) == SLOT_ALLOCATED
  {
    Capacities();
    var a, b, c, d := LittleEndian(2, start), LittleEndian(2, length), LittleEndian(4, SLOT_GENERATION), LittleEndian(4, SLOT_ALLOCATED);
    DecodeEncode(2, start);
    DecodeEncode(2, length);
    DecodeEncode(4, SLOT_ALLOCATED);
    hide LittleEndian, FromLittleEndian;
    var s := a + b + c + d;
    assert s[0..2] == a && s[2..4] == b && s[8..12] == d;
  }

  lemma HeaderFields(count: nat, start: nat, end: nat)
    requires count < 0x1_0000 && start < 0x1_0000 && end < 0x1_0000
    ensures var s := HeapHeader(count, start, end);
      Get(s, 0, 2) == count && Get(s, 2, 2) == start && Get(s, 4, 2) == end
  {
    Capacities();
    var a, b, c := LittleEndian(2, count), LittleEndian(2, start), LittleEndian(2, end);
    DecodeEncode(2, count);
    DecodeEncode(2, start);
    DecodeEncode(2, end);
    hide LittleEndian, FromLittleEndian;
    var s := a + b + c;
    assert s[0..2] == a && s[2..4] == b && s[4..6] == c;
  }

  // A field inside a block reads what the block has there.
  lemma GetInBlock(p: seq<Byte>, at: nat, block: seq<Byte>, offset: nat, n: nat)
    requires at + |block| <= |p| && offset + n <= |block| && p[at..at + |block|] == block
    ensures Get(p, at + offset, n) == Get(block, offset, n)
  {
    var l, r := p[at + offset..at + offset + n], block[offset..offset + n];
    forall k | 0 <= k < n ensures l[k] == r[k] {
      assert p[at..at + |block|][offset + k] == p[at + offset + k];
    }
    assert l == r;
  }

  lemma GetSame(p: seq<Byte>, q: seq<Byte>, offset: nat, n: nat)
    requires offset + n <= |p| && offset + n <= |q|
    requires forall i | offset <= i < offset + n :: p[i] == q[i]
    ensures Get(p, offset, n) == Get(q, offset, n)
  {
    assert p[offset..offset + n] == q[offset..offset + n];
  }

  // What an insertion writes.
  lemma WrittenReads(p: Page, record: seq<Byte>)
    requires BoundsOk(p) && Fits(p, record)
    ensures var q, o := Written(p, record), SlotAt(SlotCount(p));
      && SlotCount(q) == SlotCount(p) + 1
      && FreeStart(q) == FreeStart(p) + |record|
      && FreeEnd(q) == FreeEnd(p) - SLOT_SIZE
      && Get(q, o, 2) == FreeStart(p) && Get(q, o + 2, 2) == |record| && Get(q, o + 8, 4) == SLOT_ALLOCATED
      && q[FreeStart(p)..FreeStart(p) + |record|] == record
  {
    hide Get, Splice, SlotEntry, HeapHeader, Written;
    var start, end, count := FreeStart(p), FreeEnd(p), SlotCount(p);
    var o, q := SlotAt(count), Written(p, record);
    var entry, header := SlotEntry(start, |record|), HeapHeader(count + 1, start + |record|, end - SLOT_SIZE);
    WrittenIsBlocks(p, record);
    EntryFields(start, |record|);
    HeaderFields(count + 1, start + |record|, end - SLOT_SIZE);
    ThreeBlocks(p, start, record, o, entry, SLOT_COUNT_AT, header);
    GetInBlock(q, SLOT_COUNT_AT, header, 0, 2);
    GetInBlock(q, SLOT_COUNT_AT, header, 2, 2);
    GetInBlock(q, SLOT_COUNT_AT, header, 4, 2);
    GetInBlock(q, o, entry, 0, 2);
    GetInBlock(q, o, entry, 2, 2);
    GetInBlock(q, o, entry, 8, 4);
  }

  // What an insertion leaves alone: the page header, the records that were
  // there and their slots.
  lemma WrittenKeeps(p: Page, record: seq<Byte>, i: nat)
    requires BoundsOk(p) && Fits(p, record) && i < PAGE_SIZE
    requires i < SLOT_COUNT_AT || RECORD_DATA_START <= i < FreeStart(p) || SlotAt(SlotCount(p)) + SLOT_SIZE <= i
    ensures Written(p, record)[i] == p[i]
  {
    hide Get, Splice, SlotEntry, HeapHeader, Written;
    var start, end, count := FreeStart(p), FreeEnd(p), SlotCount(p);
    WrittenIsBlocks(p, record);
    ThreeBlocksElsewhere(p, start, record, SlotAt(count), SlotEntry(start, |record|),
      SLOT_COUNT_AT, HeapHeader(count + 1, start + |record|, end - SLOT_SIZE), i);
  }

  // ---- agreement up to the checksum ----

  lemma GetTail(p: Page, q: Page, offset: nat, n: nat)
    requires p[PAGE_HEADER_SIZE..] == q[PAGE_HEADER_SIZE..]
    requires PAGE_HEADER_SIZE <= offset && offset + n <= PAGE_SIZE
    ensures Get(p, offset, n) == Get(q, offset, n)
  {
    SliceTail(p, q, offset, offset + n);
  }

  lemma SliceTail(p: Page, q: Page, lo: nat, hi: nat)
    requires p[PAGE_HEADER_SIZE..] == q[PAGE_HEADER_SIZE..] && PAGE_HEADER_SIZE <= lo <= hi <= PAGE_SIZE
    ensures p[lo..hi] == q[lo..hi]
  {
    var l, r := p[lo..hi], q[lo..hi];
    forall k | 0 <= k < |l| ensures l[k] == r[k] {
      assert p[PAGE_HEADER_SIZE..][lo + k - PAGE_HEADER_SIZE] == p[lo + k];
      assert q[PAGE_HEADER_SIZE..][lo + k - PAGE_HEADER_SIZE] == q[lo + k];
    }
    assert l == r;
  }

  lemma SameBounds(p: Page, q: Page)
    requires p[PAGE_HEADER_SIZE..] == q[PAGE_HEADER_SIZE..]
    ensures SlotCount(p) == SlotCount(q) && FreeStart(p) == FreeStart(q) && FreeEnd(p) == FreeEnd(q)
  {
    hide Get;
    GetTail(p, q, SLOT_COUNT_AT, 2);
    GetTail(p, q, FREE_START_AT, 2);
    GetTail(p, q, FREE_END_AT, 2);
  }

  lemma SameSlot(p: Page, q: Page, i: nat)
    requires p[PAGE_HEADER_SIZE..] == q[PAGE_HEADER_SIZE..]
    requires BoundsOk(p) && i < SlotCount(p)
    ensures BoundsOk(q) && i < SlotCount(q)
    ensures Get(p, SlotAt(i), 2) == Get(q, SlotAt(i), 2) && Get(p, SlotAt(i) + 2, 2) == Get(q, SlotAt(i) + 2, 2)
    ensures Get(p, SlotAt(i) + 8, 4) == Get(q, SlotAt(i) + 8, 4)
  {
    hide Get;
    SameBounds(p, q);
    GetTail(p, q, SlotAt(i), 2);
    GetTail(p, q, SlotAt(i) + 2, 2);
    GetTail(p, q, SlotAt(i) + 8, 4);
  }

  // Two copies of a page, their checksum aside, hold the same records.
  lemma SameSlots(p: Page, q: Page)
    requires Strip(p) == Strip(q) && SlottedOk(p)
    ensures SlottedOk(q) && RecordsOf(q) == RecordsOf(p) && FreeBytes(q) == FreeBytes(p) && TypeOf(q) == TypeOf(p)
  {
    hide Get, Strip;
    SameHeader(p, q);
    SameBounds(p, q);
    forall i: nat | i < SlotCount(p) ensures SlotOk(q, i) {
      assert SlotOk(p, i);
      SameSlot(p, q, i);
    }
    forall i: nat | i < SlotCount(p) ensures Record(q, i) == Record(p, i) {
      assert SlotOk(p, i);
      SameSlot(p, q, i);
      SliceTail(p, q, Get(p, SlotAt(i), 2), Get(p, SlotAt(i), 2) + Get(p, SlotAt(i) + 2, 2));
    }
  }

  // ---- insertion and initialisation ----

  lemma WrittenSlot(p: Page, record: seq<Byte>, i: nat)
    requires BoundsOk(p) && Fits(p, record) && i < SlotCount(p) && SlotOk(p, i)
    ensures var q := Written(p, record);
      && Get(q, SlotAt(i), 2) == Get(p, SlotAt(i), 2)
      && Get(q, SlotAt(i) + 2, 2) == Get(p, SlotAt(i) + 2, 2)
      && Get(q, SlotAt(i) + 8, 4) == Get(p, SlotAt(i) + 8, 4)
      && q[Get(p, SlotAt(i), 2)..Get(p, SlotAt(i), 2) + Get(p, SlotAt(i) + 2, 2)]
          == p[Get(p, SlotAt(i), 2)..Get(p, SlotAt(i), 2) + Get(p, SlotAt(i) + 2, 2)]
  {
    hide Get, Written;
    var q, o := Written(p, record), SlotAt(i);
    var start, length := Get(p, o, 2), Get(p, o + 2, 2);
    forall k | o <= k < o + SLOT_SIZE ensures q[k] == p[k] {
      WrittenKeeps(p, record, k);
    }
    GetSame(p, q, o, 2);
    GetSame(p, q, o + 2, 2);
    GetSame(p, q, o + 8, 4);
    forall k | start <= k < start + length ensures q[k] == p[k] {
      WrittenKeeps(p, record, k);
    }
    assert q[start..start + length] == p[start..start + length];
  }

  lemma WrittenOk(p: Page, record: seq<Byte>)
    requires SlottedOk(p) && Fits(p, record)
    ensures var q := Written(p, record);
      && SlottedOk(q)
      && RecordsOf(q) == RecordsOf(p) + [record]
      && FreeBytes(q) == FreeBytes(p) - |record| - SLOT_SIZE
  {
    hide Get, Written, DecodePageType;
    var q := Written(p, record);
    WrittenReads(p, record);
    WrittenType(p, record);
    forall i: nat | i < SlotCount(q) ensures SlotOk(q, i) {
      if i < SlotCount(p) {
        assert SlotOk(p, i);
        WrittenSlot(p, record, i);
      }
    }
    forall i: nat | i < SlotCount(p) ensures Record(q, i) == Record(p, i) {
      assert SlotOk(p, i);
      WrittenSlot(p, record, i);
    }
    assert Record(q, SlotCount(p)) == record;
  }

  lemma WrittenType(p: Page, record: seq<Byte>)
    requires BoundsOk(p) && Fits(p, record)
    ensures TypeOf(Written(p, record)) == TypeOf(p)
    ensures forall id :: HeaderOk(Written(p, record), id) <==> HeaderOk(p, id)
  {
    hide Get, Written;
    var q := Written(p, record);
    forall k | 0 <= k < SLOT_COUNT_AT ensures q[k] == p[k] {
      WrittenKeeps(p, record, k);
    }
    SameFields(p, q);
  }

  lemma SameFields(p: Page, q: Page)
    requires forall k | 0 <= k < PAGE_HEADER_SIZE :: p[k] == q[k]
    ensures TypeOf(p) == TypeOf(q) && forall id :: HeaderOk(p, id) <==> HeaderOk(q, id)
  {
    hide Get;
    GetSame(p, q, MAGIC_AT, 4);
    GetSame(p, q, VERSION_AT, 4);
    GetSame(p, q, TYPE_AT, 2);
    GetSame(p, q, HEADER_SIZE_AT, 2);
    GetSame(p, q, PAGE_ID_AT, 8);
  }

  // An insertion that finds room adds the record as the last one, keeps every
  // other record, and takes the record's size and a slot entry from the free
  // bytes. The page stays valid: the record area and the slot directory never
  // meet and no 16-bit field wraps.
  lemma AppendedOk(p: Page, record: seq<Byte>)
    requires SlottedOk(p) && Fits(p, record)
    ensures var q := Appended(p, record);
      && SlottedOk(q)
      && RecordsOf(q) == RecordsOf(p) + [record]
      && FreeBytes(q) == FreeBytes(p) - |record| - SLOT_SIZE
      && TypeOf(q) == TypeOf(p)
      && (forall id :: HeaderOk(q, id) <==> HeaderOk(p, id))
  {
    hide Written, Finalize, Strip, SlotOk, Get, HeaderOk, TypeOf;
    WrittenOk(p, record);
    WrittenType(p, record);
    StripFinalize(Written(p, record));
    SameSlots(Written(p, record), Finalize(Written(p, record)));
    SameHeader(Written(p, record), Finalize(Written(p, record)));
  }

  // The empty slotted page that initialising writes, before the checksum.
  function Blank(p: Page): Page {
    var p1 := Put(p, SLOT_COUNT_AT, 2, 0);
    var p2 := Put(p1, FREE_START_AT, 2, RECORD_DATA_START);
    var p3 := Put(p2, FREE_END_AT, 2, PAGE_SIZE);
    Put(p3, RESERVED_AT, 2, 0)
  }

  function Initialized(p: Page): Page {
    Finalize(Blank(p))
  }

  lemma BlankReads(p: Page)
    ensures var q := Blank(p);
      && SlotCount(q) == 0 && FreeStart(q) == RECORD_DATA_START && FreeEnd(q) == PAGE_SIZE
      && TypeOf(q) == TypeOf(p)
      && (forall id :: HeaderOk(q, id) <==> HeaderOk(p, id))
  {
    Capacities();
    hide Get, Splice, LittleEndian, TypeOf, HeaderOk;
    var header := HeapHeader(0, RECORD_DATA_START, PAGE_SIZE);
    var q3 := Splice(p, SLOT_COUNT_AT, header);
    ThreeAdjacent(p, SLOT_COUNT_AT, LittleEndian(2, 0), LittleEndian(2, RECORD_DATA_START), LittleEndian(2, PAGE_SIZE));
    HeaderFields(0, RECORD_DATA_START, PAGE_SIZE);
    SpliceInside(p, SLOT_COUNT_AT, header);
    GetInBlock(q3, SLOT_COUNT_AT, header, 0, 2);
    GetInBlock(q3, SLOT_COUNT_AT, header, 2, 2);
    GetInBlock(q3, SLOT_COUNT_AT, header, 4, 2);
    GetPutElsewhere(q3, RESERVED_AT, 2, 0, SLOT_COUNT_AT, 2);
    GetPutElsewhere(q3, RESERVED_AT, 2, 0, FREE_START_AT, 2);
    GetPutElsewhere(q3, RESERVED_AT, 2, 0, FREE_END_AT, 2);
    var q := Put(q3, RESERVED_AT, 2, 0);
    forall k | 0 <= k < PAGE_HEADER_SIZE ensures q[k] == p[k] {
      SpliceAt(p, SLOT_COUNT_AT, header, k);
      SpliceAt(q3, RESERVED_AT, LittleEndian(2, 0), k);
    }
    SameFields(p, q);
  }

  // Initialising gives a valid page without records.
  lemma InitializedOk(p: Page)
    requires TypeOf(p) == Heap || TypeOf(p) == Catalog
    ensures var q := Initialized(p);
      && SlottedOk(q) && RecordsOf(q) == [] && FreeBytes(q) == MAX_RECORD + SLOT_SIZE && TypeOf(q) == TypeOf(p)
      && (forall id :: HeaderOk(q, id) <==> HeaderOk(p, id))
  {
    hide Blank, Finalize, Strip, Get, HeaderOk, TypeOf;
    BlankReads(p);
    StripFinalize(Blank(p));
    SameSlots(Blank(p), Finalize(Blank(p)));
    SameHeader(Blank(p), Finalize(Blank(p)));
  }

  // A page fresh from allocation is not a slotted page: its free-space bounds
  // are zero.
  lemma UninitializedRejected(p: Page, t: PageType, id: Word64)
    requires id != INVALID_ID && Strip(p) == Strip(Create(t, id).value)
    ensures !SlottedOk(p)
  {
    CreateWellFormed(t, id);
    var q := Create(t, id).value;
    hide Strip, SlottedOk, RawPage, Finalize;
    ZeroField(q, FREE_START_AT);
    SameHeader(p, q);
    GetTail(p, q, FREE_START_AT, 2);
    NoRoomForHeader(p);
  }

  lemma NoRoomForHeader(p: Page)
    requires FreeStart(p) < RECORD_DATA_START
    ensures !SlottedOk(p)
  {
  }

  lemma ZeroField(p: Page, offset: nat)
    requires PAGE_HEADER_SIZE <= offset && offset + 2 <= PAGE_SIZE
    requires forall i | PAGE_HEADER_SIZE <= i < PAGE_SIZE :: p[i] == 0
    ensures Get(p, offset, 2) == 0
  {
    assert p[offset..offset + 2] == [0, 0];
    assert FromLittleEndian([0, 0]) == 0 + 0x100 * FromLittleEndian([0, 0][1..]);
  }

  // ---- the page object ----

  class SlottedPage {
    const bytes: array<Byte>

    ghost predicate Sized() {
      bytes.Length == PAGE_SIZE
    }

    ghost function Current(): Page
      requires Sized()
      reads bytes
    {
      bytes[..]
    }

    constructor Over(page: Page)
      ensures fresh(bytes) && Sized() && Current() == page
    {
      bytes := new Byte[PAGE_SIZE](i requires 0 <= i < PAGE_SIZE => page[i]);
    }

    static method Initialize(page: Page) returns (r: Result<SlottedPage>)
      ensures r.Ok? <==> TypeOf(page) == Heap || TypeOf(page) == Catalog
      ensures r.Ok? ==>
        fresh(r.value) && fresh(r.value.bytes) && r.value.Sized() && r.value.Current() == Initialized(page)
      ensures r.Err? ==> r.error == InvalidArgument
    {
      hide TypeOf, Put, Checksum;
      if TypeOf(page) != Heap && TypeOf(page) != Catalog {
        return Err(InvalidArgument);
      }
      var made := new SlottedPage.Over(page);
      WriteAt(made.bytes, SLOT_COUNT_AT, 2, 0);
      WriteAt(made.bytes, FREE_START_AT, 2, RECORD_DATA_START);
      WriteAt(made.bytes, FREE_END_AT, 2, PAGE_SIZE);
      WriteAt(made.bytes, RESERVED_AT, 2, 0);
      made.FinalizePage();
      return Ok(made);
    }

    static method Load(page: Page) returns (r: Result<SlottedPage>)
      ensures r.Ok? <==> SlottedOk(page)
      ensures r.Ok? ==> fresh(r.value) && fresh(r.value.bytes) && r.value.Sized() && r.value.Current() == page
      ensures r.Err? ==> r.error == Corruption
    {
      hide SlottedOk;
      var made := new SlottedPage.Over(page);
      var valid := made.Validate();
      if valid.Err? {
        return Forward(valid);
      }
      return Ok(made);
    }

    // Checks the page's type, its free-space bounds and every slot entry.
    method Validate() returns (r: Result<()>)
      requires Sized()
      ensures r == if SlottedOk(Current()) then Ok(()) else Err(Corruption)
    {
      hide Get, TypeOf;
      var page := bytes[..];
      if TypeOf(page) != Heap && TypeOf(page) != Catalog {
        return Err(Corruption);
      }
      var slotCount := ReadAt(page, SLOT_COUNT_AT, 2);
      var freeStart := ReadAt(page, FREE_START_AT, 2);
      var freeEnd := ReadAt(page, FREE_END_AT, 2);
      if freeStart < RECORD_DATA_START || freeStart > freeEnd || freeEnd > PAGE_SIZE {
        return Err(Corruption);
      }
      if slotCount * SLOT_SIZE > PAGE_SIZE - freeEnd {
        return Err(Corruption);
      }
      for rawSlot := 0 to slotCount
        invariant forall i: nat | i < rawSlot :: SlotOk(page, i)
      {
        var offset := SlotAt(rawSlot);
        var tupleOffset := ReadAt(page, offset, 2);
        var tupleLength := ReadAt(page, offset + 2, 2);
        var flags := ReadAt(page, offset + 8, 4);
        if flags != SLOT_ALLOCATED || tupleOffset < RECORD_DATA_START || tupleOffset > freeStart
           || tupleLength > freeStart - tupleOffset {
          assert !SlotOk(page, rawSlot);
          return Err(Corruption);
        }
      }
      return Ok(());
    }

    // Stores the page's checksum in its header.
    method FinalizePage()
      requires Sized()
      modifies bytes
      ensures Current() == Finalize(old(Current()))
    {
      hide Put, Checksum;
      WriteAt(bytes, CHECKSUM_AT, 4, 0);
      var checksum := ComputeChecksum(bytes[..]);
      WriteAt(bytes, CHECKSUM_AT, 4, checksum);
    }

    // Copies a record into the page from offset start on.
    method CopyRecord(start: nat, record: seq<Byte>)
      requires Sized() && start + |record| <= PAGE_SIZE
      modifies bytes
      ensures Current() == Splice(old(Current()), start, record)
    {
      ghost var was := Current();
      for index := 0 to |record|
        invariant Current() == Splice(was, start, record[..index])
      {
        bytes[start + index] := record[index];
        assert Current() == Splice(was, start, record[..index + 1]);
      }
      assert record[..|record|] == record;
    }

    // Adds a record, or finds that there is no room for it and changes nothing.
    method Insert(record: seq<Byte>) returns (r: Result<Option<Word32>>)
      requires Sized()
      modifies bytes
      ensures var p := old(Current());
        if !SlottedOk(p) then r == Err(Corruption) && Current() == p
        else if record == [] then r == Err(InvalidArgument) && Current() == p
        else if |record| > 0xFFFF then r == Err(ResourceExhausted) && Current() == p
        else if !Fits(p, record) then r == Ok(None) && Current() == p
        else r == Ok(Some(SlotCount(p))) && Current() == Appended(p, record)
    {
      hide Get, Put, Splice, SlotOk, TypeOf, Finalize;
      var valid := Validate();
      if valid.Err? {
        return Forward(valid);
      }
      if |record| == 0 {
        return Err(InvalidArgument);
      }
      if |record| > 0xFFFF {
        return Err(ResourceExhausted);
      }
      ghost var p := Current();
      var slotCount := ReadAt(bytes[..], SLOT_COUNT_AT, 2);
      var freeStart := ReadAt(bytes[..], FREE_START_AT, 2);
      var freeEnd := ReadAt(bytes[..], FREE_END_AT, 2);
      if |record| + SLOT_SIZE > freeEnd - freeStart {
        return Ok(None);
      }
      var offset := SlotAt(slotCount);
      CopyRecord(freeStart, record);
      WriteAt(bytes, offset, 2, freeStart);
      WriteAt(bytes, offset + 2, 2, |record|);
      WriteAt(bytes, offset + 4, 4, SLOT_GENERATION);
      WriteAt(bytes, offset + 8, 4, SLOT_ALLOCATED);
      WriteAt(bytes, SLOT_COUNT_AT, 2, slotCount + 1);
      WriteAt(bytes, FREE_START_AT, 2, freeStart + |record|);
      WriteAt(bytes, FREE_END_AT, 2, freeEnd - SLOT_SIZE);
      FinalizePage();
      return Ok(Some(slotCount));
    }

    method Read(slot: Word32) returns (r: Result<seq<Byte>>)
      requires Sized()
      ensures r == if !SlottedOk(Current()) then Err(Corruption)
                   else if slot < |RecordsOf(Current())| then Ok(RecordsOf(Current())[slot])
                   else Err(OutOfRange)
    {
      hide Get, TypeOf;
      var page := bytes[..];
      var valid := Validate();
      if valid.Err? {
        return Forward(valid);
      }
      var slotCount := ReadAt(page, SLOT_COUNT_AT, 2);
      if slot >= slotCount {
        return Err(OutOfRange);
      }
      assert SlotOk(page, slot);
      var offset := SlotAt(slot);
      var flags := ReadAt(page, offset + 8, 4);
      if flags != SLOT_ALLOCATED {
        return Err(NotFound);
      }
      var start := ReadAt(page, offset, 2);
      var length := ReadAt(page, offset + 2, 2);
      return Ok(page[start..start + length]);
    }

    // All records in slot order; the position of a record is its slot.
    method Records() returns (r: Result<seq<seq<Byte>>>)
      requires Sized()
      ensures r == if SlottedOk(Current()) then Ok(RecordsOf(Current())) else Err(Corruption)
    {
      hide Get, TypeOf, SlotOk, Record;
      var valid := Validate();
      if valid.Err? {
        return Forward(valid);
      }
      var slotCount := ReadAt(bytes[..], SLOT_COUNT_AT, 2);
      SlotCountSmall(bytes[..]);
      var records: seq<seq<Byte>> := [];
      for rawSlot := 0 to slotCount
        invariant records == RecordsOf(Current())[..rawSlot]
      {
        var record := Read(rawSlot);
        if record.Err? {
          return Forward(record);
        }
        records := records + [record.value];
      }
      assert records == RecordsOf(Current());
      return Ok(records);
    }
  }

  lemma SlotCountSmall(p: Page)
    requires SlottedOk(p)
    ensures SlotCount(p) <= 341
  {
  }

  // ---- where everything is in a slotted page ----

  // An empty page has no slots, its records begin at byte 48 and its slots end at
  // byte 4096.
  lemma InitializedLayout(p: Page)
    ensures var q := Initialized(p);
      Get(q, 40, 2) == 0 && Get(q, 42, 2) == 48 && Get(q, 44, 2) == 4096
  {
    hide Blank, Finalize, Strip, Get, HeaderOk, TypeOf;
    BlankReads(p);
    StripFinalize(Blank(p));
    SameHeader(Blank(p), Finalize(Blank(p)));
    GetTail(Blank(p), Finalize(Blank(p)), 40, 2);
    GetTail(Blank(p), Finalize(Blank(p)), 42, 2);
    GetTail(Blank(p), Finalize(Blank(p)), 44, 2);
  }

  // A new record goes behind the records, and its slot, with offset, length,
  // generation and state, in front of the slots.
  lemma AppendedLayout(p: Page, record: seq<Byte>)
    requires SlottedOk(p) && Fits(p, record)
    ensures var q, n, start := Appended(p, record), Get(p, 40, 2), Get(p, 42, 2);
      var slot := 4096 - 12 * (n + 1);
      && start + |record| <= slot && start >= 48
      && Get(q, 40, 2) == n + 1 && Get(q, 42, 2) == start + |record| && Get(q, 44, 2) == Get(p, 44, 2) - 12
      && Get(q, slot, 2) == start && Get(q, slot + 2, 2) == |record|
      && Get(q, slot + 4, 4) == 1 && Get(q, slot + 8, 4) == 1
      && q[start..start + |record|] == record
  {
    hide Written, Finalize, Strip, Get, HeaderOk, TypeOf, SlotOk;
    WrittenReads(p, record);
    WrittenGeneration(p, record);
    var w := Written(p, record);
    var q := Finalize(w);
    StripFinalize(w);
    SameHeader(w, q);
    var slot, start := SlotAt(SlotCount(p)), FreeStart(p);
    GetTail(w, q, 40, 2);
    GetTail(w, q, 42, 2);
    GetTail(w, q, 44, 2);
    GetTail(w, q, slot, 2);
    GetTail(w, q, slot + 2, 2);
    GetTail(w, q, slot + 4, 4);
    GetTail(w, q, slot + 8, 4);
    SliceTail(w, q, start, start + |record|);
  }

  lemma WrittenGeneration(p: Page, record: seq<Byte>)
    requires BoundsOk(p) && Fits(p, record)
    ensures Get(Written(p, record), SlotAt(SlotCount(p)) + 4, 4) == 1
  {
    Capacities();
    WrittenIsBlocks(p, record);
    var start, count := FreeStart(p), SlotCount(p);
    hide Written, Get, LittleEndian;
    var o, entry := SlotAt(count), SlotEntry(start, |record|);
    ThreeBlocks(p, start, record, o, entry, SLOT_COUNT_AT, HeapHeader(count + 1, start + |record|, FreeEnd(p) - SLOT_SIZE));
    GetInBlock(Written(p, record), o, entry, 4, 4);
    GenerationField(start, |record|);
  }

  lemma GenerationField(start: nat, length: nat)
    ensures Get(SlotEntry(start, length), 4, 4) == 1
  {
    Capacities();
    DecodeEncode(4, SLOT_GENERATION);
    hide LittleEndian, FromLittleEndian;
    assert SlotEntry(start, length)[4..8] == LittleEndian(4, SLOT_GENERATION);
  }

  // What loading a slotted page checks, with its numbers.
  lemma SlottedExactly(p: Page)
    ensures SlottedOk(p) <==>
      && (TypeOf(p) == Heap || TypeOf(p) == Catalog)
      && 48 <= Get(p, 42, 2) <= Get(p, 44, 2) <= 4096
      && Get(p, 40, 2) * 12 <= 4096 - Get(p, 44, 2)
      && forall i: nat | i < Get(p, 40, 2) :: SlotSound(p, i)
  {
    hide Get, TypeOf;
    if BoundsOk(p) {
      forall i: nat | i < SlotCount(p) ensures SlotOk(p, i) <==> SlotSound(p, i) {
        assert SlotAt(i) == 4096 - 12 * (i + 1);
      }
    }
  }

  predicate SlotSound(p: Page, i: nat) {
    var at := 4096 - 12 * (i + 1);
    && 0 <= at <= 4084
    && Get(p, at + 8, 4) == 1 && 48 <= Get(p, at, 2)
    && Get(p, at, 2) + Get(p, at + 2, 2) <= Get(p, 42, 2)
  }
}
