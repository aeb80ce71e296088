// First-fit placement, seen through what each page of a file holds: the common
// core of the table heap and of both catalogs. A file is a list of shelves; a
// record goes to the first shelf with room for it, or to a new shelf at the end.
module FirstFit {
  import opened Results
  import opened ByteCodec
  import opened SlottedPages
  import opened TreeModel

  // The records of one page in slot order, and its free bytes.
  datatype Shelf = Shelf(records: seq<seq<Byte>>, free: nat)

  datatype Cell = Cell(rid: Rid, bytes: seq<Byte>)

  predicate HasRoom(shelf: Shelf, record: seq<Byte>) {
    |record| + SLOT_SIZE <= shelf.free
  }

  function Chosen(s: seq<Shelf>, record: seq<Byte>): (i: nat)
    ensures i <= |s|
    ensures i < |s| ==> HasRoom(s[i], record)
    ensures forall j | 0 <= j < i :: !HasRoom(s[j], record)
  {
    if s == [] then 0
    else
      var n := |s| - 1;
      var i := Chosen(s[..n], record);
      if i < n || HasRoom(s[n], record) then i else n + 1
  }

  function Add(shelf: Shelf, record: seq<Byte>): Shelf
    requires HasRoom(shelf, record)
  {
    Shelf(shelf.records + [record], shelf.free - |record| - SLOT_SIZE)
  }

  // The file after one more record.
  function Placed(s: seq<Shelf>, record: seq<Byte>): seq<Shelf>
    requires |record| <= MAX_RECORD
  {
    var i := Chosen(s, record);
    if i < |s| then s[i := Add(s[i], record)] else s + [Shelf([record], MAX_RECORD - |record|)]
  }

  // The id that the record gets.
  function PlaceOf(s: seq<Shelf>, record: seq<Byte>): Rid {
    var i := Chosen(s, record);
    Rid(i, if i < |s| then |s[i].records| else 0)
  }

  function RecordAt(s: seq<Shelf>, rid: Rid): Option<seq<Byte>> {
    if rid.page < |s| && rid.slot < |s[rid.page].records| then Some(s[rid.page].records[rid.slot]) else None
  }

  // ---- scan order ----

  function CellsOf(shelf: Shelf, page: nat): (cs: seq<Cell>)
    ensures |cs| == |shelf.records|
  {
    seq(|shelf.records|, i requires 0 <= i < |shelf.records| => Cell(Rid(page, i), shelf.records[i]))
  }

  // The records of pages lo up to hi, in page and slot order.
  function CellsBetween(s: seq<Shelf>, lo: nat, hi: nat): seq<Cell>
    requires lo <= hi <= |s|
    decreases hi
  {
    if lo == hi then [] else CellsBetween(s, lo, hi - 1) + CellsOf(s[hi - 1], hi - 1)
  }

  function Cells(s: seq<Shelf>): seq<Cell> {
    CellsBetween(s, 0, |s|)
  }

  lemma {:induction false} CellsSplit(s: seq<Shelf>, lo: nat, mid: nat, hi: nat)
    requires lo <= mid <= hi <= |s|
    ensures CellsBetween(s, lo, hi) == CellsBetween(s, lo, mid) + CellsBetween(s, mid, hi)
  {
    if mid < hi {
      CellsSplit(s, lo, mid, hi - 1);
    }
  }

  lemma {:induction false} CellsSame(s: seq<Shelf>, t: seq<Shelf>, lo: nat, hi: nat)
    requires lo <= hi <= |s| && hi <= |t| && forall i | lo <= i < hi :: s[i] == t[i]
    ensures CellsBetween(s, lo, hi) == CellsBetween(t, lo, hi)
  {
    if lo < hi {
      CellsSame(s, t, lo, hi - 1);
    }
  }

  // A scan lists exactly the records of the file with their ids.
  lemma {:induction false} CellsExact(s: seq<Shelf>, lo: nat, hi: nat, c: Cell)
    requires lo <= hi <= |s|
    ensures c in CellsBetween(s, lo, hi) <==> lo <= c.rid.page < hi && RecordAt(s, c.rid) == Some(c.bytes)
  {
    if lo < hi {
      CellsExact(s, lo, hi - 1, c);
      var last := CellsOf(s[hi - 1], hi - 1);
      if c.rid.page == hi - 1 && c.rid.slot < |last| {
        assert last[c.rid.slot] == Cell(c.rid, s[hi - 1].records[c.rid.slot]);
      }
    }
  }

  predicate Before(a: Rid, b: Rid) {
    a.page < b.page || (a.page == b.page && a.slot < b.slot)
  }

  ghost predicate InOrder(cs: seq<Cell>) {
    forall i, j | 0 <= i < j < |cs| :: Before(cs[i].rid, cs[j].rid)
  }

  // A scan runs through strictly ascending ids, so each id comes once.
  lemma {:induction false} CellsInOrder(s: seq<Shelf>, lo: nat, hi: nat)
    requires lo <= hi <= |s|
    ensures InOrder(CellsBetween(s, lo, hi))
  {
    if lo < hi {
      CellsInOrder(s, lo, hi - 1);
      var front := CellsBetween(s, lo, hi - 1);
      forall i | 0 <= i < |front| ensures front[i].rid.page < hi - 1 {
        CellsExact(s, lo, hi - 1, front[i]);
      }
    }
  }

  // ---- one placement ----

  // Placing a record gives it an unused id and leaves every other id as it was.
  lemma PlacedRecords(s: seq<Shelf>, record: seq<Byte>, rid: Rid)
    requires |record| <= MAX_RECORD
    ensures RecordAt(s, PlaceOf(s, record)) == None
    ensures RecordAt(Placed(s, record), rid) == if rid == PlaceOf(s, record) then Some(record) else RecordAt(s, rid)
  {
  }

  // What a scan lists before the place of a new record, and after it.
  function Front(s: seq<Shelf>, record: seq<Byte>): seq<Cell> {
    var i := Chosen(s, record);
    CellsBetween(s, 0, if i < |s| then i + 1 else i)
  }

  function Rear(s: seq<Shelf>, record: seq<Byte>): seq<Cell> {
    var i := Chosen(s, record);
    CellsBetween(s, if i < |s| then i + 1 else i, |s|)
  }

  // A scan after the placement lists the new record at one place, and everything
  // else as before.
  lemma PlacedCells(s: seq<Shelf>, record: seq<Byte>)
    requires |record| <= MAX_RECORD
    ensures Cells(s) == Front(s, record) + Rear(s, record)
    ensures Cells(Placed(s, record)) ==
      Front(s, record) + [Cell(PlaceOf(s, record), record)] + Rear(s, record)
  {
    var i, t := Chosen(s, record), Placed(s, record);
    var next := if i < |s| then i + 1 else i;
    CellsSplit(s, 0, next, |s|);
    CellsSplit(t, 0, i + 1, |t|);
    CellsSame(s, t, 0, i);
    CellsSame(s, t, next, |s|);
    if i < |s| {
      assert CellsOf(t[i], i) == CellsOf(s[i], i) + [Cell(PlaceOf(s, record), record)];
    } else {
      assert CellsOf(t[i], i) == [Cell(PlaceOf(s, record), record)];
    }
  }

  // No page has room for any record that a later page holds.
  ghost predicate Tight(s: seq<Shelf>) {
    forall i, j, k | 0 <= i < j < |s| && 0 <= k < |s[j].records| :: !HasRoom(s[i], s[j].records[k])
  }

  // Free space never grows and the first fit is taken, so tightness stays.
  lemma PlacedTight(s: seq<Shelf>, record: seq<Byte>)
    requires |record| <= MAX_RECORD && Tight(s)
    ensures Tight(Placed(s, record))
  {
    var c, t := Chosen(s, record), Placed(s, record);
    forall i, j, k | 0 <= i < j < |t| && 0 <= k < |t[j].records| ensures !HasRoom(t[i], t[j].records[k]) {
      assert i < |s| && t[i].free <= s[i].free;
      if j < |s| && k < |s[j].records| {
        assert t[j].records[k] == s[j].records[k];
        assert !HasRoom(s[i], s[j].records[k]);
      } else {
        assert j == c && t[j].records[k] == record;
      }
    }
  }

  // In a tight file whatever is listed after a new record is longer than it.
  lemma RearIsLonger(s: seq<Shelf>, record: seq<Byte>)
    requires Tight(s)
    ensures forall c | c in Rear(s, record) :: |c.bytes| > |record|
  {
    var i := Chosen(s, record);
    forall c | c in Rear(s, record) ensures |c.bytes| > |record| {
      CellsExact(s, if i < |s| then i + 1 else i, |s|, c);
      assert !HasRoom(s[i], s[c.rid.page].records[c.rid.slot]);
    }
  }

  // ---- whole runs ----

  // The file after a run of insertions into an empty file.
  function Shelved(log: seq<seq<Byte>>): seq<Shelf>
    requires forall r | r in log :: |r| <= MAX_RECORD
  {
    if log == [] then []
    else Placed(Shelved(log[..|log| - 1]), log[|log| - 1])
  }

  function BytesOf(cs: seq<Cell>): (bs: seq<seq<Byte>>)
    ensures |bs| == |cs|
  {
    seq(|cs|, i requires 0 <= i < |cs| => cs[i].bytes)
  }

  lemma BytesOfAppend(a: seq<Cell>, b: seq<Cell>)
    ensures BytesOf(a + b) == BytesOf(a) + BytesOf(b)
  {
  }

  lemma LastOf<T>(log: seq<T>)
    requires log != []
    ensures log == log[..|log| - 1] + [log[|log| - 1]]
  {
  }

  lemma {:induction false} ShelvedTight(log: seq<seq<Byte>>)
    requires forall r | r in log :: |r| <= MAX_RECORD
    ensures Tight(Shelved(log))
  {
    if log != [] {
      ShelvedTight(log[..|log| - 1]);
      PlacedTight(Shelved(log[..|log| - 1]), log[|log| - 1]);
    }
  }

  lemma PlacedBytes(s: seq<Shelf>, record: seq<Byte>)
    requires |record| <= MAX_RECORD
    ensures BytesOf(Cells(s)) == BytesOf(Front(s, record)) + BytesOf(Rear(s, record))
    ensures BytesOf(Cells(Placed(s, record))) == BytesOf(Front(s, record)) + [record] + BytesOf(Rear(s, record))
  {
    hide Cells, Front, Rear, Placed, PlaceOf;
    PlacedCells(s, record);
    BytesOfAppend(Front(s, record), Rear(s, record));
    BytesOfAppend(Front(s, record) + [Cell(PlaceOf(s, record), record)], Rear(s, record));
    BytesOfAppend(Front(s, record), [Cell(PlaceOf(s, record), record)]);
    assert BytesOf([Cell(PlaceOf(s, record), record)]) == [record];
  }

  // A scan of the file returns exactly the records inserted, with multiplicity.
  lemma {:induction false} ScanIsTheLog(log: seq<seq<Byte>>)
    requires forall r | r in log :: |r| <= MAX_RECORD
    ensures multiset(BytesOf(Cells(Shelved(log)))) == multiset(log)
  {
    if log != [] {
      var earlier, last := log[..|log| - 1], log[|log| - 1];
      LastOf(log);
      ScanIsTheLog(earlier);
      PlacedBytes(Shelved(earlier), last);
    }
  }

  // The ids handed out along a run.
  function IdsOfRun(log: seq<seq<Byte>>): (ids: seq<Rid>)
    requires forall r | r in log :: |r| <= MAX_RECORD
    ensures |ids| == |log|
  {
    if log == [] then []
    else IdsOfRun(log[..|log| - 1]) + [PlaceOf(Shelved(log[..|log| - 1]), log[|log| - 1])]
  }

  // Every id of a run keeps reading its own record, and no id is given twice.
  lemma {:induction false} IdsAreStable(log: seq<seq<Byte>>)
    requires forall r | r in log :: |r| <= MAX_RECORD
    ensures forall i | 0 <= i < |log| :: RecordAt(Shelved(log), IdsOfRun(log)[i]) == Some(log[i])
    ensures forall i, j | 0 <= i < j < |log| :: IdsOfRun(log)[i] != IdsOfRun(log)[j]
  {
    hide Shelved, IdsOfRun, Placed, PlaceOf, RecordAt;
    if log != [] {
      var earlier, last := log[..|log| - 1], log[|log| - 1];
      RunStep(log, earlier, last);
      IdsAreStable(earlier);
      forall i | 0 <= i < |log| ensures RecordAt(Shelved(log), IdsOfRun(log)[i]) == Some(log[i]) {
        PlacedRecords(Shelved(earlier), last, IdsOfRun(log)[i]);
      }
      forall i, j | 0 <= i < j < |log| ensures IdsOfRun(log)[i] != IdsOfRun(log)[j] {
        PlacedRecords(Shelved(earlier), last, IdsOfRun(log)[i]);
      }
    }
  }

  lemma RunStep(log: seq<seq<Byte>>, earlier: seq<seq<Byte>>, last: seq<Byte>)
    requires log != [] && earlier == log[..|log| - 1] && last == log[|log| - 1]
    requires forall r | r in log :: |r| <= MAX_RECORD
    ensures forall r | r in earlier :: |r| <= MAX_RECORD
    ensures Shelved(log) == Placed(Shelved(earlier), last)
    ensures IdsOfRun(log) == IdsOfRun(earlier) + [PlaceOf(Shelved(earlier), last)]
  {
    hide Placed, PlaceOf;
  }

  // ---- order among records of one length ----

  function Select(rs: seq<seq<Byte>>, p: seq<Byte> -> bool): seq<seq<Byte>> {
    if rs == [] then []
    else Select(rs[..|rs| - 1], p) + (if p(rs[|rs| - 1]) then [rs[|rs| - 1]] else [])
  }

  lemma {:induction false} SelectAppend(a: seq<seq<Byte>>, b: seq<seq<Byte>>, p: seq<Byte> -> bool)
    ensures Select(a + b, p) == Select(a, p) + Select(b, p)
  {
    if b == [] {
      assert a + b == a;
    } else {
      assert (a + b)[..|a + b| - 1] == a + b[..|b| - 1];
      SelectAppend(a, b[..|b| - 1], p);
    }
  }

  lemma {:induction false} SelectNone(rs: seq<seq<Byte>>, p: seq<Byte> -> bool)
    requires forall r | r in rs :: !p(r)
    ensures Select(rs, p) == []
  {
    if rs != [] {
      SelectNone(rs[..|rs| - 1], p);
    }
  }

  lemma NothingLaterSelected(s: seq<Shelf>, record: seq<Byte>, p: seq<Byte> -> bool)
    requires Tight(s) && p(record)
    requires forall c | c in Cells(s) && p(c.bytes) :: |c.bytes| == |record|
    requires |record| <= MAX_RECORD
    ensures Select(BytesOf(Rear(s, record)), p) == []
  {
    hide Cells, Front, Rear, Placed, PlaceOf;
    RearIsLonger(s, record);
    PlacedCells(s, record);
    var rear := Rear(s, record);
    forall r | r in BytesOf(rear) ensures !p(r) {
      var i :| 0 <= i < |rear| && BytesOf(rear)[i] == r;
      assert rear[i] in rear && rear[i] in Cells(s);
    }
    SelectNone(BytesOf(rear), p);
  }

  // A new record comes last among the records of its length.
  lemma SelectPlaced(s: seq<Shelf>, record: seq<Byte>, p: seq<Byte> -> bool)
    requires |record| <= MAX_RECORD && Tight(s)
    requires p(record) ==> forall c | c in Cells(s) && p(c.bytes) :: |c.bytes| == |record|
    ensures Select(BytesOf(Cells(Placed(s, record))), p) ==
      Select(BytesOf(Cells(s)), p) + (if p(record) then [record] else [])
  {
    hide Cells, Front, Rear, Placed, Select, BytesOf, Tight;
    var front, rear := BytesOf(Front(s, record)), BytesOf(Rear(s, record));
    PlacedBytes(s, record);
    SelectAppend(front, rear, p);
    SelectAppend(front + [record], rear, p);
    SelectAppend(front, [record], p);
    SelectOne(record, p);
    if p(record) {
      NothingLaterSelected(s, record, p);
    }
  }

  // Among records of one length a scan keeps the order of insertion: first fit
  // never puts a later one in front of an earlier one.
  lemma {:induction false} OrderKept(log: seq<seq<Byte>>, p: seq<Byte> -> bool)
    requires forall r | r in log :: |r| <= MAX_RECORD
    requires forall a, b | a in log && b in log && p(a) && p(b) :: |a| == |b|
    ensures Select(BytesOf(Cells(Shelved(log))), p) == Select(log, p)
  {
    if log != [] {
      hide Cells, Placed, Tight, BytesOf;
      var earlier, last := log[..|log| - 1], log[|log| - 1];
      OrderKept(earlier, p);
      ShelvedTight(earlier);
      forall c | c in Cells(Shelved(earlier)) ensures c.bytes in log {
        CellInLog(earlier, c);
      }
      SelectPlaced(Shelved(earlier), last, p);
    }
  }

  lemma SelectOne(r: seq<Byte>, p: seq<Byte> -> bool)
    ensures Select([r], p) == if p(r) then [r] else []
  {
    assert [r][..0] == [];
  }

  lemma CellInLog(log: seq<seq<Byte>>, c: Cell)
    requires forall r | r in log :: |r| <= MAX_RECORD
    requires c in Cells(Shelved(log))
    ensures c.bytes in log
  {
    hide Shelved;
    ScanIsTheLog(log);
    var cs := Cells(Shelved(log));
    var i :| 0 <= i < |cs| && cs[i] == c;
    assert BytesOf(cs)[i] == c.bytes;
    assert c.bytes in multiset(BytesOf(cs));
  }
}
