// A table's rows in a file of slotted heap pages.
module TableHeaps {
  import opened Results
  import opened ByteCodec
  import opened Pages
  import opened BufferPool
  import opened PageManager
  import opened SlottedPages
  import opened TreeModel
  import opened NodeCodec
  import opened FirstFit
  import opened RecordFiles
  import opened RecordCodec

  function Decoder(schema: Schema): seq<Byte> -> Result<Tuple> {
    bytes => DecodeRecord(schema, bytes)
  }

  ghost function RowsIn(s: seq<Shelf>, schema: Schema): Result<seq<Row<Tuple>>> {
    DecodeOnto([], Cells(s), Decoder(schema))
  }

  // Every page can be read and every record decodes under the schema.
  ghost predicate HeapFile(view: seq<Page>, schema: Schema) {
    Readable(view, Heap) && RowsIn(ShelvesOf(view, Heap), schema).Ok?
  }

  // The rows of a table file, in page and slot order.
  ghost function Rows(view: seq<Page>, schema: Schema): seq<Row<Tuple>>
    requires HeapFile(view, schema)
  {
    RowsIn(ShelvesOf(view, Heap), schema).value
  }

  // One row more, under an id that no row had.
  ghost predicate OneMore(was: seq<Row<Tuple>>, now: seq<Row<Tuple>>, row: Row<Tuple>) {
    && (forall r | r in was :: r.rid != row.rid)
    && exists i :: 0 <= i <= |was| && now == was[..i] + [row] + was[i..]
  }

  // ---- rows and cells ----

  lemma {:induction false} DecodeShift(rows: seq<Row<Tuple>>, cells: seq<Cell>, decode: seq<Byte> -> Result<Tuple>)
    ensures DecodeOnto(rows, cells, decode) == Following(rows, DecodeOnto([], cells, decode))
  {
    if cells == [] {
      assert rows + [] == rows;
    } else {
      DecodeShift(rows, cells[..|cells| - 1], decode);
      var front, last := DecodeOnto([], cells[..|cells| - 1], decode), cells[|cells| - 1];
      if front.Ok? && decode(last.bytes).Ok? {
        var row := Row(last.rid, decode(last.bytes).value);
        assert rows + front.value + [row] == rows + (front.value + [row]);
      }
    }
  }

  lemma RowsPlaced(s: seq<Shelf>, schema: Schema, record: seq<Byte>, tuple: Tuple)
    requires |record| <= MAX_RECORD && DecodeRecord(schema, record) == Ok(tuple) && RowsIn(s, schema).Ok?
    ensures RowsIn(Placed(s, record), schema).Ok?
    ensures OneMore(RowsIn(s, schema).value, RowsIn(Placed(s, record), schema).value, Row(PlaceOf(s, record), tuple))
  {
    hide DecodeOnto, Cells, Front, Rear, Placed, PlaceOf, DecodeRecord;
    var decode, cell := Decoder(schema), Cell(PlaceOf(s, record), record);
    var front, rear := Front(s, record), Rear(s, record);
    PlacedCells(s, record);
    DecodeAppend([], front, rear, decode);
    DecodeAppend([], front + [cell], rear, decode);
    DecodeAppend([], front, [cell], decode);
    DecodeShift(DecodeOnto([], front, decode).value, rear, decode);
    DecodeSingle(DecodeOnto([], front, decode).value, cell, decode);
    DecodeShift(DecodeOnto([], front + [cell], decode).value, rear, decode);
    var before, after := DecodeOnto([], front, decode).value, DecodeOnto([], rear, decode).value;
    var was, row := RowsIn(s, schema).value, Row(cell.rid, tuple);
    assert was == before + after && was[..|before|] == before && was[|before|..] == after;
    assert RowsIn(Placed(s, record), schema).value == was[..|before|] + [row] + was[|before|..];
    NewIdUnused(s, schema, record);
  }

  lemma DecodeSingle(rows: seq<Row<Tuple>>, cell: Cell, decode: seq<Byte> -> Result<Tuple>)
    requires decode(cell.bytes).Ok?
    ensures DecodeOnto(rows, [cell], decode) == Ok(rows + [Row(cell.rid, decode(cell.bytes).value)])
  {
    assert [cell][..0] == [];
  }

  lemma NewIdUnused(s: seq<Shelf>, schema: Schema, record: seq<Byte>)
    requires |record| <= MAX_RECORD && RowsIn(s, schema).Ok?
    ensures forall r | r in RowsIn(s, schema).value :: r.rid != PlaceOf(s, record)
  {
    hide Placed, PlaceOf, DecodeOnto, CellsBetween;
    var cells, rows := Cells(s), RowsIn(s, schema).value;
    DecodedRows(cells, Decoder(schema));
    forall r | r in rows ensures r.rid != PlaceOf(s, record) {
      var i :| 0 <= i < |rows| && rows[i] == r;
      CellsExact(s, 0, |s|, cells[i]);
      PlacedRecords(s, record, r.rid);
    }
  }

  // A row is in the scan exactly when its id reads its tuple.
  lemma RowsExact(s: seq<Shelf>, schema: Schema, rid: Rid, tuple: Tuple)
    requires RowsIn(s, schema).Ok?
    ensures Row(rid, tuple) in RowsIn(s, schema).value <==>
      RecordAt(s, rid).Some? && DecodeRecord(schema, RecordAt(s, rid).value) == Ok(tuple)
    ensures RecordAt(s, rid).Some? ==> DecodeRecord(schema, RecordAt(s, rid).value).Ok?
  {
    hide DecodeOnto, CellsBetween, DecodeRecord;
    var cells, rows := Cells(s), RowsIn(s, schema).value;
    DecodedRows(cells, Decoder(schema));
    if Row(rid, tuple) in rows {
      var i :| 0 <= i < |rows| && rows[i] == Row(rid, tuple);
      CellsExact(s, 0, |s|, cells[i]);
    }
    if RecordAt(s, rid).Some? {
      var cell := Cell(rid, RecordAt(s, rid).value);
      CellsExact(s, 0, |s|, cell);
      var i :| 0 <= i < |cells| && cells[i] == cell;
      assert rows[i] in rows && rows[i].rid == rid;
    }
  }

  // Row ids ascend in a scan, so no id comes twice.
  lemma RowsAscend(s: seq<Shelf>, schema: Schema)
    requires RowsIn(s, schema).Ok?
    ensures var rows := RowsIn(s, schema).value;
      forall i, j | 0 <= i < j < |rows| :: Before(rows[i].rid, rows[j].rid)
  {
    hide DecodeOnto, CellsBetween;
    DecodedRows(Cells(s), Decoder(schema));
    CellsInOrder(s, 0, |s|);
  }

  // ---- whole runs ----

  // A tuple whose record fits an empty page: at most 4036 bytes, of which 4 are
  // for the record, 8 for every INT and 4 besides the text for every TEXT.
  predicate Storable(schema: Schema, tuple: Tuple) {
    Encodable(schema, tuple) && RecordSize(tuple) <= MAX_RECORD
  }

  lemma StorableExactly(schema: Schema, tuple: Tuple)
    ensures Storable(schema, tuple) <==>
      EncodeRecord(schema, tuple).Ok? && |EncodeRecord(schema, tuple).value| <= MAX_RECORD
  {
    hide EncodeRecord;
    EncodableExactly(schema, tuple);
  }

  // Four texts of full length make a tuple that encodes and that no page takes;
  // three of them fit.
  lemma FourFullTexts(text: seq<Byte>, c: Column)
    requires |text| == MAX_TEXT && c.kind == TextType
    ensures var t := TextValue(text);
      && Encodable([c, c, c, c], [t, t, t, t]) && RecordSize([t, t, t, t]) == 4116
      && !Storable([c, c, c, c], [t, t, t, t]) && Spoils([], 4116)
      && Storable([c, c, c], [t, t, t])
  {
    var t := TextValue(text);
    assert [t, t, t, t][1..] == [t, t, t] && [t, t, t][1..] == [t, t] && [t, t][1..] == [t];
    assert ValuesSize([t]) == 1028;
    assert ValuesSize([t, t]) == 2056;
    assert ValuesSize([t, t, t]) == 3084;
    assert ValuesSize([t, t, t, t]) == 4112;
  }

  ghost predicate AllStorable(schema: Schema, log: seq<Tuple>) {
    forall t | t in log :: Storable(schema, t)
  }

  function StoredForm(schema: Schema, tuple: Tuple): (record: seq<Byte>)
    requires Storable(schema, tuple)
    ensures |record| <= MAX_RECORD
  {
    StorableExactly(schema, tuple);
    EncodeRecord(schema, tuple).value
  }

  ghost function EncodedLog(schema: Schema, log: seq<Tuple>): (records: seq<seq<Byte>>)
    requires AllStorable(schema, log)
    ensures |records| == |log| && forall r | r in records :: |r| <= MAX_RECORD
  {
    seq(|log|, i requires 0 <= i < |log| => assert log[i] in log; StoredForm(schema, log[i]))
  }

  // The file that holds a table after a run of insertions into an empty file.
  ghost predicate HeapAfter(view: seq<Page>, schema: Schema, log: seq<Tuple>) {
    && AllStorable(schema, log)
    && Readable(view, Heap)
    && ShelvesOf(view, Heap) == Shelved(EncodedLog(schema, log))
  }

  ghost function HeapIds(schema: Schema, log: seq<Tuple>): (ids: seq<Rid>)
    requires AllStorable(schema, log)
    ensures |ids| == |log|
  {
    IdsOfRun(EncodedLog(schema, log))
  }

  lemma EncodedLogStep(schema: Schema, log: seq<Tuple>)
    requires log != [] && AllStorable(schema, log)
    ensures AllStorable(schema, log[..|log| - 1]) && Storable(schema, log[|log| - 1])
    ensures EncodedLog(schema, log) == EncodedLog(schema, log[..|log| - 1]) + [StoredForm(schema, log[|log| - 1])]
  {
  }

  lemma ValuesOneMore(was: seq<Row<Tuple>>, now: seq<Row<Tuple>>, row: Row<Tuple>)
    requires OneMore(was, now, row)
    ensures multiset(Values(now)) == multiset(Values(was)) + multiset{row.value}
  {
    var i :| 0 <= i <= |was| && now == was[..i] + [row] + was[i..];
    assert was == was[..i] + was[i..];
    assert Values(now) == Values(was[..i]) + [row.value] + Values(was[i..]);
    assert Values(was) == Values(was[..i]) + Values(was[i..]);
  }

  // After any run of insertions a scan returns exactly the multiset of inserted
  // tuples.
  lemma {:induction false} ScanIsTheRun(schema: Schema, log: seq<Tuple>)
    requires AllStorable(schema, log)
    ensures RowsIn(Shelved(EncodedLog(schema, log)), schema).Ok?
    ensures multiset(Values(RowsIn(Shelved(EncodedLog(schema, log)), schema).value)) == multiset(log)
  {
    var records := EncodedLog(schema, log);
    if log != [] {
      hide Storable, RowsIn, Placed, DecodeRecord, EncodeRecord;
      var earlier, last := log[..|log| - 1], log[|log| - 1];
      EncodedLogStep(schema, log);
      ScanIsTheRun(schema, earlier);
      var s := Shelved(EncodedLog(schema, earlier));
      assert records[..|records| - 1] == EncodedLog(schema, earlier);
      StorableRoundTrip(schema, last);
      RowsPlaced(s, schema, records[|records| - 1], last);
      ValuesOneMore(RowsIn(s, schema).value, RowsIn(Shelved(records), schema).value,
        Row(PlaceOf(s, records[|records| - 1]), last));
      LastOf(log);
    } else {
      assert records == [];
    }
  }

  lemma StorableRoundTrip(schema: Schema, tuple: Tuple)
    requires Storable(schema, tuple)
    ensures EncodeRecord(schema, tuple).Ok? && |EncodeRecord(schema, tuple).value| <= MAX_RECORD
    ensures DecodeRecord(schema, EncodeRecord(schema, tuple).value) == Ok(tuple)
  {
    StorableExactly(schema, tuple);
    RecordRoundTrip(schema, tuple);
  }

  // The same for a table file: it can be scanned, the scan has the inserted
  // tuples, every returned id still reads its own tuple, and ids are distinct.
  lemma HeapLaw(view: seq<Page>, schema: Schema, log: seq<Tuple>)
    requires HeapAfter(view, schema, log)
    ensures HeapFile(view, schema)
    ensures multiset(Values(Rows(view, schema))) == multiset(log)
    ensures forall i | 0 <= i < |log| :: Row(HeapIds(schema, log)[i], log[i]) in Rows(view, schema)
    ensures forall i, j | 0 <= i < j < |log| :: HeapIds(schema, log)[i] != HeapIds(schema, log)[j]
  {
    hide RowsIn, DecodeRecord, EncodeRecord, Shelved, IdsOfRun;
    ScanIsTheRun(schema, log);
    var records, ids := EncodedLog(schema, log), HeapIds(schema, log);
    IdsAreStable(records);
    forall i | 0 <= i < |log| ensures Row(ids[i], log[i]) in Rows(view, schema) {
      assert log[i] in log;
      StorableRoundTrip(schema, log[i]);
      RowsExact(Shelved(records), schema, ids[i], log[i]);
    }
  }

  // How a table file refuses a tuple of its schema's types, and what is left of
  // the file: the file itself, unless its record is longer than an empty page takes.
  ghost predicate Refuses(was: seq<Page>, now: seq<Page>, schema: Schema, tuple: Tuple, e: Error) {
    if !Encodable(schema, tuple) then e == ResourceExhausted && now == was
    else if Storable(schema, tuple) then e == OutOfRange && now == was && |was| == MAX_DISK_ID + 1
    else if Spoils(was, RecordSize(tuple)) then e == ResourceExhausted && Spoiled(was, now, Heap)
    else e == Untraced(was, RecordSize(tuple)) && now == was
  }

  // ---- the heap's operations ----

  class TableHeap {
    const pool: BufferPoolManager

    constructor (pool: BufferPoolManager)
      ensures this.pool == pool
    {
      this.pool := pool;
    }

    // Adds a row under an unused id. A tuple that the encoder refuses leaves the
    // pool untouched. A file without free page ids stays as it was. A tuple too
    // long for an empty page leaves a page behind that makes the file unreadable,
    // unless its record is also too long for a slot of an existing page.
    method Insert(schema: Schema, tuple: Tuple) returns (r: Result<Rid>)
      requires Idle(pool)
      modifies pool
      ensures Idle(pool) && |pool.frames| == old(|pool.frames|)
      ensures EncodeRecord(schema, tuple).Err? ==> r == Err(EncodeRecord(schema, tuple).error) && unchanged(pool)
      ensures r.Ok? ==> Storable(schema, tuple) && RidValid(r.value)
      ensures r.Ok? && HeapFile(old(pool.View()), schema) ==>
        && HeapFile(pool.View(), schema)
        && OneMore(old(Rows(pool.View(), schema)), Rows(pool.View(), schema), Row(r.value, tuple))
      ensures r.Ok? ==> forall log :: HeapAfter(old(pool.View()), schema, log) ==>
        && HeapAfter(pool.View(), schema, log + [tuple])
        && r.value == HeapIds(schema, log + [tuple])[|log|]
      ensures Readable(old(pool.View()), Heap) && Matches(schema, tuple) && r.Err? ==>
        Refuses(old(pool.View()), pool.View(), schema, tuple, r.error)
      ensures r.Err? && pool.View() != old(pool.View()) ==>
        r.error == ResourceExhausted && !Storable(schema, tuple) && !Readable(pool.View(), Heap)
      ensures !Readable(old(pool.View()), Heap) ==> !Readable(pool.View(), Heap)
    {
      hide StateOk, ViewOf, OrderOf, EncodeRecord, DecodeRecord, RowsIn, PageOk, Placed, PlaceOf, IntactShelves, Intact;
      hide FindsRoom, Overlong, Readable, Shelved, IdsOfRun, Strip, Create, Encodable, RecordSize;
      ghost var was := pool.View();
      EncodableExactly(schema, tuple);
      var record := WriteRecord(schema, tuple);
      if record.Err? {
        return Forward(record);
      }
      RecordRoundTrip(schema, tuple);
      RecordNotEmpty(schema, tuple);
      SizeFacts(pool.Now());
      r := AppendRecord(pool, Heap, record.value);
      if r.Ok? {
        SizeFacts(pool.Now());
        InsertedId(was, record.value);
        if Readable(was, Heap) {
          ReadableShelves(was, Heap);
          ReadableShelves(pool.View(), Heap);
        }
        if HeapFile(was, schema) {
          RowsPlaced(ShelvesOf(was, Heap), schema, record.value, tuple);
        }
        forall log | HeapAfter(was, schema, log)
          ensures HeapAfter(pool.View(), schema, log + [tuple]) && r.value == HeapIds(schema, log + [tuple])[|log|]
        {
          HeapGrows(was, pool.View(), schema, log, tuple);
        }
      } else {
        OverlongRecord(was, record.value);
      }
    }

    method Read(schema: Schema, rid: Rid) returns (r: Result<Tuple>)
      requires Idle(pool)
      modifies pool
      ensures Idle(pool) && pool.View() == old(pool.View()) && |pool.frames| == old(|pool.frames|)
      ensures HeapFile(pool.View(), schema) ==>
        forall tuple :: r == Ok(tuple) <==> RidValid(rid) && Row(rid, tuple) in Rows(pool.View(), schema)
      ensures HeapFile(pool.View(), schema) && r.Err? ==>
        r.error == (if RidValid(rid) then OutOfRange else InvalidArgument)
    {
      hide StateOk, ViewOf, OrderOf, DecodeRecord, RowsIn, Readable;
      var record := ReadRecord(pool, Heap, rid);
      if HeapFile(pool.View(), schema) {
        ReadInShelves(pool.View(), rid);
        forall tuple ensures Row(rid, tuple) in Rows(pool.View(), schema) <==>
          && RecordAt(ShelvesOf(pool.View(), Heap), rid).Some?
          && DecodeRecord(schema, RecordAt(ShelvesOf(pool.View(), Heap), rid).value) == Ok(tuple)
        {
          RowsExact(ShelvesOf(pool.View(), Heap), schema, rid, tuple);
        }
        RowsExact(ShelvesOf(pool.View(), Heap), schema, rid, []);
      }
      if record.Err? {
        return Forward(record);
      }
      r := ReadTuple(schema, record.value);
    }

    method ScanWithRecordIds(schema: Schema) returns (r: Result<seq<Row<Tuple>>>)
      requires Idle(pool)
      modifies pool
      ensures Idle(pool) && pool.View() == old(pool.View()) && |pool.frames| == old(|pool.frames|)
      ensures r == ScanTo(pool.View(), Heap, Decoder(schema), |pool.View()|)
      ensures HeapFile(pool.View(), schema) ==> r == Ok(Rows(pool.View(), schema))
      ensures r.Ok? ==> Readable(pool.View(), Heap)
    {
      hide StateOk, ViewOf, OrderOf, DecodeRecord, Readable;
      r := ScanRecords(pool, Heap, Decoder(schema));
      if r.Ok? {
        ScanNeedsReadable(pool.View(), Heap, Decoder(schema), |pool.View()|);
        assert pool.View()[..|pool.View()|] == pool.View();
      }
      if HeapFile(pool.View(), schema) {
        ScanReadable(pool.View(), Heap, Decoder(schema), |pool.View()|);
      }
    }

    method Scan(schema: Schema) returns (r: Result<seq<Tuple>>)
      requires Idle(pool)
      modifies pool
      ensures Idle(pool) && pool.View() == old(pool.View()) && |pool.frames| == old(|pool.frames|)
      ensures HeapFile(pool.View(), schema) ==> r == Ok(Values(Rows(pool.View(), schema)))
      ensures r.Ok? ==> Readable(pool.View(), Heap)
    {
      hide StateOk, ViewOf, OrderOf, DecodeRecord, Readable, HeapFile, Rows, ScanTo;
      var rows := ScanWithRecordIds(schema);
      if rows.Err? {
        return Forward(rows);
      }
      var tuples: seq<Tuple> := [];
      for i := 0 to |rows.value|
        invariant tuples == Values(rows.value)[..i]
      {
        tuples := tuples + [rows.value[i].value];
      }
      assert tuples == Values(rows.value);
      return Ok(tuples);
    }
  }

  lemma RecordNotEmpty(schema: Schema, tuple: Tuple)
    requires EncodeRecord(schema, tuple).Ok?
    ensures EncodeRecord(schema, tuple).value != []
  {
    hide EncodeColumns;
  }

  lemma InsertedId(view: seq<Page>, record: seq<Byte>)
    requires |view| <= MAX_DISK_ID + 1
    ensures RidValid(PlaceOf(IntactShelves(view, Heap), record))
  {
    hide SlottedOk, RecordsOf, TypeOf, Readable;
    var s := IntactShelves(view, Heap);
    var i := Chosen(s, record);
    if i < |s| {
      ReadableAt(view[..Intact(view, Heap)], Heap, i);
    }
  }

  lemma ReadableAt(view: seq<Page>, t: PageType, i: nat)
    requires Readable(view, t) && i < |view|
    ensures |ShelvesOf(view, t)[i].records| <= 341
  {
    assert PageOk(view[i], t);
    FreeSpaceBound(view[i]);
  }

  lemma OverlongRecord(view: seq<Page>, record: seq<Byte>)
    ensures Overlong(view, Heap, record) ==> |record| > MAX_RECORD
  {
  }

  lemma ReadInShelves(view: seq<Page>, rid: Rid)
    requires Readable(view, Heap)
    ensures RecordAt(ShelvesOf(view, Heap), rid) ==
      if rid.page < |view| && PageOk(view[rid.page], Heap) && rid.slot < |ShelfOf(view[rid.page]).records|
      then Some(ShelfOf(view[rid.page]).records[rid.slot]) else None
    ensures rid.page < |view| ==> PageOk(view[rid.page], Heap)
  {
    hide SlottedOk, RecordsOf, TypeOf;
  }

  lemma HeapGrows(was: seq<Page>, now: seq<Page>, schema: Schema, log: seq<Tuple>, tuple: Tuple)
    requires HeapAfter(was, schema, log) && Storable(schema, tuple) && Readable(now, Heap)
    requires ShelvesOf(now, Heap) == Placed(ShelvesOf(was, Heap), StoredForm(schema, tuple))
    ensures HeapAfter(now, schema, log + [tuple])
    ensures HeapIds(schema, log + [tuple])[|log|] == PlaceOf(ShelvesOf(was, Heap), StoredForm(schema, tuple))
  {
    hide Readable, Placed, PlaceOf;
    var after := log + [tuple];
    assert after[..|log|] == log;
    EncodedLogStep(schema, after);
    var records := EncodedLog(schema, after);
    assert records[..|records| - 1] == EncodedLog(schema, log);
  }
}
