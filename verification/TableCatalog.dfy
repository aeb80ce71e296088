// The stored form of table metadata, and the append-only file of it.
module TableCatalogs {
  import opened Results
  import opened ByteCodec
  import opened ByteStreams
  import opened Pages
  import opened BufferPool
  import opened PageManager
  import opened SlottedPages
  import opened TreeModel
  import opened FirstFit
  import opened RecordFiles
  import opened RecordCodec
  import opened Catalogs

  // ---- encoding ----

  function KindCode(kind: ColumnType): Byte {
    if kind == IntType then 0 else 1
  }

  function EncodeColumn(c: Column): Result<seq<Byte>> {
    if c.name == [] || |c.name| > 0xFFFF then Err(InvalidArgument)
    else Ok(LittleEndian(2, |c.name|) + c.name + [KindCode(c.kind)])
  }

  function EncodeSchema(schema: Schema): Result<seq<Byte>> {
    if schema == [] then Ok([])
    else
      match EncodeColumn(schema[0])
      case Err(e) => Err(e)
      case Ok(front) => Following(front, EncodeSchema(schema[1..]))
  }

  function TableHeader(t: Table): seq<Byte> {
    LittleEndian(8, t.id) + LittleEndian(2, |t.name|) + t.name + LittleEndian(2, |t.schema|)
  }

  function EncodeTable(t: Table): Result<seq<Byte>> {
    if t.id == INVALID_ID || t.name == [] || t.schema == [] then Err(InvalidArgument)
    else if |t.name| > 0xFFFF || |t.schema| > 0xFFFF then Err(ResourceExhausted)
    else Following(TableHeader(t), EncodeSchema(t.schema))
  }

  // ---- decoding: every failure is reported as corruption ----

  function DecodeColumn(s: seq<Byte>): Option<(Column, seq<Byte>)> {
    if |s| < 2 then None
    else
      var n := FromLittleEndian(s[..2]);
      if n == 0 || |s| < 2 + n + 1 then None
      else if s[2 + n] == 0 then Some((Column(s[2..2 + n], IntType), s[2 + n + 1..]))
      else if s[2 + n] == 1 then Some((Column(s[2..2 + n], TextType), s[2 + n + 1..]))
      else None
  }

  function DecodeSchema(count: nat, s: seq<Byte>): Result<Schema> {
    if count == 0 then (if s == [] then Ok([]) else Err(Corruption))
    else
      match DecodeColumn(s)
      case None => Err(Corruption)
      case Some((c, rest)) => Following([c], DecodeSchema(count - 1, rest))
  }

  function DecodeId(s: seq<Byte>): Word64
    requires |s| == 8
  {
    Capacities();
    EncodeDecode(s);
    FromLittleEndian(s)
  }

  function DecodeTable(s: seq<Byte>): Result<Table> {
    if |s| < 10 then Err(Corruption)
    else
      var id, n := DecodeId(s[..8]), FromLittleEndian(s[8..10]);
      if id == 0 || id == INVALID_ID || n == 0 || |s| < 10 + n + 2 then Err(Corruption)
      else
        var count := FromLittleEndian(s[10 + n..10 + n + 2]);
        if count == 0 then Err(Corruption)
        else
          match DecodeSchema(count, s[10 + n + 2..])
          case Err(e) => Err(e)
          case Ok(schema) => Ok(Table(id, s[10..10 + n], schema))
  }

  // ---- the laws ----

  lemma ColumnRoundTrip(c: Column, rest: seq<Byte>)
    requires EncodeColumn(c).Ok?
    ensures DecodeColumn(EncodeColumn(c).value + rest) == Some((c, rest))
  {
    Capacities();
    DecodeEncode(2, |c.name|);
    hide LittleEndian, FromLittleEndian;
    var s := EncodeColumn(c).value + rest;
    var n := |c.name|;
    assert s[..2] == LittleEndian(2, n) && s[2..2 + n] == c.name && s[2 + n] == KindCode(c.kind) && s[2 + n + 1..] == rest;
  }

  lemma {:induction false} SchemaRoundTrip(schema: Schema)
    requires EncodeSchema(schema).Ok?
    ensures DecodeSchema(|schema|, EncodeSchema(schema).value) == Ok(schema)
  {
    if schema != [] {
      hide DecodeColumn, EncodeColumn;
      SchemaRoundTrip(schema[1..]);
      ColumnRoundTrip(schema[0], EncodeSchema(schema[1..]).value);
      assert [schema[0]] + schema[1..] == schema;
    }
  }

  lemma HeaderParts(a: seq<Byte>, b: seq<Byte>, name: seq<Byte>, c: seq<Byte>, rest: seq<Byte>)
    requires |a| == 8 && |b| == 2 && |c| == 2
    ensures var s, n := a + b + name + c + rest, |name|;
      s[..8] == a && s[8..10] == b && s[10..10 + n] == name && s[10 + n..10 + n + 2] == c && s[10 + n + 2..] == rest
  {
  }

  // A stored table comes back as it was, except that a table with id zero can be
  // written but is refused when it is read.
  lemma TableRoundTrip(t: Table)
    requires EncodeTable(t).Ok?
    ensures DecodeTable(EncodeTable(t).value) == if t.id != 0 then Ok(t) else Err(Corruption)
  {
    Capacities();
    DecodeEncode(8, t.id);
    DecodeEncode(2, |t.name|);
    DecodeEncode(2, |t.schema|);
    SchemaRoundTrip(t.schema);
    hide LittleEndian, FromLittleEndian, EncodeSchema, DecodeSchema;
    HeaderParts(LittleEndian(8, t.id), LittleEndian(2, |t.name|), t.name, LittleEndian(2, |t.schema|),
      EncodeSchema(t.schema).value);
  }

  lemma ColumnCanonical(s: seq<Byte>)
    requires DecodeColumn(s).Some?
    ensures var (c, rest) := DecodeColumn(s).value;
      EncodeColumn(c).Ok? && EncodeColumn(c).value + rest == s
  {
    Capacities();
    EncodeDecode(s[..2]);
    hide LittleEndian, FromLittleEndian;
    var n := FromLittleEndian(s[..2]);
    assert s == s[..2] + s[2..2 + n] + [s[2 + n]] + s[2 + n + 1..];
  }

  lemma {:induction false} SchemaCanonical(count: nat, s: seq<Byte>)
    requires DecodeSchema(count, s).Ok?
    ensures var schema := DecodeSchema(count, s).value;
      |schema| == count && EncodeSchema(schema) == Ok(s)
  {
    if count != 0 {
      hide DecodeColumn, EncodeColumn;
      var (c, rest) := DecodeColumn(s).value;
      ColumnCanonical(s);
      SchemaCanonical(count - 1, rest);
      var schema := DecodeSchema(count, s).value;
      assert schema[0] == c && schema[1..] == DecodeSchema(count - 1, rest).value;
    }
  }

  // Whatever decodes is the encoding of what it decodes to.
  lemma TableCanonical(s: seq<Byte>)
    requires DecodeTable(s).Ok?
    ensures EncodeTable(DecodeTable(s).value) == Ok(s)
  {
    Capacities();
    var n := FromLittleEndian(s[8..10]);
    EncodeDecode(s[..8]);
    EncodeDecode(s[8..10]);
    EncodeDecode(s[10 + n..10 + n + 2]);
    SchemaCanonical(FromLittleEndian(s[10 + n..10 + n + 2]), s[10 + n + 2..]);
    hide LittleEndian, FromLittleEndian, EncodeSchema, DecodeSchema;
    assert s == s[..8] + s[8..10] + s[10..10 + n] + s[10 + n..10 + n + 2] + s[10 + n + 2..];
  }

  // Where everything is in the record of a table.
  lemma TableLayout(id: Word64, name: seq<Byte>, a: seq<Byte>, b: seq<Byte>)
    requires id != INVALID_ID && 0 < |name| <= 0xFFFF && 0 < |a| <= 0xFFFF && 0 < |b| <= 0xFFFF
    ensures EncodeTable(Table(id, name, [Column(a, IntType), Column(b, TextType)])) ==
      Ok(LittleEndian(8, id) + LittleEndian(2, |name|) + name + [2, 0]
         + (LittleEndian(2, |a|) + a + [0]) + (LittleEndian(2, |b|) + b + [1]))
  {
    hide LittleEndian, EncodeSchema, TableHeader;
    var schema := [Column(a, IntType), Column(b, TextType)];
    TwoDefinitions(a, b);
    HeaderOfTwo(Table(id, name, schema));
    JoinFront(LittleEndian(8, id) + LittleEndian(2, |name|) + name + [2, 0],
      LittleEndian(2, |a|) + a + [0], LittleEndian(2, |b|) + b + [1]);
  }

  lemma HeaderOfTwo(t: Table)
    requires |t.schema| == 2
    ensures TableHeader(t) == LittleEndian(8, t.id) + LittleEndian(2, |t.name|) + t.name + [2, 0]
  {
    TwoBytes(2);
    hide LittleEndian;
  }

  lemma JoinFront(a: seq<Byte>, b: seq<Byte>, c: seq<Byte>)
    ensures a + (b + c) == a + b + c
  {
  }

  lemma TwoDefinitions(a: seq<Byte>, b: seq<Byte>)
    requires 0 < |a| <= 0xFFFF && 0 < |b| <= 0xFFFF
    ensures EncodeSchema([Column(a, IntType), Column(b, TextType)]) ==
      Ok((LittleEndian(2, |a|) + a + [0]) + (LittleEndian(2, |b|) + b + [1]))
  {
    hide LittleEndian;
    var schema := [Column(a, IntType), Column(b, TextType)];
    assert schema[1..] == [Column(b, TextType)];
    OneDefinition(b);
  }

  lemma OneDefinition(b: seq<Byte>)
    requires 0 < |b| <= 0xFFFF
    ensures EncodeSchema([Column(b, TextType)]) == Ok(LittleEndian(2, |b|) + b + [1])
  {
    hide LittleEndian;
    assert [Column(b, TextType)][1..] == [];
    var one := LittleEndian(2, |b|) + b + [1];
    assert one + [] == one;
  }

  // ---- the loops ----

  method WriteTable(t: Table) returns (r: Result<seq<Byte>>)
    ensures r == EncodeTable(t)
  {
    hide LittleEndian;
    if t.id == INVALID_ID || t.name == [] || t.schema == [] {
      return Err(InvalidArgument);
    }
    if |t.name| > 0xFFFF || |t.schema| > 0xFFFF {
      return Err(ResourceExhausted);
    }
    var writer := new ByteWriter();
    writer.WriteUInt(8, t.id);
    writer.WriteUInt(2, |t.name|);
    writer.WriteBytes(t.name);
    writer.WriteUInt(2, |t.schema|);
    assert writer.bytes == TableHeader(t);
    assert t.schema[0..] == t.schema;
    for index := 0 to |t.schema|
      invariant EncodeTable(t) == Following(writer.bytes, EncodeSchema(t.schema[index..]))
    {
      var column := t.schema[index];
      ghost var was := writer.bytes;
      assert t.schema[index..][1..] == t.schema[index + 1..];
      if column.name == [] || |column.name| > 0xFFFF {
        return Err(InvalidArgument);
      }
      writer.WriteUInt(2, |column.name|);
      writer.WriteBytes(column.name);
      writer.WriteBytes([KindCode(column.kind)]);
      assert writer.bytes == was + EncodeColumn(column).value;
      FollowingTwice(was, EncodeColumn(column).value, EncodeSchema(t.schema[index + 1..]));
    }
    assert writer.bytes + [] == writer.bytes;
    return Ok(writer.bytes);
  }

  // ---- the store ----

  predicate Recordable(t: Table) {
    t.id != 0 && EncodeTable(t).Ok? && |EncodeTable(t).value| <= MAX_RECORD
  }

  predicate ColumnsNamed(schema: Schema) {
    forall c | c in schema :: c.name != [] && |c.name| <= 0xFFFF
  }

  function DefinitionsSize(schema: Schema): nat {
    if schema == [] then 0 else 3 + |schema[0].name| + DefinitionsSize(schema[1..])
  }

  // How many bytes the record of a table has.
  function MetadataSize(name: seq<Byte>, schema: Schema): nat {
    12 + |name| + DefinitionsSize(schema)
  }

  // What the encoder takes.
  predicate TableEncodable(name: seq<Byte>, schema: Schema) {
    && name != [] && |name| <= 0xFFFF
    && schema != [] && |schema| <= 0xFFFF
    && ColumnsNamed(schema)
  }

  // What a catalog page takes.
  predicate TableFits(name: seq<Byte>, schema: Schema) {
    TableEncodable(name, schema) && MetadataSize(name, schema) <= MAX_RECORD
  }

  lemma {:induction false} SchemaEncodable(schema: Schema)
    ensures EncodeSchema(schema).Ok? <==> ColumnsNamed(schema)
    ensures EncodeSchema(schema).Ok? ==> |EncodeSchema(schema).value| == DefinitionsSize(schema)
  {
    if schema != [] {
      hide LittleEndian;
      SchemaEncodable(schema[1..]);
      assert schema == [schema[0]] + schema[1..];
    }
  }

  // A table has a record exactly when its metadata is encodable, whose length
  // depends on the names alone.
  lemma TableEncodableExactly(t: Table)
    requires t.id != INVALID_ID
    ensures EncodeTable(t).Ok? <==> TableEncodable(t.name, t.schema)
    ensures EncodeTable(t).Ok? ==> |EncodeTable(t).value| == MetadataSize(t.name, t.schema)
  {
    hide EncodeSchema, ColumnsNamed;
    SchemaEncodable(t.schema);
  }

  // A table can be recorded exactly when its id is not one of the two reserved
  // ids, its names are there, and its metadata has at most 4036 bytes.
  lemma RecordableExactly(t: Table)
    ensures Recordable(t) <==> t.id != 0 && t.id != INVALID_ID && TableFits(t.name, t.schema)
  {
    hide EncodeSchema, DefinitionsSize, ColumnsNamed, TableHeader;
    if t.id != INVALID_ID {
      TableEncodableExactly(t);
    }
  }

  // A column name of 4021 bytes is one too many for a table with a name of one
  // byte: the metadata encodes, and no catalog page takes it.
  lemma LongColumnName(name: seq<Byte>, c: Column)
    requires |name| == 1 && 4020 <= |c.name| <= 4021
    ensures TableEncodable(name, [c]) && (TableFits(name, [c]) <==> |c.name| == 4020)
    ensures |c.name| == 4021 ==> Spoils([], MetadataSize(name, [c]))
  {
    assert DefinitionsSize([c]) == 3 + |c.name|;
  }

  function RecordForm(t: Table): (record: seq<Byte>)
    requires Recordable(t)
    ensures |record| <= MAX_RECORD && DecodeTable(record) == Ok(t)
  {
    TableRoundTrip(t);
    EncodeTable(t).value
  }

  ghost predicate AllRecordable(log: seq<Table>) {
    forall t | t in log :: Recordable(t)
  }

  ghost function RecordForms(log: seq<Table>): (rs: seq<seq<Byte>>)
    requires AllRecordable(log)
    ensures |rs| == |log|
    ensures forall i | 0 <= i < |log| :: DecodeTable(rs[i]) == Ok(log[i])
    ensures forall r | r in rs :: |r| <= MAX_RECORD
  {
    seq(|log|, i requires 0 <= i < |log| => assert log[i] in log; RecordForm(log[i]))
  }

  // The table catalog file after a run of appends.
  ghost predicate TablesAfter(view: seq<Page>, log: seq<Table>) {
    && AllRecordable(log)
    && Readable(view, Catalog)
    && ShelvesOf(view, Catalog) == Shelved(RecordForms(log))
  }

  lemma TablesGrow(was: seq<Page>, now: seq<Page>, log: seq<Table>, t: Table)
    requires TablesAfter(was, log) && Recordable(t)
    requires Readable(was, Catalog) ==> Readable(now, Catalog)
    requires IntactShelves(now, Catalog) == Placed(IntactShelves(was, Catalog), EncodeTable(t).value)
    ensures TablesAfter(now, log + [t])
  {
    hide Readable, Placed, PlaceOf, DecodeTable, EncodeTable;
    ReadableShelves(was, Catalog);
    ReadableShelves(now, Catalog);
    var rs := RecordForms(log + [t]);
    assert rs == RecordForms(log) + [RecordForm(t)];
    assert rs[..|rs| - 1] == RecordForms(log);
  }

  // A scan of the catalog finds exactly the tables appended.
  lemma TablesFound(view: seq<Page>, log: seq<Table>)
    requires TablesAfter(view, log)
    ensures var found := ScanTo(view, Catalog, DecodeTable, |view|);
      found.Ok? && multiset(Values(found.value)) == multiset(log)
  {
    hide DecodeTable, Shelved, Cells, DecodeOnto, Readable;
    var rs := RecordForms(log);
    var s := Shelved(rs);
    var cells := Cells(s);
    ScanReadable(view, Catalog, DecodeTable, |view|);
    WholeScan(s);
    forall c | c in cells ensures DecodeTable(c.bytes).Ok? {
      CellInLog(rs, c);
      var i :| 0 <= i < |rs| && rs[i] == c.bytes;
    }
    AllDecode(cells, DecodeTable);
    DecodedRows(cells, DecodeTable);
    ScanIsTheLog(rs);
    SameDecodings(BytesOf(cells), Values(DecodeOnto([], cells, DecodeTable).value), rs, log);
  }

  lemma WholeScan(s: seq<Shelf>)
    ensures Cells(s) == CellsBetween(s, 0, |s|)
  {
  }

  // Equal multisets of records decode to equal multisets of tables.
  lemma {:induction false} SameDecodings(rs: seq<seq<Byte>>, ts: seq<Table>, rs': seq<seq<Byte>>, ts': seq<Table>)
    requires |rs| == |ts| && |rs'| == |ts'| && multiset(rs) == multiset(rs')
    requires forall i | 0 <= i < |rs| :: DecodeTable(rs[i]) == Ok(ts[i])
    requires forall i | 0 <= i < |rs'| :: DecodeTable(rs'[i]) == Ok(ts'[i])
    ensures multiset(ts) == multiset(ts')
  {
    hide DecodeTable;
    if rs == [] {
      assert multiset(rs') == multiset{} && |rs'| == |multiset(rs')|;
    } else {
      var n := |rs| - 1;
      LastOf(rs);
      LastOf(ts);
      assert rs[n] in multiset(rs');
      var k :| 0 <= k < |rs'| && rs'[k] == rs[n];
      WithoutOne(rs', k);
      WithoutOne(ts', k);
      assert multiset(rs[..n]) == multiset(rs) - multiset{rs[n]};
      SameDecodings(rs[..n], ts[..n], rs'[..k] + rs'[k + 1..], ts'[..k] + ts'[k + 1..]);
    }
  }

  lemma WithoutOne<T>(s: seq<T>, k: nat)
    requires k < |s|
    ensures multiset(s) == multiset(s[..k] + s[k + 1..]) + multiset{s[k]}
  {
    assert s == s[..k] + [s[k]] + s[k + 1..];
  }

  class CatalogStore {
    const pool: BufferPoolManager

    constructor (pool: BufferPoolManager)
      ensures this.pool == pool
    {
      this.pool := pool;
    }

    // Appends one table. Metadata that the encoder refuses leaves the pool
    // untouched; metadata too long for an empty page leaves a page behind that
    // makes the catalog unreadable.
    method Append(t: Table) returns (r: Result<()>)
      requires Idle(pool)
      modifies pool
      ensures Idle(pool) && |pool.frames| == old(|pool.frames|)
      ensures EncodeTable(t).Err? ==> r == Err(EncodeTable(t).error) && unchanged(pool)
      ensures r.Ok? ==> EncodeTable(t).Ok? && |EncodeTable(t).value| <= MAX_RECORD
      ensures r.Ok? && t.id != 0 ==> forall log :: TablesAfter(old(pool.View()), log) ==> TablesAfter(pool.View(), log + [t])
      ensures Readable(old(pool.View()), Catalog) && r.Err? ==>
        FileRefuses(old(pool.View()), pool.View(), Catalog, EncodeTable(t), r.error)
      ensures r.Err? && pool.View() != old(pool.View()) ==> !Recordable(t) && !Readable(pool.View(), Catalog)
    {
      hide StateOk, ViewOf, OrderOf, EncodeTable, DecodeTable, PageOk, Placed, PlaceOf, IntactShelves, Intact;
      hide FindsRoom, Overlong, Readable, Shelved, Strip, Create, TablesAfter;
      ghost var was := pool.View();
      var record := WriteTable(t);
      if record.Err? {
        return Forward(record);
      }
      RecordNotEmpty(t);
      SizeFacts(pool.Now());
      OverlongRecord(was, record.value);
      var placed := AppendRecord(pool, Catalog, record.value);
      if placed.Err? {
        return Forward(placed);
      }
      forall log | TablesAfter(was, log) && t.id != 0 ensures TablesAfter(pool.View(), log + [t]) {
        TablesGrow(was, pool.View(), log, t);
      }
      return Ok(());
    }

    // All tables, in page and slot order.
    method Load() returns (r: Result<seq<Table>>)
      requires Idle(pool)
      modifies pool
      ensures Idle(pool) && pool.View() == old(pool.View()) && |pool.frames| == old(|pool.frames|)
      ensures forall log :: TablesAfter(pool.View(), log) ==> r.Ok? && multiset(r.value) == multiset(log)
      ensures r.Ok? ==> Readable(pool.View(), Catalog)
    {
      hide StateOk, ViewOf, OrderOf, DecodeTable, TablesAfter, ScanTo, Readable;
      var found := ScanRecords(pool, Catalog, DecodeTable);
      forall log | TablesAfter(pool.View(), log) ensures found.Ok? && multiset(Values(found.value)) == multiset(log) {
        TablesFound(pool.View(), log);
      }
      if found.Err? {
        return Forward(found);
      }
      ScanNeedsReadable(pool.View(), Catalog, DecodeTable, |pool.View()|);
      assert pool.View()[..|pool.View()|] == pool.View();
      var tables: seq<Table> := [];
      for i := 0 to |found.value|
        invariant tables == Values(found.value)[..i]
      {
        tables := tables + [found.value[i].value];
      }
      assert tables == Values(found.value);
      return Ok(tables);
    }
  }

  lemma RecordNotEmpty(t: Table)
    requires EncodeTable(t).Ok?
    ensures EncodeTable(t).value != []
  {
    hide EncodeSchema;
  }

  lemma OverlongRecord(view: seq<Page>, record: seq<Byte>)
    ensures Overlong(view, Catalog, record) ==> |record| > MAX_RECORD
  {
  }
}
