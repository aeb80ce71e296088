// Tables and their unique indexes as values: what it means for an index to agree
// with the rows of its table, and what an insertion does to that agreement.
module IndexedTables {
  import opened Results
  import opened ByteCodec
  import opened Pages
  import opened TreeModel
  import opened FirstFit
  import opened TreeContents
  import opened NodeCodec
  import opened IndexFiles
  import opened RecordFiles
  import opened RecordCodec
  import opened TableHeaps
  import opened IndexCodec
  import opened Catalogs

  predicate HasKey(row: Row<Tuple>, column: nat) {
    column < |row.value| && row.value[column].IntValue?
  }

  function EntryFor(row: Row<Tuple>, column: nat): Entry
    requires HasKey(row, column)
  {
    Entry(row.value[column].number, row.rid)
  }

  // The entries are exactly the key and id of every row.
  ghost predicate Agrees(entries: seq<Entry>, rows: seq<Row<Tuple>>, column: nat) {
    && (forall r | r in rows :: HasKey(r, column) && EntryFor(r, column) in entries)
    && (forall e | e in entries :: exists r :: r in rows && HasKey(r, column) && EntryFor(r, column) == e)
  }

  // Some row has the same value in the column.
  ghost predicate Taken(rows: seq<Row<Tuple>>, column: nat, v: Value) {
    exists r :: r in rows && column < |r.value| && r.value[column] == v
  }

  // An agreeing index is the map from column values to row ids.
  lemma AgreesAsMap(entries: seq<Entry>, rows: seq<Row<Tuple>>, column: nat)
    requires Agrees(entries, rows, column) && Ascending(entries)
    ensures forall key: Int64 :: key in MapOf(entries) <==> Taken(rows, column, IntValue(key))
    ensures forall r | r in rows :: HasKey(r, column) && EntryFor(r, column).key in MapOf(entries)
    ensures forall r | r in rows :: MapOf(entries)[EntryFor(r, column).key] == r.rid
  {
    MapExact(entries);
    forall key: Int64 ensures key in MapOf(entries) <==> Taken(rows, column, IntValue(key)) {
      if key in MapOf(entries) {
        assert Entry(key, MapOf(entries)[key]) in entries;
        var r :| r in rows && HasKey(r, column) && EntryFor(r, column) == Entry(key, MapOf(entries)[key]);
        assert r.value[column] == IntValue(key);
      }
      if Taken(rows, column, IntValue(key)) {
        var r :| r in rows && column < |r.value| && r.value[column] == IntValue(key);
        assert EntryFor(r, column) in entries;
      }
    }
    forall r | r in rows
      ensures HasKey(r, column) && EntryFor(r, column).key in MapOf(entries) && MapOf(entries)[EntryFor(r, column).key] == r.rid
    {
      assert EntryFor(r, column) in entries;
    }
  }

  lemma InsertedMembers(es: seq<Entry>, e: Entry, x: Entry)
    ensures x in Inserted(es, e) <==> x in es || x == e
  {
    var n := LowerBound(es, e.key);
    assert es == es[..n] + es[n..];
  }

  lemma OneMoreMembers(was: seq<Row<Tuple>>, now: seq<Row<Tuple>>, row: Row<Tuple>)
    requires OneMore(was, now, row)
    ensures forall r :: r in now <==> r in was || r == row
  {
    var i :| 0 <= i <= |was| && now == was[..i] + [row] + was[i..];
    assert was == was[..i] + was[i..];
  }

  // Adding a row and its entry keeps the agreement.
  lemma AgreesGrows(entries: seq<Entry>, was: seq<Row<Tuple>>, now: seq<Row<Tuple>>, row: Row<Tuple>, column: nat)
    requires Agrees(entries, was, column) && HasKey(row, column)
    requires forall r :: r in now <==> r in was || r == row
    ensures Agrees(Inserted(entries, EntryFor(row, column)), now, column)
  {
    hide Inserted;
    var added := EntryFor(row, column);
    forall r | r in now ensures HasKey(r, column) && EntryFor(r, column) in Inserted(entries, added) {
      InsertedMembers(entries, added, EntryFor(r, column));
    }
    forall e | e in Inserted(entries, added) ensures exists r :: r in now && HasKey(r, column) && EntryFor(r, column) == e {
      InsertedMembers(entries, added, e);
      if e == added {
        assert row in now;
      } else {
        var r :| r in was && HasKey(r, column) && EntryFor(r, column) == e;
        assert r in now;
      }
    }
  }

  // The rows of a readable table match its schema.
  lemma RowsMatch(view: seq<Page>, schema: Schema)
    requires HeapFile(view, schema)
    ensures forall r | r in Rows(view, schema) :: Matches(schema, r.value)
  {
    hide DecodeRecord, EncodeRecord, DecodeOnto, Matches, Cells;
    var rows := Rows(view, schema);
    var s := ShelvesOf(view, Heap);
    DecodedRows(Cells(s), Decoder(schema));
    forall r | r in rows ensures Matches(schema, r.value) {
      var i :| 0 <= i < |rows| && rows[i] == r;
      RecordCanonical(schema, Cells(s)[i].bytes);
      EncodableExactly(schema, r.value);
    }
  }

  // ---- the whole database ----

  datatype World = World(
    tables: map<Word64, Table>,
    heaps: map<Word64, seq<Page>>,
    indexes: map<Word64, IndexEntry>,
    trees: map<Word64, seq<Page>>)

  ghost predicate HeapsOk(w: World) {
    && w.heaps.Keys == w.tables.Keys
    && forall t | t in w.tables :: HeapFile(w.heaps[t], w.tables[t].schema)
  }

  // The rows of a table.
  ghost function RowsOf(w: World, t: Word64): seq<Row<Tuple>>
    requires HeapsOk(w) && t in w.tables
  {
    Rows(w.heaps[t], w.tables[t].schema)
  }

  // An index is on an INT column of a known table.
  ghost predicate MetaOk(w: World, i: Word64) {
    && i in w.indexes && w.indexes[i].id == i && EntryOk(w.indexes[i])
    && w.indexes[i].table in w.tables
    && w.indexes[i].column < |w.tables[w.indexes[i].table].schema|
    && w.tables[w.indexes[i].table].schema[w.indexes[i].column].kind == IntType
  }

  // The index's file holds a well-formed tree with the recorded root.
  ghost predicate TreeOk(w: World, i: Word64) {
    i in w.indexes && i in w.trees && TreeFile(w.trees[i], w.indexes[i].root)
  }

  // The entries of an index, in key order.
  ghost function EntriesOf(w: World, i: Word64): seq<Entry>
    requires TreeOk(w, i)
  {
    FileEntries(w.trees[i], w.indexes[i].root)
  }

  ghost predicate IndexOk(w: World, i: Word64)
    requires HeapsOk(w)
  {
    MetaOk(w, i) && TreeOk(w, i) && Agrees(EntriesOf(w, i), RowsOf(w, w.indexes[i].table), w.indexes[i].column)
  }

  // Every table can be read and every index agrees with its table.
  ghost predicate WorldOk(w: World) {
    HeapsOk(w) && w.trees.Keys == w.indexes.Keys && forall i | i in w.indexes :: IndexOk(w, i)
  }

  // The tuple repeats a value of some indexed column.
  ghost predicate Duplicate(w: World, t: Word64, tuple: Tuple)
    requires HeapsOk(w) && t in w.tables
  {
    exists i :: i in w.indexes && DuplicateIn(w, i, t, tuple)
  }

  ghost predicate DuplicateIn(w: World, i: Word64, t: Word64, tuple: Tuple)
    requires HeapsOk(w) && t in w.tables && i in w.indexes
  {
    && w.indexes[i].table == t && w.indexes[i].column < |tuple|
    && Taken(RowsOf(w, t), w.indexes[i].column, tuple[w.indexes[i].column])
  }

  // Whether a refused tuple would spoil the table's file: its record is longer
  // than an empty page takes, and the file can get one more page.
  ghost predicate Damages(w: World, t: Word64, tuple: Tuple)
    requires t in w.tables && t in w.heaps
  {
    Encodable(w.tables[t].schema, tuple) && Spoils(w.heaps[t], RecordSize(tuple))
  }

  // The file of one table can no longer be read; everything else is as it was.
  ghost predicate HeapSpoiled(was: World, now: World, t: Word64) {
    && t in was.heaps && t in now.heaps && now == was.(heaps := was.heaps[t := now.heaps[t]])
    && Spoiled(was.heaps[t], now.heaps[t], Heap)
  }

  // ---- an insertion, index by index ----

  predicate SameButRoot(a: IndexEntry, b: IndexEntry) {
    a == b.(root := a.root)
  }

  // The table has its new row, and so have the indexes in done; the others are
  // as they were.
  ghost predicate Halfway(was: World, now: World, t: Word64, row: Row<Tuple>, done: seq<Word64>) {
    && WorldOk(was) && t in was.tables && Matches(was.tables[t].schema, row.value)
    && now.tables == was.tables && t in now.heaps && now.heaps == was.heaps[t := now.heaps[t]]
    && HeapFile(now.heaps[t], now.tables[t].schema)
    && OneMore(RowsOf(was, t), Rows(now.heaps[t], now.tables[t].schema), row)
    && now.indexes.Keys == was.indexes.Keys == now.trees.Keys
    && forall i | i in was.indexes :: Step(was, now, t, row, i, i in done)
  }

  ghost predicate Step(was: World, now: World, t: Word64, row: Row<Tuple>, i: Word64, done: bool)
    requires WorldOk(was) && i in was.indexes && i in now.indexes && i in now.trees
  {
    if was.indexes[i].table == t && done then
      && SameButRoot(now.indexes[i], was.indexes[i]) && EntryOk(now.indexes[i])
      && TreeOk(now, i)
      && HasKey(row, was.indexes[i].column)
      && EntriesOf(now, i) == Inserted(OldEntries(was, i), EntryFor(row, was.indexes[i].column))
    else now.indexes[i] == was.indexes[i] && now.trees[i] == was.trees[i]
  }

  ghost function OldEntries(was: World, i: Word64): seq<Entry>
    requires WorldOk(was) && i in was.indexes
  {
    assert IndexOk(was, i);
    EntriesOf(was, i)
  }

  // One index has one more entry, and possibly another root page.
  ghost predicate KeyAdded(was: World, now: World, i: Word64, e: Entry) {
    && i in was.indexes && i in now.indexes && i in now.trees
    && now == was.(indexes := was.indexes[i := now.indexes[i]], trees := was.trees[i := now.trees[i]])
    && SameButRoot(now.indexes[i], was.indexes[i]) && now.indexes[i].root != INVALID_ID
    && TreeOk(was, i) && TreeOk(now, i)
    && EntriesOf(now, i) == Inserted(EntriesOf(was, i), e)
  }

  lemma KeyAddedHow(was: World, now: World, i: Word64, e: Entry, view: seq<Page>, root: Word64)
    requires TreeOk(was, i) && root != INVALID_ID && TreeFile(view, root)
    requires FileEntries(view, root) == Inserted(EntriesOf(was, i), e)
    requires now == was.(indexes := was.indexes[i := was.indexes[i].(root := root)], trees := was.trees[i := view])
    ensures KeyAdded(was, now, i, e)
  {
    hide Inserted, TreeFile, FileEntries;
  }

  lemma HalfwayStart(was: World, now: World, t: Word64, row: Row<Tuple>)
    requires WorldOk(was) && t in was.tables && Matches(was.tables[t].schema, row.value)
    requires t in now.heaps && now == was.(heaps := was.heaps[t := now.heaps[t]])
    requires HeapFile(now.heaps[t], now.tables[t].schema)
    requires OneMore(RowsOf(was, t), Rows(now.heaps[t], now.tables[t].schema), row)
    ensures Halfway(was, now, t, row, [])
  {
  }

  lemma KeyThere(w: World, i: Word64, row: Row<Tuple>)
    requires MetaOk(w, i) && Matches(w.tables[w.indexes[i].table].schema, row.value)
    ensures HasKey(row, w.indexes[i].column)
  {
  }

  lemma RootKeepsEntry(was: World, i: Word64, e: IndexEntry)
    requires WorldOk(was) && i in was.indexes && SameButRoot(e, was.indexes[i]) && e.root != INVALID_ID
    ensures EntryOk(e)
  {
    assert IndexOk(was, i);
  }

  // One more index receives its entry.
  lemma HalfwayStep(was: World, mid: World, now: World, t: Word64, row: Row<Tuple>, done: seq<Word64>, i: Word64)
    requires Halfway(was, mid, t, row, done) && i in was.indexes && i !in done && was.indexes[i].table == t
    requires HasKey(row, was.indexes[i].column)
    requires KeyAdded(mid, now, i, EntryFor(row, was.indexes[i].column))
    ensures Halfway(was, now, t, row, done + [i])
  {
    hide Inserted, OneMore, WorldOk, HeapFile, TreeFile, FileEntries, EntryOk, HasKey, Matches;
    assert Step(was, mid, t, row, i, false);
    RootKeepsEntry(was, i, now.indexes[i]);
    forall j | j in was.indexes ensures Step(was, now, t, row, j, j in done + [i]) {
      assert Step(was, mid, t, row, j, j in done);
    }
  }

  // An index of another table is left alone.
  lemma HalfwaySkip(was: World, now: World, t: Word64, row: Row<Tuple>, done: seq<Word64>, i: Word64)
    requires Halfway(was, now, t, row, done) && i in was.indexes && was.indexes[i].table != t
    ensures Halfway(was, now, t, row, done + [i])
  {
    hide Inserted, OneMore, WorldOk, HeapFile, TreeFile, FileEntries, EntryOk, HasKey, Matches;
    forall j | j in was.indexes ensures Step(was, now, t, row, j, j in done + [i]) {
      assert Step(was, now, t, row, j, j in done);
    }
  }

  // What one index looks like before its turn.
  lemma HalfwayFacts(was: World, now: World, t: Word64, row: Row<Tuple>, done: seq<Word64>, i: Word64)
    requires Halfway(was, now, t, row, done) && i in was.indexes && i !in done && was.indexes[i].table == t
    ensures i in now.indexes && i in now.trees && now.indexes[i] == was.indexes[i] && now.trees[i] == was.trees[i]
    ensures MetaOk(was, i) && TreeOk(was, i) && TreeOk(now, i) && EntriesOf(now, i) == EntriesOf(was, i)
    ensures HasKey(row, was.indexes[i].column)
    ensures Agrees(EntriesOf(was, i), RowsOf(was, t), was.indexes[i].column) && Ascending(EntriesOf(was, i))
  {
    hide Inserted, OneMore, HeapFile, TreeFile, FileEntries, EntryOk, HasKey, Matches, Agrees, Ascending;
    assert Step(was, now, t, row, i, false);
    assert IndexOk(was, i);
    KeyThere(was, i, row);
    EntriesAscend(was.trees[i], was.indexes[i].root);
  }

  // When every index has had its turn the database is consistent again.
  lemma HalfwayEnd(was: World, now: World, t: Word64, row: Row<Tuple>, done: seq<Word64>)
    requires Halfway(was, now, t, row, done) && forall i | i in was.indexes :: i in done
    ensures WorldOk(now)
    ensures OneMore(RowsOf(was, t), RowsOf(now, t), row)
    ensures forall u | u in was.tables && u != t :: RowsOf(now, u) == RowsOf(was, u)
  {
    hide Inserted, OneMore, HeapFile, Rows, TreeFile, FileEntries, EntryOk, HasKey, Matches, Agrees;
    forall u | u in now.tables ensures HeapFile(now.heaps[u], now.tables[u].schema) {
      assert u != t ==> HeapFile(was.heaps[u], was.tables[u].schema);
    }
    assert HeapsOk(now);
    OneMoreMembers(RowsOf(was, t), RowsOf(now, t), row);
    forall i | i in now.indexes ensures IndexOk(now, i) {
      assert Step(was, now, t, row, i, true);
      assert IndexOk(was, i);
      if was.indexes[i].table == t {
        AgreesGrows(OldEntries(was, i), RowsOf(was, t), RowsOf(now, t), row, was.indexes[i].column);
      }
    }
  }

  // A tuple that repeats no indexed value has a new key in every index.
  lemma NewKey(w: World, t: Word64, tuple: Tuple, i: Word64)
    requires WorldOk(w) && t in w.tables && Matches(w.tables[t].schema, tuple)
    requires i in w.indexes && w.indexes[i].table == t
    ensures MetaOk(w, i) && TreeOk(w, i) && w.indexes[i].column < |tuple| && tuple[w.indexes[i].column].IntValue?
    ensures DuplicateIn(w, i, t, tuple) <==> tuple[w.indexes[i].column].number in MapOf(EntriesOf(w, i))
  {
    hide HeapFile, Rows, TreeFile, FileEntries, EntryOk, Agrees, MapOf;
    assert IndexOk(w, i);
    EntriesAscend(w.trees[i], w.indexes[i].root);
    AgreesAsMap(EntriesOf(w, i), RowsOf(w, t), w.indexes[i].column);
  }

  // A database with one more row in table t: the other tables and all index
  // metadata but the root pages are as before, and every index still agrees.
  ghost predicate RowAdded(was: World, now: World, t: Word64, row: Row<Tuple>) {
    && WorldOk(was) && WorldOk(now) && t in was.tables && now.tables == was.tables
    && OneMore(RowsOf(was, t), RowsOf(now, t), row)
    && (forall u | u in was.tables && u != t :: RowsOf(now, u) == RowsOf(was, u))
    && now.indexes.Keys == was.indexes.Keys
    && (forall i | i in was.indexes :: SameButRoot(now.indexes[i], was.indexes[i]))
  }

  lemma HalfwayAdded(was: World, now: World, t: Word64, row: Row<Tuple>, done: seq<Word64>)
    requires Halfway(was, now, t, row, done) && forall i | i in was.indexes :: i in done
    ensures RowAdded(was, now, t, row)
  {
    HalfwayEnd(was, now, t, row, done);
    hide WorldOk, RowsOf, OneMore, TreeOk, EntriesOf, OldEntries, Matches, HeapFile;
    forall i | i in was.indexes ensures SameButRoot(now.indexes[i], was.indexes[i]) {
      assert Step(was, now, t, row, i, i in done);
    }
  }

  lemma HeapInserted(was: World, now: World, t: Word64, row: Row<Tuple>)
    requires WorldOk(was) && t in was.tables && Matches(was.tables[t].schema, row.value)
    requires t in now.heaps && now == was.(heaps := was.heaps[t := now.heaps[t]])
    requires HeapFile(now.heaps[t], was.tables[t].schema) && t in was.heaps && HeapFile(was.heaps[t], was.tables[t].schema)
    requires OneMore(Rows(was.heaps[t], was.tables[t].schema), Rows(now.heaps[t], was.tables[t].schema), row)
    ensures Halfway(was, now, t, row, [])
  {
    hide HeapFile, OneMore, Rows, IndexOk, Matches;
    HalfwayStart(was, now, t, row);
  }

  lemma HalfwayKeys(was: World, now: World, t: Word64, row: Row<Tuple>, done: seq<Word64>)
    requires Halfway(was, now, t, row, done)
    ensures now.indexes.Keys == was.indexes.Keys
    ensures WorldOk(was) && HeapsOk(was) && t in was.tables && Matches(was.tables[t].schema, row.value)
    ensures forall i | i in was.indexes :: was.indexes[i].table == now.indexes[i].table && was.indexes[i].column == now.indexes[i].column
  {
    hide IndexOk, HeapFile, OneMore, Rows, TreeOk, EntriesOf, OldEntries, Matches;
    forall i | i in was.indexes
      ensures was.indexes[i].table == now.indexes[i].table && was.indexes[i].column == now.indexes[i].column
    {
      assert Step(was, now, t, row, i, i in done);
    }
  }

  // An index whose turn it is does not have the key yet.
  lemma ReadyForKey(was: World, now: World, t: Word64, row: Row<Tuple>, done: seq<Word64>, i: Word64)
    requires Halfway(was, now, t, row, done) && i in was.indexes && i !in done && was.indexes[i].table == t
    requires WorldOk(was) && HeapsOk(was) && t in was.tables && !Duplicate(was, t, row.value)
    ensures i in now.indexes && now.indexes[i] == was.indexes[i] && TreeOk(now, i) && HasKey(row, was.indexes[i].column)
    ensures EntryFor(row, was.indexes[i].column).key !in MapOf(EntriesOf(now, i))
  {
    hide WorldOk, HeapsOk, TreeOk, EntriesOf, DuplicateIn, MapOf, Agrees, Ascending, Matches;
    HalfwayKeys(was, now, t, row, done);
    HalfwayFacts(was, now, t, row, done, i);
    NewKey(was, t, row.value, i);
  }

  lemma RowAddedFacts(was: World, now: World, t: Word64, row: Row<Tuple>)
    requires RowAdded(was, now, t, row)
    ensures WorldOk(now) && now.tables == was.tables
  {
  }

  // ---- a new index ----

  // No two rows share a value in the column.
  ghost predicate UniqueColumn(rows: seq<Row<Tuple>>, column: nat) {
    forall i, j | 0 <= i < j < |rows| && HasKey(rows[i], column) && HasKey(rows[j], column) ::
      rows[i].value[column] != rows[j].value[column]
  }

  // The first rows of a scan are indexed; whether the next one may be.
  lemma NextRow(entries: seq<Entry>, rows: seq<Row<Tuple>>, column: nat, k: nat)
    requires k < |rows| && Ascending(entries) && Agrees(entries, rows[..k], column) && HasKey(rows[k], column)
    ensures EntryFor(rows[k], column).key in MapOf(entries) ==> !UniqueColumn(rows, column)
    ensures EntryFor(rows[k], column).key !in MapOf(entries) && UniqueColumn(rows[..k], column) ==>
      UniqueColumn(rows[..k + 1], column)
    ensures Agrees(Inserted(entries, EntryFor(rows[k], column)), rows[..k + 1], column)
  {
    hide Inserted, MapOf, Agrees, Ascending;
    var before, key := rows[..k], EntryFor(rows[k], column).key;
    AgreesAsMap(entries, before, column);
    assert rows[..k + 1] == before + [rows[k]];
    AgreesGrows(entries, before, rows[..k + 1], rows[k], column);
    if key in MapOf(entries) {
      var r :| r in before && column < |r.value| && r.value[column] == IntValue(key);
      var i :| 0 <= i < k && before[i] == r;
      assert rows[i] == r && HasKey(r, column);
    } else {
      forall i | 0 <= i < k && HasKey(rows[i], column) ensures rows[i].value[column] != IntValue(key) {
        assert before[i] == rows[i] && rows[i] in before;
      }
      if UniqueColumn(before, column) {
        assert forall i | 0 <= i < k :: before[i] == rows[i];
      }
    }
  }

  lemma RowIdsValid(view: seq<Page>, schema: Schema)
    requires HeapFile(view, schema) && |view| < INVALID_ID
    ensures forall r | r in Rows(view, schema) :: RidValid(r.rid)
  {
    hide DecodeOnto, CellsBetween, DecodeRecord, PageOk;
    var rows, s := Rows(view, schema), ShelvesOf(view, Heap);
    var cells := Cells(s);
    DecodedRows(cells, Decoder(schema));
    forall r | r in rows ensures RidValid(r.rid) {
      var i :| 0 <= i < |rows| && rows[i] == r;
      CellsExact(s, 0, |s|, cells[i]);
      ReadableAt(view, Heap, r.rid.page);
    }
  }

  lemma RowsHaveKeys(view: seq<Page>, schema: Schema, column: nat)
    requires HeapFile(view, schema) && column < |schema| && schema[column].kind == IntType
    ensures forall r | r in Rows(view, schema) :: HasKey(r, column)
  {
    hide HeapFile, Rows;
    RowsMatch(view, schema);
  }

  ghost function WithIndex(w: World, e: IndexEntry, view: seq<Page>): World {
    w.(indexes := w.indexes[e.id := e], trees := w.trees[e.id := view])
  }

  lemma IndexCreated(w: World, e: IndexEntry, view: seq<Page>)
    requires WorldOk(w) && e.id !in w.indexes && EntryOk(e) && HeapsOk(w)
    requires e.table in w.tables && e.column < |w.tables[e.table].schema|
    requires w.tables[e.table].schema[e.column].kind == IntType
    requires TreeFile(view, e.root) && Agrees(FileEntries(view, e.root), RowsOf(w, e.table), e.column)
    ensures WorldOk(WithIndex(w, e, view))
    ensures forall t | t in w.tables :: RowsOf(WithIndex(w, e, view), t) == RowsOf(w, t)
  {
    hide HeapFile, Rows, TreeFile, FileEntries, EntryOk, Agrees;
    var now := WithIndex(w, e, view);
    forall i | i in now.indexes ensures IndexOk(now, i) {
      if i != e.id {
        assert IndexOk(w, i);
      }
    }
  }

  // ---- a new table ----

  // The tables as a list in which no id comes twice.
  ghost predicate Logged(log: seq<Table>, tables: map<Word64, Table>) {
    && (forall i, j | 0 <= i < j < |log| :: log[i].id != log[j].id)
    && (forall id | id in tables :: tables[id].id == id)
    && (forall t :: t in log <==> t.id in tables && tables[t.id] == t)
  }

  lemma LoggedMore(log: seq<Table>, tables: map<Word64, Table>, t: Table)
    requires Logged(log, tables) && t.id !in tables
    ensures Logged(log + [t], tables[t.id := t])
  {
    var after := tables[t.id := t];
    forall x ensures x in log + [t] <==> x.id in after && after[x.id] == x {
      assert x in log ==> x.id != t.id;
    }
    forall i | 0 <= i < |log| ensures log[i].id != t.id {
      assert log[i] in log;
    }
  }

  ghost function WithTable(w: World, t: Table, view: seq<Page>): World {
    w.(tables := w.tables[t.id := t], heaps := w.heaps[t.id := view])
  }

  lemma EmptyTable(schema: Schema)
    ensures HeapFile([], schema) && Rows([], schema) == []
  {
    hide DecodeRecord;
    assert Cells(ShelvesOf([], Heap)) == [];
  }

  lemma TableCreated(w: World, t: Table)
    requires WorldOk(w) && HeapsOk(w) && t.id !in w.tables
    ensures WorldOk(WithTable(w, t, [])) && RowsOf(WithTable(w, t, []), t.id) == []
    ensures forall u | u in w.tables :: RowsOf(WithTable(w, t, []), u) == RowsOf(w, u)
  {
    hide HeapFile, Rows, TreeFile, FileEntries, EntryOk, Agrees;
    EmptyTable(t.schema);
    var now := WithTable(w, t, []);
    forall i | i in now.indexes ensures IndexOk(now, i) {
      assert IndexOk(w, i);
    }
  }

  // ---- point lookups ----

  // Whether an index is available for a column, and the row it finds.
  datatype IndexLookup = IndexLookup(available: bool, tuple: Option<Tuple>)

  ghost predicate ColumnIndexed(w: World, t: Word64, column: nat) {
    exists i :: i in w.indexes && w.indexes[i].table == t && w.indexes[i].column == column
  }

  // No row has the key, or exactly one has and it is this one.
  ghost predicate Finds(rows: seq<Row<Tuple>>, column: nat, key: Int64, found: Option<Tuple>) {
    match found
    case None => !Taken(rows, column, IntValue(key))
    case Some(tuple) =>
      exists k :: 0 <= k < |rows| && rows[k].value == tuple && OnlyRow(rows, column, key, k)
  }

  ghost predicate OnlyRow(rows: seq<Row<Tuple>>, column: nat, key: Int64, k: nat)
    requires k < |rows|
  {
    forall j | 0 <= j < |rows| && column < |rows[j].value| :: rows[j].value[column] == IntValue(key) <==> j == k
  }

  lemma NotFoundMeans(w: World, i: Word64, key: Int64)
    requires WorldOk(w) && HeapsOk(w) && i in w.indexes
    ensures TreeOk(w, i) && w.indexes[i].table in w.tables
    ensures key !in MapOf(EntriesOf(w, i)) ==> Finds(RowsOf(w, w.indexes[i].table), w.indexes[i].column, key, None)
  {
    hide HeapFile, Rows, TreeFile, FileEntries, EntryOk, Agrees, MapOf;
    assert IndexOk(w, i);
    EntriesAscend(w.trees[i], w.indexes[i].root);
    AgreesAsMap(EntriesOf(w, i), RowsOf(w, w.indexes[i].table), w.indexes[i].column);
  }

  lemma SameIdSamePlace(rows: seq<Row<Tuple>>, i: nat, j: nat)
    requires i < |rows| && j < |rows| && rows[i].rid == rows[j].rid
    requires forall i, j | 0 <= i < j < |rows| :: Before(rows[i].rid, rows[j].rid)
    ensures i == j
  {
  }

  lemma KeyGivesId(rows: seq<Row<Tuple>>, column: nat, key: Int64, entries: seq<Entry>, r: Row<Tuple>)
    requires Agrees(entries, rows, column) && Ascending(entries) && key in MapOf(entries)
    requires r in rows && column < |r.value| && r.value[column] == IntValue(key)
    ensures r.rid == MapOf(entries)[key]
  {
    hide Agrees, Ascending, MapOf;
    AgreesAsMap(entries, rows, column);
    assert EntryFor(r, column).key == key;
  }

  lemma RowAt(rows: seq<Row<Tuple>>, rid: Rid, tuple: Tuple, column: nat, key: Int64, entries: seq<Entry>)
    requires Agrees(entries, rows, column) && Ascending(entries) && Row(rid, tuple) in rows
    requires key in MapOf(entries) && MapOf(entries)[key] == rid
    requires forall i, j | 0 <= i < j < |rows| :: Before(rows[i].rid, rows[j].rid)
    ensures Finds(rows, column, key, Some(tuple))
  {
    hide Agrees, Ascending, MapOf, Before;
    AgreesAsMap(entries, rows, column);
    var k :| 0 <= k < |rows| && rows[k] == Row(rid, tuple);
    var r :| r in rows && column < |r.value| && r.value[column] == IntValue(key);
    KeyGivesId(rows, column, key, entries, r);
    var m :| 0 <= m < |rows| && rows[m] == r;
    SameIdSamePlace(rows, m, k);
    forall j | 0 <= j < |rows| && column < |rows[j].value|
      ensures rows[j].value[column] == IntValue(key) <==> j == k
    {
      assert rows[j] in rows;
      if rows[j].value[column] == IntValue(key) {
        KeyGivesId(rows, column, key, entries, rows[j]);
        SameIdSamePlace(rows, j, k);
      }
    }
    assert OnlyRow(rows, column, key, k);
  }

  // The row that an index points to is there.
  lemma FoundMeans(w: World, i: Word64, key: Int64)
    requires WorldOk(w) && HeapsOk(w) && i in w.indexes
    ensures TreeOk(w, i) && w.indexes[i].table in w.tables
    ensures key in MapOf(EntriesOf(w, i)) ==>
      var rid, rows := MapOf(EntriesOf(w, i))[key], RowsOf(w, w.indexes[i].table);
      && (exists tuple :: Row(rid, tuple) in rows)
      && forall tuple | Row(rid, tuple) in rows :: Finds(rows, w.indexes[i].column, key, Some(tuple))
  {
    hide HeapFile, Rows, TreeFile, FileEntries, EntryOk, MapOf, Finds;
    assert IndexOk(w, i);
    var t := w.indexes[i].table;
    var entries, rows := EntriesOf(w, i), RowsOf(w, t);
    EntriesAscend(w.trees[i], w.indexes[i].root);
    AgreesAsMap(entries, rows, w.indexes[i].column);
    RowsOrdered(w.heaps[t], w.tables[t].schema);
    if key in MapOf(entries) {
      var rid := MapOf(entries)[key];
      MapExact(entries);
      assert Entry(key, rid) in entries;
      var r :| r in rows && HasKey(r, w.indexes[i].column) && EntryFor(r, w.indexes[i].column) == Entry(key, rid);
      assert Row(rid, r.value) == r;
      forall tuple | Row(rid, tuple) in rows ensures Finds(rows, w.indexes[i].column, key, Some(tuple)) {
        RowAt(rows, rid, tuple, w.indexes[i].column, key, entries);
      }
    }
  }

  lemma RowsOrdered(view: seq<Page>, schema: Schema)
    requires HeapFile(view, schema)
    ensures var rows := Rows(view, schema);
      forall i, j | 0 <= i < j < |rows| :: Before(rows[i].rid, rows[j].rid)
  {
    hide DecodeRecord, DecodeOnto;
    RowsAscend(ShelvesOf(view, Heap), schema);
  }
}
