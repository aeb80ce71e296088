// Statement execution over the persistent storage.
module Executor {
  import opened Results
  import opened ByteCodec
  import opened Pages
  import opened BufferPool
  import opened TreeModel
  import opened RecordFiles
  import opened RecordCodec
  import opened TableHeaps
  import opened IndexCodec
  import opened IndexFiles
  import opened IndexCatalogs
  import Catalogs
  import TableCatalogs
  import opened IndexedTables
  import opened Storage
  import opened Reopening
  import opened Planner

  datatype ResultKind = TableCreated | IndexCreated | RowInserted | RowsSelected

  datatype QueryResult = QueryResult(kind: ResultKind, columns: Schema, rows: seq<Tuple>, affected: nat)

  // A selection that the binder has resolved.
  ghost predicate SelectBound(w: World, t: Word64, projections: seq<Word64>, filter: Option<Comparison>) {
    && HeapsOk(w) && t in w.tables && Inside(projections, |w.tables[t].schema|)
    && (filter.Some? ==> filter.value.column < |w.tables[t].schema|)
  }

  // The result of a selection: the projected rows that match, in heap order.
  ghost function SelectResult(w: World, t: Word64, projections: seq<Word64>, filter: Option<Comparison>): QueryResult
    requires SelectBound(w, t, projections, filter)
  {
    RowsWide(w, t);
    var schema := w.tables[t].schema;
    QueryResult(RowsSelected, Columns(schema, projections),
      Selected(Values(RowsOf(w, t)), |schema|, projections, filter), 0)
  }

  // What the binder guarantees of a statement.
  ghost predicate Bound(w: World, s: Statement) {
    match s
    case CreateTable(_, _) => true
    case CreateIndex(_, t, column) =>
      HeapsOk(w) && t in w.tables && column < |w.tables[t].schema| && w.tables[t].schema[column].kind == IntType
    case Insert(t, values) => HeapsOk(w) && t in w.tables && Matches(w.tables[t].schema, values)
    case Select(t, projections, filter) => SelectBound(w, t, projections, filter)
  }

  // What the statement stores fits a page.
  ghost predicate Fits(w: World, s: Statement)
    requires Bound(w, s)
  {
    match s
    case CreateTable(name, schema) => TableCatalogs.TableFits(Catalogs.NormalizeIdentifier(name), schema)
    case CreateIndex(name, _, _) => NameFits(Catalogs.NormalizeIdentifier(name))
    case Insert(t, values) => Storable(w.tables[t].schema, values)
    case Select(_, _, _) => true
  }

  ghost predicate TableNamed(w: World, name: seq<Byte>) {
    exists t :: t in w.tables && w.tables[t].name == name
  }

  ghost predicate IndexNamed(w: World, name: seq<Byte>) {
    exists i :: i in w.indexes && w.indexes[i].name == name
  }

  // Why a statement must be refused, if it must.
  ghost function Refusal(w: World, s: Statement): Option<Error>
    requires Bound(w, s)
  {
    match s
    case CreateTable(rawName, schema) =>
      var name := Catalogs.NormalizeIdentifier(rawName);
      if name == [] || schema == [] then Some(InvalidArgument)
      else if TableNamed(w, name) then Some(AlreadyExists)
      else None
    case CreateIndex(rawName, t, column) =>
      var name := Catalogs.NormalizeIdentifier(rawName);
      if name == [] then Some(InvalidArgument)
      else if IndexNamed(w, name) || ColumnIndexed(w, t, column) || !UniqueColumn(RowsOf(w, t), column) then
        Some(AlreadyExists)
      else None
    case Insert(t, values) => if Duplicate(w, t, values) then Some(AlreadyExists) else None
    case Select(_, _, _) => None
  }

  // What a statement that succeeds answers and changes.
  ghost predicate Effect(was: World, s: Statement, result: QueryResult, now: World)
    requires Bound(was, s)
  {
    match s
    case CreateTable(name, schema) =>
      && result == QueryResult(TableCreated, [], [], 0)
      && exists id :: id !in was.tables
           && now == WithTable(was, Catalogs.Table(id, Catalogs.NormalizeIdentifier(name), schema), [])
    case CreateIndex(name, t, column) =>
      && result == QueryResult(IndexCreated, [], [], 0)
      && exists index: IndexEntry, view: seq<Page> ::
           && index.id !in was.indexes && index.table == t && index.column == column
           && index.name == Catalogs.NormalizeIdentifier(name) && now == WithIndex(was, index, view)
    case Insert(t, values) =>
      && result == QueryResult(RowInserted, [], [], 1)
      && exists rid :: RowAdded(was, now, t, Row(rid, values))
    case Select(t, projections, filter) =>
      && result == SelectResult(was, t, projections, filter) && now == was
      && Selection(was, t, projections, filter, result)
  }

  lemma InsertMeans(w: World, t: Word64, values: Tuple)
    requires Bound(w, Insert(t, values))
    ensures HeapsOk(w) && t in w.tables
    ensures Refusal(w, Insert(t, values)) == (if Duplicate(w, t, values) then Some(AlreadyExists) else None)
    ensures Fits(w, Insert(t, values)) <==> Storable(w.tables[t].schema, values)
  {
    hide Duplicate, Storable, HeapsOk, Matches;
  }

  lemma CreateTableMeans(w: World, name: seq<Byte>, schema: Schema)
    ensures Bound(w, CreateTable(name, schema))
    ensures Fits(w, CreateTable(name, schema)) <==> TableCatalogs.TableFits(Catalogs.NormalizeIdentifier(name), schema)
    ensures var id := Catalogs.NormalizeIdentifier(name);
      Refusal(w, CreateTable(name, schema)) ==
        if id == [] || schema == [] then Some(InvalidArgument)
        else if exists t :: t in w.tables && w.tables[t].name == id then Some(AlreadyExists)
        else None
  {
    hide Catalogs.NormalizeIdentifier, TableCatalogs.TableFits;
  }

  lemma TableCreatedEffect(was: World, now: World, name: seq<Byte>, schema: Schema, t: Catalogs.Table)
    requires t == Catalogs.Table(t.id, Catalogs.NormalizeIdentifier(name), schema) && t.id !in was.tables
    requires now == WithTable(was, t, [])
    ensures Effect(was, CreateTable(name, schema), QueryResult(TableCreated, [], [], 0), now)
  {
    hide Catalogs.NormalizeIdentifier;
  }

  lemma WithIndexParts(w: World, e: IndexEntry, view: seq<Page>)
    ensures var now := WithIndex(w, e, view);
      now.indexes == w.indexes[e.id := e] && e.id in now.trees && now.trees[e.id] == view
  {
  }

  lemma RefusedIndexStill(rows: seq<Row<Tuple>>, column: nat, name: seq<Byte>, was: seq<Page>, now: seq<Page>,
                          e: Error, exhausted: bool, valid: bool, valid': bool)
    requires IndexRefused(rows, column, name, was, now, e, exhausted, valid) && (valid ==> valid')
    ensures IndexRefused(rows, column, name, was, now, e, exhausted, valid')
  {
    hide UniqueColumn, NameFits, NameDamages, Spoiled;
  }

  lemma SelectMeans(w: World, s: Statement)
    ensures s.Select? ==> (Bound(w, s) <==> SelectBound(w, s.table, s.projections, s.filter))
  {
    hide SelectBound;
  }

  lemma BoundIndex(w: World, name: seq<Byte>, t: Word64, column: Word64)
    ensures Bound(w, CreateIndex(name, t, column)) <==>
      HeapsOk(w) && t in w.tables && column < |w.tables[t].schema| && w.tables[t].schema[column].kind == IntType
  {
    hide HeapsOk;
  }

  lemma CreateIndexMeans(w: World, name: seq<Byte>, t: Word64, column: Word64)
    requires Bound(w, CreateIndex(name, t, column))
    ensures HeapsOk(w) && t in w.tables
    ensures Fits(w, CreateIndex(name, t, column)) <==> NameFits(Catalogs.NormalizeIdentifier(name))
    ensures var id := Catalogs.NormalizeIdentifier(name);
      Refusal(w, CreateIndex(name, t, column)).None? <==>
        && id != [] && !IndexNamed(w, id) && !ColumnIndexed(w, t, column)
        && UniqueColumn(RowsOf(w, t), column)
  {
    hide HeapsOk, RowsOf, UniqueColumn, ColumnIndexed, IndexNamed, NameFits, Catalogs.NormalizeIdentifier;
  }

  lemma IndexCreatedEffect(was: World, now: World, name: seq<Byte>, e: IndexEntry, view: seq<Page>)
    requires Bound(was, CreateIndex(name, e.table, e.column)) && e.id !in was.indexes
    requires e.name == Catalogs.NormalizeIdentifier(name) && now == WithIndex(was, e, view)
    ensures Effect(was, CreateIndex(name, e.table, e.column), QueryResult(IndexCreated, [], [], 0), now)
  {
    hide HeapsOk, Catalogs.NormalizeIdentifier;
  }

  lemma RefusedStill(name: seq<Byte>, schema: Schema, was: seq<Page>, now: seq<Page>, e: Error, exhausted: bool,
                     valid: bool, valid': bool)
    requires TableRefused(name, schema, was, now, e, exhausted, valid) && (valid ==> valid')
    ensures TableRefused(name, schema, was, now, e, exhausted, valid')
  {
    hide TableCatalogs.TableFits, MetadataDamages, Spoiled;
  }

  lemma BoundInsert(w: World, t: Word64, values: Tuple)
    ensures Bound(w, Insert(t, values)) <==> HeapsOk(w) && t in w.tables && Matches(w.tables[t].schema, values)
  {
    hide HeapsOk, Matches;
  }

  lemma RowInsertedEffect(was: World, now: World, t: Word64, row: Row<Tuple>)
    requires Bound(was, Insert(t, row.value)) && RowAdded(was, now, t, row)
    ensures Effect(was, Insert(t, row.value), QueryResult(RowInserted, [], [], 1), now)
  {
    hide RowAdded, HeapsOk, Matches;
    assert row == Row(row.rid, row.value);
  }

  // ---- runs ----

  // The statements of a run with their results, and the databases between them. A
  // statement that fails leaves the database alone.
  ghost predicate Run(ws: seq<World>, ss: seq<Statement>, rs: seq<Result<QueryResult>>) {
    && |ws| == |ss| + 1 && |rs| == |ss|
    && (forall i | 0 <= i < |ws| :: HeapsOk(ws[i]))
    && forall i | 0 <= i < |ss| :: Bound(ws[i], ss[i]) && Leads(ws[i], ss[i], rs[i], ws[i + 1])
  }

  ghost predicate Leads(was: World, s: Statement, r: Result<QueryResult>, now: World)
    requires Bound(was, s)
  {
    if r.Ok? then Effect(was, s, r.value, now) else now == was
  }

  // The tuples that statements insert into a table.
  function InsertedInto(ss: seq<Statement>, rs: seq<Result<QueryResult>>, t: Word64): seq<Tuple>
    requires |rs| == |ss|
  {
    if ss == [] then []
    else
      var n := |ss| - 1;
      InsertedInto(ss[..n], rs[..n], t) +
      (if rs[n].Ok? && ss[n].Insert? && ss[n].table == t then [ss[n].values] else [])
  }

  // One statement keeps every row of a table under its id, and adds to the
  // table what it inserts there.
  lemma EffectConserves(was: World, s: Statement, result: QueryResult, now: World, t: Word64)
    requires HeapsOk(was) && HeapsOk(now) && Bound(was, s) && Effect(was, s, result, now) && t in was.tables
    ensures t in now.tables && now.tables[t] == was.tables[t]
    ensures forall r | r in RowsOf(was, t) :: r in RowsOf(now, t)
    ensures multiset(Values(RowsOf(now, t))) ==
      multiset(Values(RowsOf(was, t))) + (if s.Insert? && s.table == t then multiset{s.values} else multiset{})
  {
    hide HeapFile, Rows, Values, Matches, WorldOk, SelectBound, Catalogs.NormalizeIdentifier, OneMore;
    if s.Insert? {
      var rid :| RowAdded(was, now, s.table, Row(rid, s.values));
      if s.table == t {
        OneMoreMembers(RowsOf(was, t), RowsOf(now, t), Row(rid, s.values));
        ValuesOneMore(RowsOf(was, t), RowsOf(now, t), Row(rid, s.values));
      }
    }
  }

  // A run loses no row and invents none: a table ends up with its first rows and
  // what was inserted into it, and every row keeps its id.
  lemma {:induction false} RunConserves(ws: seq<World>, ss: seq<Statement>, rs: seq<Result<QueryResult>>, t: Word64)
    requires Run(ws, ss, rs) && t in ws[0].tables
    ensures t in ws[|ss|].tables && ws[|ss|].tables[t] == ws[0].tables[t]
    ensures forall r | r in RowsOf(ws[0], t) :: r in RowsOf(ws[|ss|], t)
    ensures multiset(Values(RowsOf(ws[|ss|], t))) ==
      multiset(Values(RowsOf(ws[0], t))) + multiset(InsertedInto(ss, rs, t))
    decreases |ss|
  {
    hide HeapsOk, Effect, Bound, RowsOf, Values;
    if ss != [] {
      var n := |ss| - 1;
      RunConserves(ws[..n + 1], ss[..n], rs[..n], t);
      if rs[n].Ok? {
        EffectConserves(ws[n], ss[n], rs[n].value, ws[n + 1], t);
      }
    }
  }

  // What a selection answers, said of the rows of the table.
  ghost predicate Selection(w: World, t: Word64, projections: seq<Word64>, filter: Option<Comparison>, r: QueryResult)
    requires HeapsOk(w) && t in w.tables
  {
    && r.kind == RowsSelected && r.affected == 0 && |r.columns| == |projections|
    && (forall i | 0 <= i < |projections| ::
          projections[i] < |w.tables[t].schema| && r.columns[i] == w.tables[t].schema[projections[i]])
    && exists ks :: Answers(r.rows, Values(RowsOf(w, t)), projections, filter, ks)
  }

  lemma ResultIsSelection(w: World, t: Word64, projections: seq<Word64>, filter: Option<Comparison>)
    requires SelectBound(w, t, projections, filter)
    ensures Selection(w, t, projections, filter, SelectResult(w, t, projections, filter))
  {
    hide HeapsOk, RowsOf, Answers, Selected;
    RowsWide(w, t);
    var _ := SelectedAnswers(Values(RowsOf(w, t)), |w.tables[t].schema|, projections, filter);
  }

  // Every row of a table is as wide as its schema.
  lemma RowsWide(w: World, t: Word64)
    requires HeapsOk(w) && t in w.tables
    ensures AllWide(Values(RowsOf(w, t)), |w.tables[t].schema|)
  {
    hide HeapFile, Rows;
    RowsMatch(w.heaps[t], w.tables[t].schema);
    var rows := RowsOf(w, t);
    forall i | 0 <= i < |rows| ensures |Values(rows)[i]| == |w.tables[t].schema| {
      assert rows[i] in rows;
    }
  }

  // A lookup that finds what the index promises gives the selected rows.
  lemma LookupSelects(w: World, t: Word64, projections: seq<Word64>, c: Comparison, found: Option<Tuple>)
    requires SelectBound(w, t, projections, Some(c)) && c.literal.IntValue?
    requires Finds(RowsOf(w, t), c.column, c.literal.number, found)
    ensures found.Some? ==>
      && |found.value| == |w.tables[t].schema| && Keeps(found.value, Some(c))
    ensures SelectResult(w, t, projections, Some(c)) ==
      QueryResult(RowsSelected, Columns(w.tables[t].schema, projections),
        if found.Some? then [Project(found.value, projections)] else [], 0)
  {
    hide Rows, HeapFile, Selected;
    RowsWide(w, t);
    var rows, key := RowsOf(w, t), c.literal.number;
    var values, width := Values(rows), |w.tables[t].schema|;
    match found
    case None =>
      forall j | 0 <= j < |values| ensures !Keeps(values[j], Some(c)) {
        assert rows[j] in rows;
      }
      SelectedAtMostOne(values, width, projections, Some(c), -1);
    case Some(tuple) =>
      var k :| 0 <= k < |rows| && rows[k].value == tuple && OnlyRow(rows, c.column, key, k);
      forall j | 0 <= j < |values| ensures Keeps(values[j], Some(c)) <==> j == k {
        assert values[j] == rows[j].value && |values[j]| == width;
      }
      assert values[k] == tuple;
      SelectedAtMostOne(values, width, projections, Some(c), k);
  }

  method ProjectTuple(tuple: Tuple, projections: seq<Word64>) returns (r: Tuple)
    requires Inside(projections, |tuple|)
    ensures r == Project(tuple, projections)
  {
    r := [];
    for i := 0 to |projections|
      invariant r == Project(tuple, projections)[..i]
    {
      r := r + [tuple[projections[i]]];
    }
  }

  method ProjectSchema(schema: Schema, projections: seq<Word64>) returns (r: Schema)
    requires Inside(projections, |schema|)
    ensures r == Columns(schema, projections)
  {
    r := [];
    for i := 0 to |projections|
      invariant r == Columns(schema, projections)[..i]
    {
      r := r + [schema[projections[i]]];
    }
  }

  // The filtering loop of a sequential scan: its rows are the answer.
  method FilterRows(tuples: seq<Tuple>, width: nat, projections: seq<Word64>, filter: Option<Comparison>)
    returns (rows: seq<Tuple>)
    requires AllWide(tuples, width) && Inside(projections, width)
    requires filter.Some? ==> filter.value.column < width
    ensures rows == Selected(tuples, width, projections, filter)
    ensures exists ks :: Answers(rows, tuples, projections, filter, ks)
  {
    rows := [];
    for i := 0 to |tuples|
      invariant rows == Selected(tuples[..i], width, projections, filter)
    {
      assert tuples[..i + 1][..i] == tuples[..i];
      if filter.Some? && tuples[i][filter.value.column] != filter.value.literal {
        continue;
      }
      var projected := ProjectTuple(tuples[i], projections);
      rows := rows + [projected];
    }
    assert tuples[..|tuples|] == tuples;
    ghost var _ := SelectedAnswers(tuples, width, projections, filter);
  }

  // The result of a sequential scan over the given rows.
  method SelectFrom(schema: Schema, tuples: seq<Tuple>, projections: seq<Word64>, filter: Option<Comparison>)
    returns (r: QueryResult)
    requires AllWide(tuples, |schema|) && Inside(projections, |schema|)
    requires filter.Some? ==> filter.value.column < |schema|
    ensures r == QueryResult(RowsSelected, Columns(schema, projections),
      Selected(tuples, |schema|, projections, filter), 0)
  {
    var columns := ProjectSchema(schema, projections);
    var rows := FilterRows(tuples, |schema|, projections, filter);
    return QueryResult(RowsSelected, columns, rows, 0);
  }

  // The result of an index lookup; a row with another key is an error.
  method SelectFound(schema: Schema, found: Option<Tuple>, projections: seq<Word64>, c: Comparison)
    returns (r: Result<QueryResult>)
    requires Inside(projections, |schema|) && (found.Some? ==> |found.value| == |schema| && c.column < |schema|)
    ensures r == if found.Some? && !Keeps(found.value, Some(c)) then Err(Corruption)
      else Ok(QueryResult(RowsSelected, Columns(schema, projections),
        if found.Some? then [Project(found.value, projections)] else [], 0))
  {
    var columns := ProjectSchema(schema, projections);
    var rows: seq<Tuple> := [];
    if found.Some? {
      var tuple := found.value;
      if tuple[c.column] != c.literal {
        return Err(Corruption);
      }
      var projected := ProjectTuple(tuple, projections);
      rows := rows + [projected];
      assert rows == [projected] && Keeps(tuple, Some(c));
    }
    return Ok(QueryResult(RowsSelected, columns, rows, 0));
  }

  class Database {
    const storage: PersistentStorage

    constructor (storage: PersistentStorage)
      ensures this.storage == storage
    {
      this.storage := storage;
    }

    // The storage is valid and the catalog lists exactly what is stored.
    ghost predicate Valid()
      reads storage, storage.catalog, storage.Pools()
    {
      && storage.Valid()
      && storage.catalog.tablesById.Keys == storage.tablePages.Keys
      && storage.catalog.indexesById == storage.indexesById
    }

    ghost function Now(): World
      requires Valid()
      reads storage, storage.catalog, storage.Pools()
    {
      storage.Now()
    }

    // ---- how statements end ----

    // Ids have run out: those of the catalog, the pages of some file, or, for a
    // table with more rows than a file has pages, those of the new index.
    ghost predicate NoIds(was: World, s: Statement, e: Error)
      requires Bound(was, s)
      reads storage, storage.catalog, storage.Pools()
    {
      match s
      case CreateTable(_, _) =>
        || (e == ResourceExhausted && storage.catalog.nextTableId == INVALID_ID)
        || (e == OutOfRange && storage.Exhausted())
      case CreateIndex(_, t, _) =>
        || (e == ResourceExhausted && storage.catalog.nextIndexId == INVALID_ID)
        || (e == OutOfRange && (storage.Exhausted() || |RowsOf(was, t)| >= 0x10_0000_0000_0000))
      case Insert(_, _) => e == OutOfRange && storage.Exhausted()
      case Select(_, _, _) => false
    }

    // What the statement stores encodes, but is longer than an empty page takes,
    // and the file it is for can get one more page.
    ghost predicate Damages(s: Statement)
      requires Valid() && Bound(Now(), s)
      reads storage, storage.catalog, storage.Pools()
    {
      match s
      case CreateTable(name, schema) =>
        MetadataDamages(FileView(storage.tableCatalog.pool), Catalogs.NormalizeIdentifier(name), schema)
      case CreateIndex(name, _, _) =>
        NameDamages(FileView(storage.indexCatalog.pool), Catalogs.NormalizeIdentifier(name))
      case Insert(t, values) => IndexedTables.Damages(Now(), t, values)
      case Select(_, _, _) => false
    }

    // The one file that can no longer be read; everything else is as it was.
    ghost predicate Spoilt(was: World, s: Statement)
      reads storage, storage.catalog, storage.Pools()
    {
      && storage.Linked() && storage.Known()
      && match s
         case CreateTable(_, _) =>
           && storage.Now() == was && !Readable(FileView(storage.tableCatalog.pool), Catalog)
           && CatalogAfter(FileView(storage.indexCatalog.pool), storage.indexLog)
         case CreateIndex(_, _, _) =>
           && storage.Now() == was && !Readable(FileView(storage.indexCatalog.pool), Catalog)
           && TableCatalogs.TablesAfter(FileView(storage.tableCatalog.pool), storage.tableLog)
         case Insert(t, _) => storage.CatalogsOk() && HeapSpoiled(was, storage.Now(), t)
         case Select(_, _, _) => false
    }

    // How a statement ends. It succeeds with its effect; or it must be refused,
    // and nothing changes; or it stores what fits no page, which changes nothing
    // unless it damages a file; or ids have run out.
    twostate predicate Outcome(new s: Statement, new r: Result<QueryResult>)
      requires old(Valid()) && Bound(old(Now()), s)
      reads storage, storage.catalog, storage.Pools()
    {
      var was := old(Now());
      && (r.Ok? ==> Valid() && Effect(was, s, r.value, Now()) && Refusal(was, s).None? && Fits(was, s))
      && (Refusal(was, s).Some? ==>
            r.Err? && Valid() && Now() == was && (Some(r.error) == Refusal(was, s) || NoIds(was, s, r.error)))
      && (Refusal(was, s).None? && !Fits(was, s) ==>
            && r.Err?
            && ((Valid() && Now() == was && (old(Damages(s)) ==> !s.Insert? && NoIds(was, s, r.error)))
                || (old(Damages(s)) && r.error == ResourceExhausted && Spoilt(was, s))))
      && (Refusal(was, s).None? && Fits(was, s) && r.Err? ==>
            NoIds(was, s, r.error) && (!s.Insert? ==> Valid() && Now() == was))
    }

    // A statement hands out one id at most, and only to what it creates.
    twostate predicate CountersMove(new s: Statement)
      reads storage.catalog
    {
      && (storage.catalog.nextTableId == old(storage.catalog.nextTableId)
          || (s.CreateTable? && storage.catalog.nextTableId == old(storage.catalog.nextTableId) + 1))
      && (storage.catalog.nextIndexId == old(storage.catalog.nextIndexId)
          || (s.CreateIndex? && storage.catalog.nextIndexId == old(storage.catalog.nextIndexId) + 1))
    }

    twostate lemma Succeeded(new s: Statement, new r: Result<QueryResult>)
      requires old(Valid()) && Bound(old(Now()), s)
      requires r.Ok? && Valid() && Effect(old(Now()), s, r.value, Now())
      requires Refusal(old(Now()), s).None? && Fits(old(Now()), s)
      ensures Outcome(s, r)
    {
      hide Valid, Now, Bound, Effect, Refusal, Fits, NoIds, Damages, Spoilt;
    }

    // A failure that changes nothing.
    twostate lemma Refused(new s: Statement, new r: Result<QueryResult>)
      requires old(Valid()) && Bound(old(Now()), s)
      requires r.Err? && Valid() && Now() == old(Now())
      requires
        || Some(r.error) == Refusal(old(Now()), s) || NoIds(old(Now()), s, r.error)
        || (Refusal(old(Now()), s).None? && !Fits(old(Now()), s) && !old(Damages(s)))
      requires s.Insert? && Refusal(old(Now()), s).None? ==> !old(Damages(s))
      ensures Outcome(s, r)
    {
      hide Valid, Now, Bound, Effect, Refusal, Fits, NoIds, Damages, Spoilt;
    }

    // A failure that damages a file.
    twostate lemma Damaged(new s: Statement, new r: Result<QueryResult>)
      requires old(Valid()) && Bound(old(Now()), s) && r == Err(ResourceExhausted)
      requires Refusal(old(Now()), s).None? && !Fits(old(Now()), s) && old(Damages(s)) && Spoilt(old(Now()), s)
      ensures Outcome(s, r)
    {
      hide Valid, Now, Bound, Effect, Refusal, Fits, NoIds, Damages, Spoilt;
    }

    // An insertion that has run out of pages.
    twostate lemma RanOut(new s: Statement, new r: Result<QueryResult>)
      requires old(Valid()) && Bound(old(Now()), s) && s.Insert? && r.Err?
      requires Refusal(old(Now()), s).None? && Fits(old(Now()), s) && NoIds(old(Now()), s, r.error)
      ensures Outcome(s, r)
    {
      hide Valid, Now, Bound, Effect, Refusal, Fits, NoIds, Damages, Spoilt;
    }

    lemma Facts()
      requires Valid()
      ensures storage.Linked() && HeapsOk(Now()) && WorldOk(Now())
      ensures Now().tables == storage.catalog.tablesById && Now().indexes == storage.indexesById
    {
      hide HeapFile, TreeFile, Agrees, Logged, PersistentStorage.CatalogsOk;
    }

    lemma TableBound(t: Word64)
      requires Valid() && t in storage.catalog.tablesById
      ensures storage.Bound(storage.catalog.tablesById[t]) && storage.catalog.tablesById[t].id == t
    {
      hide WorldOk, Logged, PersistentStorage.CatalogsOk, PersistentStorage.Linked;
      storage.TablesFacts();
    }

    // What the storage's reads keep, the database keeps.
    twostate lemma StillValid()
      requires old(Valid()) && storage.Valid() && unchanged(storage)
      requires unchanged(storage.catalog`tablesById) && unchanged(storage.catalog`indexesById)
      requires storage.Now() == old(storage.Now())
      ensures Valid() && Now() == old(Now())
    {
      hide PersistentStorage.Valid;
    }

    twostate lemma Untouched()
      requires forall q | q in old(storage.Pools()) :: unchanged(q)
      requires old(Valid()) && unchanged(storage) && unchanged(storage.catalog)
      ensures Valid() && Now() == old(Now())
    {
      hide PersistentStorage.Valid, PersistentStorage.Now;
    }

    // The catalog's entry of a table, and its rows.
    method ReadTable(t: Word64) returns (r: Result<(Catalogs.Table, seq<Tuple>)>)
      requires Valid() && HeapsOk(Now()) && t in Now().tables
      modifies storage.Pools()
      ensures Valid() && Now() == old(Now())
      ensures HeapsOk(Now()) && t in Now().tables && r == Ok((Now().tables[t], Values(RowsOf(Now(), t))))
      ensures AllWide(r.value.1, |r.value.0.schema|)
    {
      hide Valid, Now, PersistentStorage.Now, PersistentStorage.Valid, PersistentStorage.Linked, WorldOk, RowsOf, HeapsOk, Values;
      Facts();
      SameNow();
      TableBound(t);
      var table := storage.catalog.FindTableById(t);
      if table.Err? {
        return Forward(table);
      }
      label L:
      var source := storage.Scan(table.value);
      StillValid@L();
      SameNow();
      if source.Err? {
        return Forward(source);
      }
      RowsWide(Now(), t);
      return Ok((table.value, source.value));
    }

    method ExecuteSequentialScan(t: Word64, projections: seq<Word64>, filter: Option<Comparison>)
      returns (r: Result<QueryResult>)
      requires Valid() && SelectBound(Now(), t, projections, filter)
      modifies storage.Pools()
      ensures Valid() && Now() == old(Now()) && r == Ok(SelectResult(Now(), t, projections, filter))
      ensures HeapsOk(Now()) && t in Now().tables && Selection(Now(), t, projections, filter, r.value)
    {
      hide Valid, Now, PersistentStorage.Valid, RowsOf, HeapsOk, Selected, Columns, AllWide;
      hide Values, WorldOk;
      var read := ReadTable(t);
      if read.Err? {
        return Forward(read);
      }
      label L:
      var result := SelectFrom(read.value.0.schema, read.value.1, projections, filter);
      Untouched@L();
      ResultIsSelection(Now(), t, projections, filter);
      return Ok(result);
    }

    method LookUp(t: Word64, c: Comparison) returns (r: Result<(Catalogs.Table, IndexLookup)>)
      requires Valid() && HeapsOk(Now()) && t in Now().tables && c.literal.IntValue?
      modifies storage.Pools()
      ensures Valid() && Now() == old(Now()) && HeapsOk(Now()) && t in Now().tables
      ensures r.Ok? && r.value.0 == Now().tables[t]
      ensures r.value.1.available ==> Finds(RowsOf(Now(), t), c.column, c.literal.number, r.value.1.tuple)
    {
      hide Valid, Now, PersistentStorage.Now, PersistentStorage.Valid, PersistentStorage.Linked, WorldOk, RowsOf, HeapsOk, Finds;
      Facts();
      SameNow();
      TableBound(t);
      var table := storage.catalog.FindTableById(t);
      if table.Err? {
        return Forward(table);
      }
      label L:
      var lookup := storage.LookupByIndex(table.value, c.column, c.literal.number);
      StillValid@L();
      SameNow();
      if lookup.Err? {
        return Forward(lookup);
      }
      return Ok((table.value, lookup.value));
    }

    // An index scan, which falls back to a sequential scan when the column has no
    // index. Its result is that of the sequential scan with the same comparison:
    // the branch for an index that returns a wrong row is never taken.
    method ExecuteIndexScan(t: Word64, projections: seq<Word64>, c: Comparison) returns (r: Result<QueryResult>)
      requires Valid() && SelectBound(Now(), t, projections, Some(c)) && c.literal.IntValue?
      modifies storage.Pools()
      ensures Valid() && Now() == old(Now()) && r == Ok(SelectResult(Now(), t, projections, Some(c)))
      ensures HeapsOk(Now()) && t in Now().tables && Selection(Now(), t, projections, Some(c), r.value)
    {
      hide Valid, Now, PersistentStorage.Valid, RowsOf, HeapsOk, Selected, Columns, AllWide;
      hide Values, WorldOk, Finds, Project, Keeps;
      var looked := LookUp(t, c);
      if looked.Err? {
        return Forward(looked);
      }
      if !looked.value.1.available {
        r := ExecuteSequentialScan(t, projections, Some(c));
        return;
      }
      LookupSelects(Now(), t, projections, c, looked.value.1.tuple);
      label L:
      r := SelectFound(looked.value.0.schema, looked.value.1.tuple, projections, c);
      Untouched@L();
      ResultIsSelection(Now(), t, projections, Some(c));
    }

    twostate lemma AfterInsert(new t: Word64, new row: Row<Tuple>)
      requires old(Valid()) && storage.Valid() && storage.InStep()
      requires unchanged(storage`tablePages) && unchanged(storage.catalog`tablesById)
      requires RowAdded(old(storage.Now()), storage.Now(), t, row)
      ensures Valid() && RowAdded(old(Now()), Now(), t, row)
    {
      hide PersistentStorage.Valid, RowAdded;
    }

    lemma SameNow()
      requires Valid()
      ensures storage.Valid() && storage.InStep() && Now() == storage.Now()
    {
      hide PersistentStorage.Valid;
    }

    // A row goes into its table and all indexes of the table, or nowhere.
    method ExecuteInsert(t: Word64, values: Tuple) returns (r: Result<QueryResult>)
      requires Valid() && Bound(Now(), Insert(t, values))
      modifies storage`indexesById, storage`indexLog, storage.catalog`indexesById, storage.Pools()
      ensures Outcome(Insert(t, values), r)
    {
      hide Valid, Now, PersistentStorage.Valid, PersistentStorage.Linked, PersistentStorage.Now, WorldOk, RowsOf, HeapsOk;
      hide RowAdded, Duplicate, Matches, Storable, Outcome, Refusal, Fits, Effect, NoIds, Damages, Spoilt, IndexedTables.Damages;
      hide PersistentStorage.CatalogsOk, HeapSpoiled, PersistentStorage.Known, PersistentStorage.Exhausted;
      Facts();
      SameNow();
      InsertMeans(Now(), t, values);
      InsertDamages(t, values);
      BoundInsert(Now(), t, values);
      TableBound(t);
      var table := storage.catalog.FindTableById(t);
      if table.Err? {
        return Forward(table);
      }
      label L:
      var rid := storage.Insert(table.value, values);
      if rid.Err? {
        InsertFailed(t, values, rid.error);
        return Forward(rid);
      }
      AfterInsert@L(t, Row(rid.value, values));
      RowInsertedEffect(old(Now()), Now(), t, Row(rid.value, values));
      r := Ok(QueryResult(RowInserted, [], [], 1));
      Succeeded(Insert(t, values), r);
    }

    lemma InsertDamages(t: Word64, values: Tuple)
      requires Valid() && Bound(Now(), Insert(t, values))
      ensures t in Now().tables && t in Now().heaps
      ensures Damages(Insert(t, values)) <==> IndexedTables.Damages(Now(), t, values)
    {
      hide Valid, Now, IndexedTables.Damages, HeapFile;
    }

    // What a failed insertion of the storage means for the database.
    twostate lemma InsertFailed(new t: Word64, new values: Tuple, new e: Error)
      requires old(Valid()) && Bound(old(Now()), Insert(t, values)) && HeapsOk(old(Now())) && t in old(Now()).tables
      requires storage.Linked()
      requires !Storable(old(Now()).tables[t].schema, values) || Duplicate(old(Now()), t, values) ==>
        unchanged(storage) && unchanged(storage.catalog)
      requires Duplicate(old(Now()), t, values) ==> e == AlreadyExists && storage.Valid() && storage.Now() == old(Now())
      requires Storable(old(Now()).tables[t].schema, values) && !Duplicate(old(Now()), t, values) ==>
        e == OutOfRange && storage.Exhausted()
      requires !Storable(old(Now()).tables[t].schema, values) && !Duplicate(old(Now()), t, values) ==>
        && storage.Known() && storage.CatalogsOk()
        && if IndexedTables.Damages(old(Now()), t, values) then
             e == ResourceExhausted && HeapSpoiled(old(Now()), storage.Now(), t)
           else
             && storage.Valid() && storage.Now() == old(Now())
             && (e == ResourceExhausted || (e == OutOfRange && storage.Exhausted()))
      ensures Outcome(Insert(t, values), Err(e))
    {
      hide Valid, PersistentStorage.Valid, PersistentStorage.Linked, PersistentStorage.Now, WorldOk, RowsOf, HeapsOk;
      hide Duplicate, Matches, Storable, Outcome, Refusal, Fits, Effect, Damages, IndexedTables.Damages;
      hide PersistentStorage.CatalogsOk, HeapSpoiled, PersistentStorage.Known, PersistentStorage.Exhausted;
      InsertMeans(old(Now()), t, values);
      var s, r := Insert(t, values), Err(e);
      InsertDamagesOld(t, values);
      if Duplicate(old(Now()), t, values) {
        StillValid();
        Refused(s, r);
      } else if Storable(old(Now()).tables[t].schema, values) {
        RanOut(s, r);
      } else if IndexedTables.Damages(old(Now()), t, values) {
        Damaged(s, r);
      } else {
        StillValid();
        Refused(s, r);
      }
    }

    twostate lemma InsertDamagesOld(new t: Word64, new values: Tuple)
      requires old(Valid()) && Bound(old(Now()), Insert(t, values))
      ensures t in old(Now()).tables && t in old(Now()).heaps
      ensures old(Damages(Insert(t, values))) <==> IndexedTables.Damages(old(Now()), t, values)
    {
      hide Valid, Now, IndexedTables.Damages, HeapFile;
    }

    // ---- new tables ----

    twostate lemma TableRegistered()
      requires forall q | q in old(storage.Pools()) :: unchanged(q)
      requires old(Valid()) && storage.catalog.Valid() && unchanged(storage) && unchanged(storage.catalog`indexesById)
      requires forall t | t in old(storage.catalog.tablesById) ::
        t in storage.catalog.tablesById && storage.catalog.tablesById[t] == old(storage.catalog.tablesById)[t]
      ensures storage.Valid() && storage.Now() == old(storage.Now())
    {
      hide PersistentStorage.Linked, PersistentStorage.CatalogsOk, WorldOk, Catalogs.TablesOk, Catalogs.IndexesOk, Logged;
      storage.CatalogChanged();
    }

    twostate lemma TableAdded(new table: Catalogs.Table)
      requires old(Valid()) && storage.Valid() && unchanged(storage`indexesById) && unchanged(storage.catalog`indexesById)
      requires storage.catalog.tablesById == old(storage.catalog.tablesById)[table.id := table]
      requires storage.tablePages.Keys == old(storage.tablePages.Keys) + {table.id}
      requires storage.Now() == WithTable(old(storage.Now()), table, [])
      ensures Valid() && Now() == WithTable(old(Now()), table, [])
    {
      hide PersistentStorage.Valid;
    }

    // A table is registered and gets an empty file, or the registration is taken
    // back.
    method ExecuteCreateTable(name: seq<Byte>, schema: Schema) returns (r: Result<QueryResult>)
      requires Valid()
      modifies storage`tablePages, storage`tableLog, storage.catalog, storage.tableCatalog.pool
      ensures Outcome(CreateTable(name, schema), r) && CountersMove(CreateTable(name, schema))
    {
      hide Valid, Now, PersistentStorage.Valid, PersistentStorage.Linked, PersistentStorage.Now, WorldOk, HeapsOk;
      hide Catalogs.TablesOk, Catalogs.IndexesOk, Catalogs.NormalizeIdentifier, TableCatalogs.TableFits;
      hide Outcome, Refusal, Fits, Effect, NoIds, Damages, Spoilt, TableRefused;
      SameNow();
      Parts();
      IndexedTablesKnown();
      CreateTableMeans(Now(), name, schema);
      ghost var known := storage.catalog.tablesById;
      var id := storage.catalog.CreateTable(name, schema);
      TableRegistered();
      if id.Err? {
        StillValid();
        TableNotRegistered(name, schema, id.error);
        return Forward(id);
      }
      var table := storage.catalog.FindTableById(id.value);
      if table.Err? {
        return Forward(table);
      }
      var status := StoreTable(table.value, known);
      if status.Err? {
        TableFailed(name, schema, status.error);
        return Forward(status);
      }
      TableAdded(table.value);
      TableCreatedEffect(old(Now()), Now(), name, schema, table.value);
      r := Ok(QueryResult(TableCreated, [], [], 0));
      Succeeded(CreateTable(name, schema), r);
    }

    // Stores a registered table, or takes the registration back.
    method StoreTable(table: Catalogs.Table, ghost known: map<Word64, Catalogs.Table>) returns (r: Result<()>)
      requires storage.Valid() && table.id !in known && storage.catalog.tablesById == known[table.id := table]
      requires storage.tablePages.Keys == known.Keys
      requires forall i | i in storage.catalog.indexesById :: storage.catalog.indexesById[i].table in known
      modifies storage`tablePages, storage`tableLog, storage.catalog, storage.tableCatalog.pool
      ensures unchanged(storage.catalog`indexesById)
      ensures unchanged(storage.catalog`nextTableId) && unchanged(storage.catalog`nextIndexId)
      ensures r.Ok? ==>
        && storage.Valid() && storage.catalog.tablesById == known[table.id := table]
        && storage.tablePages.Keys == old(storage.tablePages.Keys) + {table.id}
        && storage.Now() == WithTable(old(storage.Now()), table, []) && TableCatalogs.TableFits(table.name, table.schema)
      ensures r.Err? ==>
        && unchanged(storage) && storage.catalog.tablesById == known
        && storage.Linked() && storage.Known() && storage.Now() == old(storage.Now())
        && FileView(storage.indexCatalog.pool) == old(FileView(storage.indexCatalog.pool))
        && TableRefused(table.name, table.schema,
             old(FileView(storage.tableCatalog.pool)), FileView(storage.tableCatalog.pool),
             r.error, storage.Exhausted(), storage.Valid())
    {
      hide PersistentStorage.Valid, PersistentStorage.Linked, PersistentStorage.Now, WorldOk, HeapsOk;
      hide Catalogs.TablesOk, Catalogs.IndexesOk, TableCatalogs.TableFits, TableRefused, PersistentStorage.Exhausted;
      hide PersistentStorage.Known, FileView, WithTable, PersistentStorage.CatalogsOk, Spoiled;
      StorageParts();
      storage.CatalogsLinked();
      ghost var was := FileView(storage.tableCatalog.pool);
      r := storage.CreateTable(table);
      if r.Err? {
        label N:
        var _ := storage.catalog.RemoveTable(table.id);
        assert storage.catalog.tablesById == known;
        TableForgotten@N(table.id);
        if old@N(storage.Valid()) {
          TableGone@N(table.id);
        }
        storage.CatalogsLinked();
        RefusedStill(table.name, table.schema, was, FileView(storage.tableCatalog.pool),
          r.error, storage.Exhausted(), old@N(storage.Valid()), storage.Valid());
      }
    }

    twostate lemma TableNotRegistered(new name: seq<Byte>, new schema: Schema, new e: Error)
      requires old(Valid()) && Valid() && Now() == old(Now())
      requires storage.catalog.tablesById == Now().tables
      requires var id := Catalogs.NormalizeIdentifier(name);
        if id == [] || schema == [] then e == InvalidArgument
        else if exists t :: t in storage.catalog.tablesById && storage.catalog.tablesById[t].name == id then e == AlreadyExists
        else e == ResourceExhausted && storage.catalog.nextTableId == INVALID_ID
      ensures Outcome(CreateTable(name, schema), Err(e))
    {
      hide Valid, Now, Outcome, Fits, Effect, Damages, Spoilt, Catalogs.NormalizeIdentifier;
      Refused(CreateTable(name, schema), Err(e));
    }

    // What the catalog files held.
    twostate lemma LogsStored()
      requires old(Valid()) && storage.Linked() && unchanged(storage)
      ensures CatalogAfter(old(FileView(storage.indexCatalog.pool)), storage.indexLog)
      ensures TableCatalogs.TablesAfter(old(FileView(storage.tableCatalog.pool)), storage.tableLog)
    {
      hide PersistentStorage.Linked, PersistentStorage.Known, WorldOk, Logged, FileView, CatalogAfter, TableCatalogs.TablesAfter;
    }

    // What a failure to store a table means for the database.
    twostate lemma TableFailed(new name: seq<Byte>, new schema: Schema, new e: Error)
      requires old(Valid()) && storage.Linked() && storage.Known()
      requires storage.Now() == old(Now()) && unchanged(storage) && unchanged(storage.catalog`tablesById)
      requires unchanged(storage.catalog`indexesById)
      requires Refusal(old(Now()), CreateTable(name, schema)).None?
      requires FileView(storage.indexCatalog.pool) == old(FileView(storage.indexCatalog.pool))
      requires TableRefused(Catalogs.NormalizeIdentifier(name), schema,
        old(FileView(storage.tableCatalog.pool)), FileView(storage.tableCatalog.pool), e, storage.Exhausted(), storage.Valid())
      ensures Outcome(CreateTable(name, schema), Err(e))
    {
      hide Valid, PersistentStorage.Valid, PersistentStorage.Linked, PersistentStorage.Now, Outcome, Refusal, Effect;
      hide PersistentStorage.Known, PersistentStorage.Exhausted, TableCatalogs.TableFits, MetadataDamages, FileView;
      var s, r := CreateTable(name, schema), Err(e);
      if !TableCatalogs.TableFits(Catalogs.NormalizeIdentifier(name), schema) && old(Damages(s)) {
        LogsStored();
        Damaged(s, r);
      } else {
        StillValid();
        Refused(s, r);
      }
    }

    twostate lemma TableForgotten(new id: Word64)
      requires forall q | q in old(storage.Pools()) :: unchanged(q)
      requires old(storage.Linked() && storage.Known()) && storage.catalog.Valid() && unchanged(storage)
      requires unchanged(storage.catalog`indexesById) && id !in storage.tablePages
      requires storage.catalog.tablesById == old(storage.catalog.tablesById) - {id}
      ensures storage.Linked() && storage.Known() && storage.Now() == old(storage.Now())
      ensures FileView(storage.tableCatalog.pool) == old(FileView(storage.tableCatalog.pool))
      ensures FileView(storage.indexCatalog.pool) == old(FileView(storage.indexCatalog.pool))
    {
      hide PersistentStorage.Linked, Catalogs.TablesOk, Catalogs.IndexesOk;
      storage.CatalogMoved();
    }

    twostate lemma TableGone(new id: Word64)
      requires forall q | q in old(storage.Pools()) :: unchanged(q)
      requires old(storage.Valid()) && storage.catalog.Valid() && unchanged(storage)
      requires unchanged(storage.catalog`indexesById) && id !in storage.tablePages
      requires storage.catalog.tablesById == old(storage.catalog.tablesById) - {id}
      ensures storage.Valid() && storage.Now() == old(storage.Now())
    {
      hide PersistentStorage.Linked, PersistentStorage.CatalogsOk, WorldOk, Catalogs.TablesOk, Catalogs.IndexesOk, Logged;
      storage.CatalogChanged();
    }

    lemma IndexedTablesKnown()
      requires Valid()
      ensures forall i | i in storage.catalog.indexesById ::
        storage.catalog.indexesById[i].table in storage.catalog.tablesById
    {
      hide PersistentStorage.Linked, WorldOk, Catalogs.TablesOk, Logged, PersistentStorage.CatalogsOk, Catalogs.Normal;
    }

    lemma Parts()
      requires Valid()
      ensures storage.Linked() && storage.catalog.Valid()
      ensures storage.catalog.tablesById.Keys == storage.tablePages.Keys
      ensures Now().tables == storage.catalog.tablesById
      ensures storage.tableCatalog.pool in storage.Pools()
    {
      hide PersistentStorage.Linked, WorldOk, Catalogs.TablesOk, Catalogs.IndexesOk, Logged, PersistentStorage.CatalogsOk;
    }

    // ---- new indexes ----

    twostate lemma IndexRegistered()
      requires forall q | q in old(storage.Pools()) :: unchanged(q)
      requires old(storage.Valid()) && storage.catalog.Valid() && unchanged(storage)
      requires unchanged(storage.catalog`tablesById)
      requires storage.IndexesKnown()
      ensures storage.Valid() && storage.Now() == old(storage.Now())
    {
      hide PersistentStorage.Linked, PersistentStorage.CatalogsOk, WorldOk, Catalogs.TablesOk, Catalogs.IndexesOk, Logged;
      storage.CatalogChanged();
    }

    twostate lemma IndexForgotten()
      requires forall q | q in old(storage.Pools()) :: unchanged(q)
      requires old(storage.Linked() && storage.Known()) && storage.catalog.Valid() && unchanged(storage)
      requires unchanged(storage.catalog`tablesById) && storage.IndexesKnown()
      ensures storage.Linked() && storage.Known() && storage.Now() == old(storage.Now())
      ensures FileView(storage.tableCatalog.pool) == old(FileView(storage.tableCatalog.pool))
      ensures FileView(storage.indexCatalog.pool) == old(FileView(storage.indexCatalog.pool))
      ensures storage.Exhausted() == old(storage.Exhausted())
    {
      hide PersistentStorage.Linked, Catalogs.TablesOk, Catalogs.IndexesOk;
      storage.CatalogMoved();
    }

    twostate lemma IndexAdded(new index: IndexEntry, new root: Word64, new view: seq<Page>)
      requires old(Valid()) && storage.Valid() && unchanged(storage.catalog`tablesById)
      requires storage.tablePages.Keys == old(storage.tablePages.Keys)
      requires storage.Now() == WithIndex(old(storage.Now()), index.(root := root), view)
      requires storage.catalog.indexesById == old(storage.catalog.indexesById)[index.id := index.(root := root)]
      ensures Valid() && Now() == WithIndex(old(Now()), index.(root := root), view)
    {
      hide PersistentStorage.Valid;
    }

    // Stores a registered index, or takes the registration back.
    method StoreIndex(index: IndexEntry, ghost known: map<Word64, IndexEntry>) returns (r: Result<Word64>)
      requires storage.Valid() && storage.indexesById == known && index.id !in known && index.root == INVALID_ID
      requires storage.catalog.indexesById == known[index.id := index]
      requires index.table in storage.tablePages && index.table in storage.catalog.tablesById
      requires index.column < |storage.catalog.tablesById[index.table].schema|
      requires storage.catalog.tablesById[index.table].schema[index.column].kind == IntType
      modifies storage`indexPages, storage`indexesById, storage`indexLog, storage.catalog, storage.Pools()
      ensures unchanged(storage.catalog`tablesById) && HeapsOk(old(storage.Now())) && index.table in old(storage.Now()).tables
      ensures unchanged(storage.catalog`nextTableId) && unchanged(storage.catalog`nextIndexId)
      ensures r.Ok? ==>
        && storage.Valid() && UniqueColumn(RowsOf(old(storage.Now()), index.table), index.column) && NameFits(index.name)
        && unchanged(storage.catalog) && r.value != INVALID_ID && index.id in storage.indexPages
        && storage.Now() == WithIndex(old(storage.Now()), index.(root := r.value), FileView(storage.indexPages[index.id]))
      ensures r.Err? ==> unchanged(storage) && storage.catalog.indexesById == known
      ensures r.Err? ==> storage.Linked() && storage.Known() && storage.Now() == old(storage.Now())
      ensures r.Err? ==> FileView(storage.tableCatalog.pool) == old(FileView(storage.tableCatalog.pool))
      ensures r.Err? ==>
        IndexRefused(RowsOf(old(storage.Now()), index.table), index.column, index.name,
          old(FileView(storage.indexCatalog.pool)), FileView(storage.indexCatalog.pool),
          r.error, storage.Exhausted(), storage.Valid())
    {
      hide PersistentStorage.Valid, PersistentStorage.Linked, PersistentStorage.Now, WorldOk, HeapsOk, RowsOf;
      hide Catalogs.TablesOk, Catalogs.IndexesOk, NameFits, UniqueColumn, IndexRefused, WithIndex, FileView;
      hide PersistentStorage.Known, PersistentStorage.Exhausted, PersistentStorage.CatalogsOk;
      StorageParts();
      StoredIndexes();
      IndexFiles();
      storage.CatalogsLinked();
      ghost var rows, was := RowsOf(storage.Now(), index.table), FileView(storage.indexCatalog.pool);
      r := storage.CreateIndex(index);
      if r.Err? {
        label N:
        var _ := storage.catalog.RemoveIndex(index.id);
        assert storage.catalog.indexesById == known;
        AllKnown(known);
        IndexForgotten@N();
        if old@N(storage.Valid()) {
          IndexRegistered@N();
        }
        storage.CatalogsLinked();
        RefusedIndexStill(rows, index.column, index.name, was, FileView(storage.indexCatalog.pool),
          r.error, storage.Exhausted(), old@N(storage.Valid()), storage.Valid());
      }
    }

    // Stores a registered index and records its root page.
    method BuildIndex(index: IndexEntry, ghost known: map<Word64, IndexEntry>) returns (r: Result<Word64>, ghost view: seq<Page>)
      requires storage.Valid() && storage.indexesById == known && index.id !in known && index.root == INVALID_ID
      requires storage.catalog.indexesById == known[index.id := index]
      requires index.table in storage.tablePages && index.table in storage.catalog.tablesById
      requires index.column < |storage.catalog.tablesById[index.table].schema|
      requires storage.catalog.tablesById[index.table].schema[index.column].kind == IntType
      modifies storage`indexPages, storage`indexesById, storage`indexLog, storage.catalog, storage.Pools()
      ensures unchanged(storage.catalog`tablesById) && HeapsOk(old(storage.Now())) && index.table in old(storage.Now()).tables
      ensures unchanged(storage.catalog`nextTableId) && unchanged(storage.catalog`nextIndexId)
      ensures r.Ok? ==>
        && storage.Valid() && UniqueColumn(RowsOf(old(storage.Now()), index.table), index.column) && NameFits(index.name)
        && storage.catalog.indexesById == known[index.id := index.(root := r.value)]
        && storage.Now() == WithIndex(old(storage.Now()), index.(root := r.value), view)
      ensures r.Err? ==> unchanged(storage) && storage.catalog.indexesById == known
      ensures r.Err? ==> storage.Linked() && storage.Known() && storage.Now() == old(storage.Now())
      ensures r.Err? ==> FileView(storage.tableCatalog.pool) == old(FileView(storage.tableCatalog.pool))
      ensures r.Err? ==>
        IndexRefused(RowsOf(old(storage.Now()), index.table), index.column, index.name,
          old(FileView(storage.indexCatalog.pool)), FileView(storage.indexCatalog.pool),
          r.error, storage.Exhausted(), storage.Valid())
    {
      hide PersistentStorage.Valid, PersistentStorage.Linked, PersistentStorage.Now, WorldOk, HeapsOk, RowsOf;
      hide Catalogs.TablesOk, Catalogs.IndexesOk, NameFits, UniqueColumn, IndexRefused, WithIndex, FileView;
      hide PersistentStorage.Known, PersistentStorage.Exhausted, PersistentStorage.CatalogsOk;
      StorageParts();
      StoredIndexes();
      ghost var world := storage.Now();
      r := StoreIndex(index, known);
      view := [];
      if r.Err? {
        return;
      }
      StorageParts();
      StoredIndexes();
      storage.IndexLinked(index.id);
      view := FileView(storage.indexPages[index.id]);
      WithIndexParts(world, index.(root := r.value), view);
      label R:
      var status := storage.catalog.UpdateIndexRoot(index.id, r.value);
      if status.Err? {
        return Forward(status), view;
      }
      AllKnown(known[index.id := index.(root := r.value)]);
      IndexRegistered@R();
    }

    lemma IndexFiles()
      requires storage.Valid()
      ensures storage.indexPages.Keys == storage.indexesById.Keys
    {
      hide PersistentStorage.Linked, PersistentStorage.CatalogsOk, PersistentStorage.Heaps, PersistentStorage.Trees;
      hide WorldOk, Logged, Catalogs.TablesOk, Catalogs.IndexesOk;
      HeapKeys(storage);
      TreeKeys(storage.Now());
    }

    lemma StorageParts()
      requires storage.Valid()
      ensures storage.Linked() && storage.catalog.Valid() && HeapsOk(storage.Now())
      ensures storage.tablePages.Keys == storage.Now().tables.Keys
    {
      hide PersistentStorage.Linked, Catalogs.TablesOk, Catalogs.IndexesOk, Logged, PersistentStorage.CatalogsOk;
      hide HeapFile, Agrees, TreeFile;
    }

    // An index over the rows of a table is built and registered, or nothing
    // changes. Only a name too long for a catalog page spoils the index catalog.
    method ExecuteCreateIndex(name: seq<Byte>, t: Word64, column: Word64) returns (r: Result<QueryResult>)
      requires Valid() && Bound(Now(), CreateIndex(name, t, column))
      modifies storage`indexPages, storage`indexesById, storage`indexLog, storage.catalog, storage.Pools()
      ensures Outcome(CreateIndex(name, t, column), r) && CountersMove(CreateIndex(name, t, column))
    {
      hide Valid, Now, PersistentStorage.Valid, PersistentStorage.Linked, PersistentStorage.Now, WorldOk, HeapsOk, RowsOf;
      hide Catalogs.TablesOk, Catalogs.IndexesOk, Catalogs.NormalizeIdentifier, NameFits, UniqueColumn;
      hide Outcome, Refusal, Fits, Effect, NoIds, Damages, Spoilt, IndexRefused, Bound, FileView, WithIndex;
      SameNow();
      Parts();
      Facts();
      BoundIndex(Now(), name, t, column);
      ghost var known := storage.catalog.indexesById;
      var id := storage.catalog.CreateIndex(name, t, column);
      if id.Err? {
        IndexNotRegistered(name, t, column, id.error);
        return Forward(id);
      }
      var index := storage.catalog.FindIndexById(id.value);
      if index.Err? {
        return Forward(index);
      }
      StoredKnown(known, id.value);
      IndexRegistered();
      ghost var view: seq<Page>;
      var root;
      root, view := BuildIndex(index.value, known);
      if root.Err? {
        IndexFailed(name, t, column, root.error);
        return Forward(root);
      }
      IndexAdded(index.value, root.value, view);
      IndexCreatedEffect(old(Now()), Now(), name, index.value.(root := root.value), view);
      CreateIndexMeans(old(Now()), name, t, column);
      r := Ok(QueryResult(IndexCreated, [], [], 0));
      Succeeded(CreateIndex(name, t, column), r);
    }

    // The catalog's reasons not to register an index, and nothing has happened.
    twostate lemma IndexNotRegistered(new name: seq<Byte>, new t: Word64, new column: Word64, new e: Error)
      requires forall q | q in old(storage.Pools()) :: unchanged(q)
      requires old(Valid()) && unchanged(storage) && unchanged(storage.catalog)
      requires Bound(old(Now()), CreateIndex(name, t, column))
      requires var id, indexes := Catalogs.NormalizeIdentifier(name), storage.catalog.indexesById;
        if id == [] then e == InvalidArgument
        else if (exists i :: i in indexes && indexes[i].name == id) || storage.catalog.ColumnIndexed(t, column) then
          e == AlreadyExists
        else e == ResourceExhausted && storage.catalog.nextIndexId == INVALID_ID
      ensures Outcome(CreateIndex(name, t, column), Err(e))
    {
      hide Valid, Now, Outcome, Fits, Effect, Damages, Spoilt, Catalogs.NormalizeIdentifier, HeapsOk, RowsOf, UniqueColumn;
      Untouched();
      IndexesNow();
      Refused(CreateIndex(name, t, column), Err(e));
    }

    lemma IndexesNow()
      requires Valid()
      ensures Now().indexes == storage.catalog.indexesById
    {
      hide PersistentStorage.Linked, WorldOk, Catalogs.TablesOk, Catalogs.IndexesOk, Logged, PersistentStorage.CatalogsOk;
    }

    // What a failure to build an index means for the database.
    twostate lemma IndexFailed(new name: seq<Byte>, new t: Word64, new column: Word64, new e: Error)
      requires old(Valid()) && storage.Linked() && storage.Known()
      requires Bound(old(Now()), CreateIndex(name, t, column))
      requires storage.Now() == old(Now()) && unchanged(storage) && unchanged(storage.catalog`tablesById)
      requires unchanged(storage.catalog`indexesById)
      requires FileView(storage.tableCatalog.pool) == old(FileView(storage.tableCatalog.pool))
      requires var id, w := Catalogs.NormalizeIdentifier(name), old(Now());
        && id != [] && !IndexNamed(w, id) && !ColumnIndexed(w, t, column)
        && IndexRefused(RowsOf(w, t), column, id,
             old(FileView(storage.indexCatalog.pool)), FileView(storage.indexCatalog.pool),
             e, storage.Exhausted(), storage.Valid())
      ensures Outcome(CreateIndex(name, t, column), Err(e))
    {
      hide Valid, PersistentStorage.Valid, PersistentStorage.Linked, PersistentStorage.Now, Outcome, Effect;
      hide PersistentStorage.Known, PersistentStorage.Exhausted, FileView, HeapsOk, RowsOf, UniqueColumn, IndexNamed;
      hide Catalogs.NormalizeIdentifier, ColumnIndexed, NameDamages;
      var s, r := CreateIndex(name, t, column), Err(e);
      if e == ResourceExhausted && !NameFits(Catalogs.NormalizeIdentifier(name)) && old(Damages(s)) {
        LogsStored();
        Damaged(s, r);
      } else {
        StillValid();
        Refused(s, r);
      }
    }

    lemma StoredIndexes()
      requires storage.Valid()
      ensures storage.Linked() && storage.tablePages.Keys <= storage.catalog.tablesById.Keys
      ensures storage.Now().indexes == storage.indexesById
    {
      hide PersistentStorage.Linked, PersistentStorage.CatalogsOk, WorldOk, Catalogs.TablesOk, Catalogs.IndexesOk, Logged;
    }

    lemma AllKnown(indexes: map<Word64, IndexEntry>)
      requires storage.indexesById == indexes && storage.catalog.indexesById == indexes
      ensures storage.IndexesKnown()
    {
    }

    lemma StoredKnown(known: map<Word64, IndexEntry>, id: Word64)
      requires storage.indexesById == known && id !in known && id in storage.catalog.indexesById
      requires storage.catalog.indexesById == known[id := storage.catalog.indexesById[id]]
      ensures storage.IndexesKnown()
    {
    }

    // ---- statements ----

    twostate lemma RowsSelectedOutcome(new s: Statement, new r: Result<QueryResult>)
      requires old(Valid()) && Valid() && Now() == old(Now()) && s.Select?
      requires SelectBound(Now(), s.table, s.projections, s.filter)
      requires r == Ok(SelectResult(Now(), s.table, s.projections, s.filter))
      ensures Bound(old(Now()), s) && Outcome(s, r)
    {
      hide Valid, Now, SelectBound, SelectResult, Outcome, Selection;
      ResultIsSelection(Now(), s.table, s.projections, s.filter);
      Succeeded(s, r);
    }

    // Every statement that succeeds keeps the database valid, so that after any
    // run every index agrees with its table; how the others end, Outcome says. A
    // selection returns what the sequential scan would, whichever plan was chosen.
    method Execute(s: Statement) returns (r: Result<QueryResult>)
      requires Valid() && Bound(Now(), s)
      modifies storage, storage.catalog, storage.Pools()
      ensures Outcome(s, r) && CountersMove(s)
      ensures s.Select? ==> r.Ok?
    {
      hide Valid, Now, PersistentStorage.Valid, PersistentStorage.Linked, WorldOk, HeapsOk, RowsOf, SelectBound, Matches;
      hide PlanStatement, Outcome, Bound, SelectResult, PersistentStorage.Now;
      Parts();
      PlanMeansStatement(s);
      SelectMeans(Now(), s);
      match PlanStatement(s)
      case PhysicalCreateTable(name, schema) =>
        r := ExecuteCreateTable(name, schema);
      case PhysicalCreateIndex(name, table, column) =>
        r := ExecuteCreateIndex(name, table, column);
      case PhysicalInsert(table, values) =>
        r := ExecuteInsert(table, values);
      case SequentialScan(table, projections, filter) =>
        r := ExecuteSequentialScan(table, projections, filter);
        RowsSelectedOutcome(s, r);
      case IndexScan(table, projections, comparison) =>
        r := ExecuteIndexScan(table, projections, comparison);
        RowsSelectedOutcome(s, r);
    }
  }

  // Opening the files of a database.
  method OpenDatabase(files: Files, ghost w: World, ghost tableLog: seq<Catalogs.Table>, ghost indexLog: seq<IndexEntry>)
    returns (r: Result<Database>)
    requires Stores(files, w, tableLog, indexLog)
    ensures r.Ok? && fresh(r.value) && r.value.Valid() && r.value.Now() == w
    ensures forall t | t in w.tables :: t < r.value.storage.catalog.nextTableId
    ensures forall i | i in w.indexes :: i < r.value.storage.catalog.nextIndexId
    ensures NextAfter(r.value.storage.catalog.nextTableId, w.tables)
    ensures NextAfter(r.value.storage.catalog.nextIndexId, w.indexes)
  {
    hide Stores, PersistentStorage.Valid;
    var storage := Open(files, w, tableLog, indexLog);
    if storage.Err? {
      return Forward(storage);
    }
    label L:
    var database := new Database(storage.value);
    storage.value.Undisturbed@L();
    Ready(database, w);
    return Ok(database);
  }

  lemma Ready(database: Database, w: World)
    requires database.storage.Valid() && database.storage.Now() == w
    requires database.storage.catalog.tablesById == w.tables && database.storage.catalog.indexesById == w.indexes
    ensures database.Valid() && database.Now() == w
  {
    hide PersistentStorage.Linked, PersistentStorage.CatalogsOk, PersistentStorage.Known, WorldOk, Logged;
    database.storage.StorageKeys();
  }

  // Closing a database and opening its files again gives the same database.
  method CloseAndReopen(database: Database) returns (r: Result<Database>)
    requires database.Valid()
    modifies database.storage.Pools()
    ensures r.Ok? && fresh(r.value) && r.value.Valid() && r.value.Now() == old(database.Now())
  {
    hide Database.Valid, Stores, PersistentStorage.Valid, PersistentStorage.Now, PersistentStorage.Linked;
    ghost var w := database.Now();
    database.SameNow();
    var files := Close(database.storage);
    r := OpenDatabase(files, w, database.storage.tableLog, database.storage.indexLog);
  }
}
