// The in-memory catalog: tables and indexes by id, their names, and the
// counters that hand out fresh ids.
module Catalogs {
  import opened Results
  import opened ByteCodec
  import opened Pages
  import opened RecordCodec
  import opened IndexCodec

  datatype Table = Table(id: Word64, name: seq<Byte>, schema: Schema)

  // ASCII lower case.
  function NormalizeIdentifier(name: seq<Byte>): (r: seq<Byte>)
    ensures |r| == |name|
    ensures forall i | 0 <= i < |r| :: !(65 <= r[i] <= 90)
  {
    if name == [] then []
    else [if 65 <= name[0] <= 90 then name[0] + 32 else name[0]] + NormalizeIdentifier(name[1..])
  }

  // The same byte, or the two cases of one ASCII letter.
  predicate SameLetter(a: Byte, b: Byte) {
    a == b || (65 <= a <= 90 && b == a + 32) || (65 <= b <= 90 && a == b + 32)
  }

  predicate SameUpToCase(a: seq<Byte>, b: seq<Byte>) {
    |a| == |b| && forall i | 0 <= i < |a| :: SameLetter(a[i], b[i])
  }

  predicate NoCapitals(name: seq<Byte>) {
    forall i | 0 <= i < |name| :: name[i] < 65 || name[i] > 90
  }

  // Byte by byte, a capital becomes its small letter and nothing else changes.
  lemma {:induction false} NormalizedBytes(name: seq<Byte>)
    ensures var r := NormalizeIdentifier(name);
      && |r| == |name| && NoCapitals(r) && SameUpToCase(r, name)
      && forall i | 0 <= i < |r| :: r[i] == name[i] || (65 <= name[i] <= 90 && r[i] == name[i] + 32)
  {
    if name != [] {
      NormalizedBytes(name[1..]);
      var r := NormalizeIdentifier(name);
      forall i | 0 <= i < |r|
        ensures (r[i] < 65 || r[i] > 90) && (r[i] == name[i] || (65 <= name[i] <= 90 && r[i] == name[i] + 32))
      {
        if i > 0 {
          assert r[i] == NormalizeIdentifier(name[1..])[i - 1] && name[i] == name[1..][i - 1];
        }
      }
    }
  }

  // Two names are one identifier exactly when they agree up to ASCII case.
  lemma NormalizedSame(a: seq<Byte>, b: seq<Byte>)
    ensures NormalizeIdentifier(a) == NormalizeIdentifier(b) <==> SameUpToCase(a, b)
  {
    hide NormalizeIdentifier;
    NormalizedBytes(a);
    NormalizedBytes(b);
    var x, y := NormalizeIdentifier(a), NormalizeIdentifier(b);
    if SameUpToCase(a, b) {
      forall i | 0 <= i < |x| ensures x[i] == y[i] {
        assert SameLetter(a[i], b[i]);
      }
    }
    if x == y {
      forall i | 0 <= i < |a| ensures SameLetter(a[i], b[i]) {
        assert x[i] == y[i];
      }
    }
  }

  lemma NormalName(stored: seq<Byte>, name: seq<Byte>)
    requires Normal(stored)
    ensures stored == NormalizeIdentifier(name) <==> SameUpToCase(stored, name)
  {
    hide NormalizeIdentifier, SameUpToCase;
    NormalizedSame(stored, name);
  }

  lemma TableNamedUpToCase(tables: map<Word64, Table>, names: map<seq<Byte>, Word64>, next: Word64, name: seq<Byte>)
    requires TablesOk(tables, names, next)
    ensures forall id | id in tables ::
      tables[id].name == NormalizeIdentifier(name) <==> SameUpToCase(tables[id].name, name)
  {
    hide NormalizeIdentifier, SameUpToCase, Normal;
    forall id | id in tables
      ensures tables[id].name == NormalizeIdentifier(name) <==> SameUpToCase(tables[id].name, name)
    {
      NormalName(tables[id].name, name);
    }
  }

  lemma IndexNamedUpToCase(tables: map<Word64, Table>, indexes: map<Word64, IndexEntry>,
                           names: map<seq<Byte>, Word64>, next: Word64, name: seq<Byte>)
    requires IndexesOk(tables, indexes, names, next)
    ensures forall id | id in indexes ::
      indexes[id].name == NormalizeIdentifier(name) <==> SameUpToCase(indexes[id].name, name)
  {
    hide NormalizeIdentifier, SameUpToCase, Normal;
    forall id | id in indexes
      ensures indexes[id].name == NormalizeIdentifier(name) <==> SameUpToCase(indexes[id].name, name)
    {
      NormalName(indexes[id].name, name);
    }
  }

  lemma {:induction false} NormalizeIdempotent(name: seq<Byte>)
    ensures NormalizeIdentifier(NormalizeIdentifier(name)) == NormalizeIdentifier(name)
  {
    if name != [] {
      NormalizeIdempotent(name[1..]);
      assert NormalizeIdentifier(name)[1..] == NormalizeIdentifier(name[1..]);
    }
  }

  predicate Normal(name: seq<Byte>) {
    NormalizeIdentifier(name) == name
  }

  lemma NormalizedIsNormal(name: seq<Byte>)
    ensures Normal(NormalizeIdentifier(name))
  {
    NormalizeIdempotent(name);
  }

  // What the catalog knows, apart from the counters.
  ghost predicate TablesOk(tables: map<Word64, Table>, names: map<seq<Byte>, Word64>, next: Word64) {
    && (forall id | id in tables ::
          && 0 < id < next && tables[id].id == id && tables[id].name != [] && tables[id].schema != []
          && Normal(tables[id].name)
          && tables[id].name in names && names[tables[id].name] == id)
    && (forall name | name in names :: names[name] in tables && tables[names[name]].name == name)
  }

  ghost predicate IndexesOk(tables: map<Word64, Table>, indexes: map<Word64, IndexEntry>,
                            names: map<seq<Byte>, Word64>, next: Word64) {
    && (forall id | id in indexes ::
          && 0 < id < next && indexes[id].id == id && indexes[id].name != []
          && indexes[id].table in tables && indexes[id].column < |tables[indexes[id].table].schema|
          && Normal(indexes[id].name)
          && indexes[id].name in names && names[indexes[id].name] == id)
    && (forall name | name in names :: names[name] in indexes && indexes[names[name]].name == name)
    && (forall a, b | a in indexes && b in indexes && a != b ::
          indexes[a].table != indexes[b].table || indexes[a].column != indexes[b].column)
  }

  lemma TableAdded(tables: map<Word64, Table>, names: map<seq<Byte>, Word64>, next: Word64, t: Table, next': Word64)
    requires TablesOk(tables, names, next) && next <= next' && 0 < t.id < next'
    requires t.id !in tables && t.name != [] && t.schema != [] && t.name !in names && Normal(t.name)
    ensures TablesOk(tables[t.id := t], names[t.name := t.id], next')
  {
    hide Normal;
  }

  lemma TableRemoved(tables: map<Word64, Table>, names: map<seq<Byte>, Word64>, next: Word64, id: Word64)
    requires TablesOk(tables, names, next) && id in tables
    ensures TablesOk(tables - {id}, names - {tables[id].name}, next)
  {
    hide Normal;
  }

  lemma TableNamed(tables: map<Word64, Table>, names: map<seq<Byte>, Word64>, next: Word64, name: seq<Byte>)
    requires TablesOk(tables, names, next)
    ensures name in names <==> exists id :: id in tables && tables[id].name == name
    ensures forall id | id in tables :: id < next
  {
    hide Normal;
  }

  // Indexes stay in order when tables are added, or removed without an index.
  lemma TablesChanged(tables: map<Word64, Table>, tables': map<Word64, Table>, indexes: map<Word64, IndexEntry>,
                      names: map<seq<Byte>, Word64>, next: Word64)
    requires IndexesOk(tables, indexes, names, next)
    requires forall i | i in indexes && indexes[i].table in tables ::
      indexes[i].table in tables' && tables'[indexes[i].table] == tables[indexes[i].table]
    ensures IndexesOk(tables', indexes, names, next)
  {
    hide Normal;
  }

  lemma IndexAdded(tables: map<Word64, Table>, indexes: map<Word64, IndexEntry>, names: map<seq<Byte>, Word64>,
                   next: Word64, e: IndexEntry, next': Word64)
    requires IndexesOk(tables, indexes, names, next) && next <= next' && 0 < e.id < next'
    requires e.id !in indexes && e.name != [] && e.name !in names && Normal(e.name)
    requires e.table in tables && e.column < |tables[e.table].schema|
    requires forall id | id in indexes :: indexes[id].table != e.table || indexes[id].column != e.column
    ensures IndexesOk(tables, indexes[e.id := e], names[e.name := e.id], next')
  {
    hide Normal;
    var after := indexes[e.id := e];
    forall a, b | a in after && b in after && a != b
      ensures after[a].table != after[b].table || after[a].column != after[b].column
    {
    }
  }

  lemma IndexRemoved(tables: map<Word64, Table>, indexes: map<Word64, IndexEntry>, names: map<seq<Byte>, Word64>,
                     next: Word64, id: Word64)
    requires IndexesOk(tables, indexes, names, next) && id in indexes
    ensures IndexesOk(tables, indexes - {id}, names - {indexes[id].name}, next)
  {
    hide Normal;
  }

  lemma RootChanged(tables: map<Word64, Table>, indexes: map<Word64, IndexEntry>, names: map<seq<Byte>, Word64>,
                    next: Word64, id: Word64, root: Word64)
    requires IndexesOk(tables, indexes, names, next) && id in indexes
    ensures IndexesOk(tables, indexes[id := indexes[id].(root := root)], names, next)
  {
    hide Normal;
  }

  lemma IndexNamed(tables: map<Word64, Table>, indexes: map<Word64, IndexEntry>, names: map<seq<Byte>, Word64>,
                   next: Word64, name: seq<Byte>)
    requires IndexesOk(tables, indexes, names, next)
    ensures name in names <==> exists id :: id in indexes && indexes[id].name == name
  {
  }

  lemma IdsBelow(tables: map<Word64, Table>, indexes: map<Word64, IndexEntry>, names: map<seq<Byte>, Word64>, next: Word64)
    requires IndexesOk(tables, indexes, names, next)
    ensures forall id | id in indexes :: id < next
  {
  }

  class InMemoryCatalog {
    var nextTableId: Word64
    var tableIdsByName: map<seq<Byte>, Word64>
    var tablesById: map<Word64, Table>
    var nextIndexId: Word64
    var indexIdsByName: map<seq<Byte>, Word64>
    var indexesById: map<Word64, IndexEntry>

    // Names are in lower case, names and ids are inverse, ids are below the
    // counters, every index is on a column of a known table, and no column has
    // two indexes.
    ghost predicate Valid()
      reads this
    {
      && 0 < nextTableId && TablesOk(tablesById, tableIdsByName, nextTableId)
      && 0 < nextIndexId && IndexesOk(tablesById, indexesById, indexIdsByName, nextIndexId)
    }

    constructor ()
      ensures Valid() && tablesById == map[] && indexesById == map[]
      ensures nextTableId == 1 && nextIndexId == 1
    {
      nextTableId, tableIdsByName, tablesById := 1, map[], map[];
      nextIndexId, indexIdsByName, indexesById := 1, map[], map[];
    }

    method CreateTable(rawName: seq<Byte>, schema: Schema) returns (r: Result<Word64>)
      requires Valid()
      modifies this
      ensures Valid()
      ensures unchanged(`nextIndexId) && unchanged(`indexIdsByName) && unchanged(`indexesById)
      ensures var name := NormalizeIdentifier(rawName);
        if name == [] || schema == [] then r == Err(InvalidArgument) && unchanged(this)
        else if exists id :: id in old(tablesById) && old(tablesById[id]).name == name then
          r == Err(AlreadyExists) && unchanged(this)
        else if old(nextTableId) == INVALID_ID then r == Err(ResourceExhausted) && unchanged(this)
        else
          && r.Ok? && r.value !in old(tablesById) && r.value == old(nextTableId)
          && tablesById == old(tablesById)[r.value := Table(r.value, name, schema)]
          && nextTableId == old(nextTableId) + 1
      ensures r.Ok? ==> SameUpToCase(tablesById[r.value].name, rawName) && NoCapitals(tablesById[r.value].name)
      ensures r == Err(AlreadyExists) <==>
        && rawName != [] && schema != []
        && exists id :: id in old(tablesById) && SameUpToCase(old(tablesById[id]).name, rawName)
    {
      hide TablesOk, IndexesOk, NormalizeIdentifier, Normal, SameUpToCase, NoCapitals;
      var name := NormalizeIdentifier(rawName);
      NormalizedIsNormal(rawName);
      NormalizedBytes(rawName);
      TableNamedUpToCase(tablesById, tableIdsByName, nextTableId, rawName);
      TableNamed(tablesById, tableIdsByName, nextTableId, name);
      if |name| == 0 {
        return Err(InvalidArgument);
      }
      if |schema| == 0 {
        return Err(InvalidArgument);
      }
      if name in tableIdsByName {
        return Err(AlreadyExists);
      }
      if nextTableId == INVALID_ID {
        return Err(ResourceExhausted);
      }
      var id := nextTableId;
      TableAdded(tablesById, tableIdsByName, nextTableId, Table(id, name, schema), id + 1);
      TablesChanged(tablesById, tablesById[id := Table(id, name, schema)], indexesById, indexIdsByName, nextIndexId);
      nextTableId := nextTableId + 1;
      tablesById := tablesById[id := Table(id, name, schema)];
      tableIdsByName := tableIdsByName[name := id];
      return Ok(id);
    }

    // Registers a table read from disk; later fresh ids stay above its id.
    method LoadTable(id: Word64, rawName: seq<Byte>, schema: Schema) returns (r: Result<()>)
      requires Valid()
      modifies this
      ensures Valid()
      ensures unchanged(`nextIndexId) && unchanged(`indexIdsByName) && unchanged(`indexesById)
      ensures var name := NormalizeIdentifier(rawName);
        r.Ok? <==>
          && id != INVALID_ID && id != 0 && name != [] && schema != [] && id !in old(tablesById)
          && forall other | other in old(tablesById) :: old(tablesById[other]).name != name
      ensures r.Ok? ==>
        && tablesById == old(tablesById)[id := Table(id, NormalizeIdentifier(rawName), schema)]
        && nextTableId == if id >= old(nextTableId) then id + 1 else old(nextTableId)
      ensures r.Err? ==> r.error == Corruption && unchanged(this)
    {
      hide TablesOk, IndexesOk, NormalizeIdentifier, Normal;
      var name := NormalizeIdentifier(rawName);
      NormalizedIsNormal(rawName);
      TableNamed(tablesById, tableIdsByName, nextTableId, name);
      if id == INVALID_ID || id == 0 {
        return Err(Corruption);
      }
      if |name| == 0 || |schema| == 0 {
        return Err(Corruption);
      }
      if name in tableIdsByName || id in tablesById {
        return Err(Corruption);
      }
      TableAdded(tablesById, tableIdsByName, nextTableId, Table(id, name, schema),
        if id >= nextTableId then id + 1 else nextTableId);
      TablesChanged(tablesById, tablesById[id := Table(id, name, schema)], indexesById, indexIdsByName, nextIndexId);
      tablesById := tablesById[id := Table(id, name, schema)];
      tableIdsByName := tableIdsByName[name := id];
      if id >= nextTableId {
        nextTableId := id + 1;
      }
      return Ok(());
    }

    // Takes back a table; the id is not handed out again.
    method RemoveTable(id: Word64) returns (r: Result<()>)
      requires Valid()
      modifies this
      ensures unchanged(`nextTableId) && unchanged(`nextIndexId) && unchanged(`indexIdsByName) && unchanged(`indexesById)
      ensures r == if id in old(tablesById) then Ok(()) else Err(NotFound)
      ensures tablesById == old(tablesById) - {id}
      ensures (forall i | i in indexesById :: indexesById[i].table != id) ==> Valid()
    {
      hide TablesOk, IndexesOk, Normal;
      if id !in tablesById {
        return Err(NotFound);
      }
      TableRemoved(tablesById, tableIdsByName, nextTableId, id);
      if forall i | i in indexesById :: indexesById[i].table != id {
        TablesChanged(tablesById, tablesById - {id}, indexesById, indexIdsByName, nextIndexId);
      }
      tableIdsByName := tableIdsByName - {tablesById[id].name};
      tablesById := tablesById - {id};
      return Ok(());
    }

    method FindTableById(id: Word64) returns (r: Result<Table>)
      ensures r == if id in tablesById then Ok(tablesById[id]) else Err(NotFound)
    {
      if id !in tablesById {
        return Err(NotFound);
      }
      return Ok(tablesById[id]);
    }

    // Names are unique, so a name finds the one table that has it.
    method FindTableByName(name: seq<Byte>) returns (r: Result<Table>)
      requires Valid()
      ensures forall t :: r == Ok(t) <==> t.name == NormalizeIdentifier(name) && t.id in tablesById && tablesById[t.id] == t
      ensures forall t :: r == Ok(t) <==> SameUpToCase(t.name, name) && t.id in tablesById && tablesById[t.id] == t
      ensures r.Err? ==> r.error == NotFound
    {
      hide IndexesOk, Normal, NormalizeIdentifier, SameUpToCase;
      TableNamedUpToCase(tablesById, tableIdsByName, nextTableId, name);
      var normalized := NormalizeIdentifier(name);
      if normalized !in tableIdsByName {
        return Err(NotFound);
      }
      r := FindTableById(tableIdsByName[normalized]);
    }

    ghost predicate ColumnIndexed(table: Word64, column: Word64)
      reads this
    {
      exists id :: id in indexesById && indexesById[id].table == table && indexesById[id].column == column
    }

    // Registers an index that has no root page yet.
    method CreateIndex(rawName: seq<Byte>, table: Word64, column: Word64) returns (r: Result<Word64>)
      requires Valid()
      modifies this
      ensures Valid()
      ensures unchanged(`nextTableId) && unchanged(`tableIdsByName) && unchanged(`tablesById)
      ensures var name := NormalizeIdentifier(rawName);
        if name == [] then r == Err(InvalidArgument) && unchanged(this)
        else if table !in tablesById then r == Err(NotFound) && unchanged(this)
        else if column >= |tablesById[table].schema| then r == Err(OutOfRange) && unchanged(this)
        else if (exists id :: id in old(indexesById) && old(indexesById[id]).name == name)
                || old(ColumnIndexed(table, column)) then r == Err(AlreadyExists) && unchanged(this)
        else if old(nextIndexId) == INVALID_ID then r == Err(ResourceExhausted) && unchanged(this)
        else
          && r.Ok? && r.value !in old(indexesById) && r.value == old(nextIndexId) && 0 < r.value < INVALID_ID
          && indexesById == old(indexesById)[r.value := IndexEntry(r.value, name, table, column, INVALID_ID)]
          && nextIndexId == old(nextIndexId) + 1
      ensures r.Ok? ==> SameUpToCase(indexesById[r.value].name, rawName) && NoCapitals(indexesById[r.value].name)
      ensures r == Err(AlreadyExists) <==>
        && rawName != [] && table in tablesById && column < |tablesById[table].schema|
        && ((exists id :: id in old(indexesById) && SameUpToCase(old(indexesById[id]).name, rawName))
            || old(ColumnIndexed(table, column)))
    {
      hide IndexesOk, TablesOk, NormalizeIdentifier, Normal, SameUpToCase, NoCapitals;
      var name := NormalizeIdentifier(rawName);
      NormalizedIsNormal(rawName);
      NormalizedBytes(rawName);
      IndexNamedUpToCase(tablesById, indexesById, indexIdsByName, nextIndexId, rawName);
      IndexNamed(tablesById, indexesById, indexIdsByName, nextIndexId, name);
      if |name| == 0 {
        return Err(InvalidArgument);
      }
      if table !in tablesById {
        return Err(NotFound);
      }
      if column >= |tablesById[table].schema| {
        return Err(OutOfRange);
      }
      if name in indexIdsByName {
        return Err(AlreadyExists);
      }
      if exists id | id in indexesById :: indexesById[id].table == table && indexesById[id].column == column {
        return Err(AlreadyExists);
      }
      if nextIndexId == INVALID_ID {
        return Err(ResourceExhausted);
      }
      var id := nextIndexId;
      IdsBelow(tablesById, indexesById, indexIdsByName, nextIndexId);
      IndexAdded(tablesById, indexesById, indexIdsByName, nextIndexId,
        IndexEntry(id, name, table, column, INVALID_ID), id + 1);
      nextIndexId := nextIndexId + 1;
      indexesById := indexesById[id := IndexEntry(id, name, table, column, INVALID_ID)];
      indexIdsByName := indexIdsByName[name := id];
      return Ok(id);
    }

    method LoadIndex(e: IndexEntry) returns (r: Result<()>)
      requires Valid()
      modifies this
      ensures Valid()
      ensures unchanged(`nextTableId) && unchanged(`tableIdsByName) && unchanged(`tablesById)
      ensures var name := NormalizeIdentifier(e.name);
        r.Ok? <==>
          && EntryOk(e) && e.table in tablesById && e.column < |tablesById[e.table].schema|
          && e.id !in old(indexesById) && !old(ColumnIndexed(e.table, e.column))
          && forall other | other in old(indexesById) :: old(indexesById[other]).name != name
      ensures r.Ok? ==>
        && indexesById == old(indexesById)[e.id := e.(name := NormalizeIdentifier(e.name))]
        && nextIndexId == if e.id >= old(nextIndexId) then e.id + 1 else old(nextIndexId)
      ensures r.Err? ==> r.error == Corruption && unchanged(this)
    {
      hide IndexesOk, TablesOk, NormalizeIdentifier, Normal;
      var name := NormalizeIdentifier(e.name);
      NormalizedIsNormal(e.name);
      IndexNamed(tablesById, indexesById, indexIdsByName, nextIndexId, name);
      if e.id == INVALID_ID || e.id == 0 || |name| == 0 || e.table == INVALID_ID || e.root == INVALID_ID {
        return Err(Corruption);
      }
      if e.table !in tablesById || e.column >= |tablesById[e.table].schema| {
        return Err(Corruption);
      }
      if name in indexIdsByName || e.id in indexesById {
        return Err(Corruption);
      }
      if exists id | id in indexesById :: indexesById[id].table == e.table && indexesById[id].column == e.column {
        return Err(Corruption);
      }
      IndexAdded(tablesById, indexesById, indexIdsByName, nextIndexId, e.(name := name),
        if e.id >= nextIndexId then e.id + 1 else nextIndexId);
      indexIdsByName := indexIdsByName[name := e.id];
      indexesById := indexesById[e.id := e.(name := name)];
      if e.id >= nextIndexId {
        nextIndexId := e.id + 1;
      }
      return Ok(());
    }

    method RemoveIndex(id: Word64) returns (r: Result<()>)
      requires Valid()
      modifies this
      ensures Valid()
      ensures unchanged(`nextTableId) && unchanged(`tableIdsByName) && unchanged(`tablesById) && unchanged(`nextIndexId)
      ensures r == if id in old(indexesById) then Ok(()) else Err(NotFound)
      ensures indexesById == old(indexesById) - {id}
    {
      hide IndexesOk, TablesOk, NormalizeIdentifier, Normal;
      if id !in indexesById {
        return Err(NotFound);
      }
      IndexRemoved(tablesById, indexesById, indexIdsByName, nextIndexId, id);
      indexIdsByName := indexIdsByName - {indexesById[id].name};
      indexesById := indexesById - {id};
      return Ok(());
    }

    method UpdateIndexRoot(id: Word64, root: Word64) returns (r: Result<()>)
      requires Valid()
      modifies this`indexesById
      ensures Valid()
      ensures if root == INVALID_ID then r == Err(InvalidArgument) && unchanged(this)
              else if id !in old(indexesById) then r == Err(NotFound) && unchanged(this)
              else r == Ok(()) && indexesById == old(indexesById)[id := old(indexesById[id]).(root := root)]
    {
      hide IndexesOk, TablesOk, NormalizeIdentifier, Normal;
      if root == INVALID_ID {
        return Err(InvalidArgument);
      }
      if id !in indexesById {
        return Err(NotFound);
      }
      RootChanged(tablesById, indexesById, indexIdsByName, nextIndexId, id, root);
      indexesById := indexesById[id := indexesById[id].(root := root)];
      return Ok(());
    }

    method FindIndexById(id: Word64) returns (r: Result<IndexEntry>)
      ensures r == if id in indexesById then Ok(indexesById[id]) else Err(NotFound)
    {
      if id !in indexesById {
        return Err(NotFound);
      }
      return Ok(indexesById[id]);
    }
  }
}
