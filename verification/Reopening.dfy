// Closing a database writes every pool back; opening it again restores the same
// tables, rows, index metadata and index contents.
module Reopening {
  import opened Results
  import opened ByteCodec
  import opened Pages
  import opened BufferPool
  import opened PageManager
  import opened TreeModel
  import opened IndexFiles
  import opened BPlusTrees
  import opened RecordFiles
  import opened RecordCodec
  import opened TableHeaps
  import opened IndexCodec
  import opened OrderedMaps
  import opened IndexCatalogs
  import opened Catalogs
  import opened TableCatalogs
  import opened IndexedTables
  import opened Storage

  // The files of a database directory.
  datatype Files = Files(
    tableCatalog: seq<Page>,
    indexCatalog: seq<Page>,
    tables: map<Word64, seq<Page>>,
    indexes: map<Word64, seq<Page>>)

  ghost function Stripped(file: seq<Page>): (view: seq<Page>)
    ensures |view| == |file|
  {
    seq(|file|, i requires 0 <= i < |file| => Strip(file[i]))
  }

  // A file that can be opened.
  ghost predicate SoundFile(file: seq<Page>) {
    SoundDisk(file) && |file| <= MAX_DISK_ID + 1
  }

  // What catalogs enforce on names and ids.
  ghost predicate MetadataOk(w: World) {
    && (forall t | t in w.tables ::
          && 0 < t < INVALID_ID && w.tables[t].id == t && w.tables[t].name != [] && w.tables[t].schema != []
          && Normal(w.tables[t].name))
    && (forall a, b | a in w.tables && b in w.tables && a != b :: w.tables[a].name != w.tables[b].name)
    && (forall i | i in w.indexes :: Normal(w.indexes[i].name))
    && (forall a, b | a in w.indexes && b in w.indexes && a != b ::
          && w.indexes[a].name != w.indexes[b].name
          && (w.indexes[a].table != w.indexes[b].table || w.indexes[a].column != w.indexes[b].column))
  }

  // The files hold the database w, with the given catalog contents.
  ghost predicate Stores(files: Files, w: World, tableLog: seq<Table>, indexLog: seq<IndexEntry>) {
    && SoundFile(files.tableCatalog) && TablesAfter(Stripped(files.tableCatalog), tableLog)
    && SoundFile(files.indexCatalog) && CatalogAfter(Stripped(files.indexCatalog), indexLog)
    && HistoryOk(indexLog) && IsLatest(indexLog, w.indexes) && Logged(tableLog, w.tables)
    && MetadataOk(w) && WorldOk(w)
    && HoldsAll(files.tables, w.heaps) && HoldsAll(files.indexes, w.trees)
  }

  ghost predicate HoldsAll(files: map<Word64, seq<Page>>, views: map<Word64, seq<Page>>) {
    && files.Keys == views.Keys
    && forall id | id in files :: SoundFile(files[id]) && Stripped(files[id]) == views[id]
  }

  // ---- single files ----

  // What the pool's destructor does.
  method FlushFile(pool: BufferPoolManager) returns (file: seq<Page>)
    requires Idle(pool)
    modifies pool
    ensures Idle(pool) && FileView(pool) == old(FileView(pool))
    ensures SoundFile(file) && Stripped(file) == FileView(pool)
  {
    hide StateOk, ViewOf, OrderOf, SoundDisk, Strip;
    var status := pool.FlushAllPages();
    SizeFacts(pool.Now());
    return pool.disk;
  }

  method OpenFile(file: seq<Page>) returns (pool: BufferPoolManager)
    requires SoundFile(file)
    ensures fresh(pool) && Idle(pool) && FileView(pool) == Stripped(file)
  {
    hide StateOk, ViewOf, OrderOf, SoundDisk, Strip;
    pool := new BufferPoolManager(file, DEFAULT_FRAMES);
  }

  // ---- closing ----

  lemma MetadataStored(s: PersistentStorage)
    requires s.Valid()
    ensures MetadataOk(s.Now())
  {
    hide HeapFile, TreeFile, Agrees, Normal, PersistentStorage.Linked, FileView;
    var w := s.Now();
    forall a, b | a in w.indexes && b in w.indexes && a != b
      ensures w.indexes[a].name != w.indexes[b].name
      ensures w.indexes[a].table != w.indexes[b].table || w.indexes[a].column != w.indexes[b].column
    {
      assert SameButRoot(s.catalog.indexesById[a], w.indexes[a]);
      assert SameButRoot(s.catalog.indexesById[b], w.indexes[b]);
    }
  }

  // What has been written back so far.
  ghost predicate Written(files: map<Word64, seq<Page>>, views: map<Word64, seq<Page>>, ids: seq<Word64>) {
    && (forall id :: id in files <==> id in ids)
    && (forall id | id in files :: id in views && SoundFile(files[id]) && Stripped(files[id]) == views[id])
  }

  lemma WrittenMore(files: map<Word64, seq<Page>>, views: map<Word64, seq<Page>>, ids: seq<Word64>, k: nat, file: seq<Page>)
    requires k < |ids| && Written(files, views, ids[..k]) && ids[k] in views
    requires SoundFile(file) && Stripped(file) == views[ids[k]]
    ensures Written(files[ids[k] := file], views, ids[..k + 1])
  {
    hide SoundFile, Stripped;
    assert ids[..k + 1] == ids[..k] + [ids[k]];
  }

  lemma WrittenAll<V>(files: map<Word64, seq<Page>>, views: map<Word64, seq<Page>>, ids: seq<Word64>, m: map<Word64, V>)
    requires Written(files, views, ids[..|ids|]) && KeysOf(m, ids) && m.Keys == views.Keys
    ensures HoldsAll(files, views)
  {
    hide SoundFile, Stripped;
    assert ids[..|ids|] == ids;
    forall id ensures id in files <==> id in views {
      assert id in m.Keys <==> id in views.Keys;
    }
    assert files.Keys == views.Keys;
  }

  method CloseTables(s: PersistentStorage) returns (files: map<Word64, seq<Page>>)
    requires s.Valid()
    modifies s.Pools()
    ensures s.Valid() && s.Now() == old(s.Now())
    ensures HoldsAll(files, s.Heaps())
  {
    hide Idle, FileView, PersistentStorage.Linked, PersistentStorage.Known, PersistentStorage.CatalogsOk, WorldOk, Logged;
    hide SoundFile, Stripped, Written, KeysOf, PersistentStorage.Heaps, PersistentStorage.Trees;
    s.ValidKnown();
    HeapKeys(s);
    ghost var w := s.Now();
    var ids := KeysInOrder(s.tablePages);
    files := map[];
    NothingWritten(w.heaps, ids);
    for k := 0 to |ids|
      invariant s.Valid() && s.Now() == w && unchanged(s) && unchanged(s.catalog)
      invariant Written(files, w.heaps, ids[..k])
    {
      IsKey(s.tablePages, ids, k);
      TablePool(s, ids[k]);
      label L:
      var file := FlushFile(s.tablePages[ids[k]]);
      s.TableFileChanged@L(ids[k]);
      s.StillValid@L();
      WrittenMore(files, w.heaps, ids, k, file);
      files := files[ids[k] := file];
    }
    WrittenAll(files, w.heaps, ids, s.tablePages);
  }

  method CloseIndexes(s: PersistentStorage) returns (files: map<Word64, seq<Page>>)
    requires s.Valid()
    modifies s.Pools()
    ensures s.Valid() && s.Now() == old(s.Now())
    ensures HoldsAll(files, s.Trees())
  {
    hide Idle, FileView, PersistentStorage.Linked, PersistentStorage.Known, PersistentStorage.CatalogsOk, WorldOk, Logged;
    hide SoundFile, Stripped, Written, KeysOf, PersistentStorage.Heaps, PersistentStorage.Trees;
    s.ValidKnown();
    HeapKeys(s);
    ghost var w := s.Now();
    var ids := KeysInOrder(s.indexPages);
    files := map[];
    NothingWritten(w.trees, ids);
    for k := 0 to |ids|
      invariant s.Valid() && s.Now() == w && unchanged(s) && unchanged(s.catalog)
      invariant Written(files, w.trees, ids[..k])
    {
      IsKey(s.indexPages, ids, k);
      IndexPool(s, ids[k]);
      label L:
      var file := FlushFile(s.indexPages[ids[k]]);
      s.IndexFileChanged@L(ids[k]);
      s.StillValid@L();
      WrittenMore(files, w.trees, ids, k, file);
      files := files[ids[k] := file];
    }
    WrittenAll(files, w.trees, ids, s.indexPages);
  }

  lemma NothingWritten(views: map<Word64, seq<Page>>, ids: seq<Word64>)
    ensures Written(map[], views, ids[..0])
  {
  }

  lemma IsKey<V>(m: map<Word64, V>, ids: seq<Word64>, k: nat)
    requires KeysOf(m, ids) && k < |ids|
    ensures ids[k] in m
  {
    assert ids[k] in ids;
  }

  lemma HeapKeys(s: PersistentStorage)
    requires s.Linked()
    ensures s.Heaps().Keys == s.tablePages.Keys && s.Trees().Keys == s.indexPages.Keys
  {
    hide Idle, FileView;
  }

  lemma TablePool(s: PersistentStorage, t: Word64)
    requires s.Valid() && t in s.tablePages
    ensures Idle(s.tablePages[t]) && s.tablePages[t] in s.Pools()
    ensures t in s.Heaps() && s.Heaps()[t] == FileView(s.tablePages[t])
  {
    hide Idle, FileView, WorldOk, PersistentStorage.CatalogsOk;
  }

  lemma IndexPool(s: PersistentStorage, i: Word64)
    requires s.Valid() && i in s.indexPages
    ensures Idle(s.indexPages[i]) && s.indexPages[i] in s.Pools()
    ensures i in s.Trees() && s.Trees()[i] == FileView(s.indexPages[i])
  {
    hide Idle, FileView, WorldOk, PersistentStorage.CatalogsOk;
  }

  // Closing leaves files that hold the whole database.
  method Close(s: PersistentStorage) returns (files: Files)
    requires s.Valid()
    modifies s.Pools()
    ensures s.Valid() && s.Now() == old(s.Now())
    ensures Stores(files, s.Now(), s.tableLog, s.indexLog)
  {
    hide Idle, FileView, PersistentStorage.Linked, PersistentStorage.Known, WorldOk, Logged, HoldsAll, MetadataOk;
    hide SoundFile, Stripped, PersistentStorage.Heaps, PersistentStorage.Trees, CatalogAfter, TablesAfter, HistoryOk, IsLatest;
    s.ValidKnown();
    var tables := CloseTables(s);
    var indexes := CloseIndexes(s);
    s.CatalogsLinked();
    label L:
    var tableCatalog := FlushFile(s.tableCatalog.pool);
    s.CatalogFileChanged@L(s.tableCatalog.pool);
    s.StillValid@L();
    s.CatalogsLinked();
    label M:
    var indexCatalog := FlushFile(s.indexCatalog.pool);
    s.CatalogFileChanged@M(s.indexCatalog.pool);
    s.StillValid@M();
    MetadataStored(s);
    files := Files(tableCatalog, indexCatalog, tables, indexes);
  }

  // ---- opening ----

  // One more table of the list can be loaded.
  lemma LoadStep(list: seq<Table>, k: nat, w: World, loaded: map<Word64, Table>)
    requires k < |list| && Logged(list, w.tables) && Logged(list[..k], loaded) && MetadataOk(w)
    ensures var t := list[k];
      && t.id in w.tables && w.tables[t.id] == t && t.id !in loaded
      && t.id != INVALID_ID && t.id != 0 && t.name != [] && t.schema != []
      && Normal(t.name)
      && (forall other | other in loaded :: loaded[other].name != t.name)
      && Logged(list[..k + 1], loaded[t.id := t])
  {
    hide Normal;
    var t := list[k];
    assert list[..k + 1] == list[..k] + [t] && t in list;
    forall other | other in loaded ensures other != t.id && loaded[other].name != t.name {
      assert loaded[other] in list[..k];
      var i :| 0 <= i < k && list[..k][i] == loaded[other];
      assert list[i] == loaded[other] && list[i] in list && list[i].id != list[k].id;
    }
    LoggedMore(list[..k], loaded, t);
  }

  lemma AllLoaded(list: seq<Table>, tables: map<Word64, Table>, loaded: map<Word64, Table>)
    requires Logged(list, tables) && Logged(list[..|list|], loaded)
    ensures loaded == tables
  {
    assert list[..|list|] == list;
    forall id ensures id in loaded <==> id in tables {
      if id in loaded {
        assert loaded[id] in list;
      }
      if id in tables {
        assert tables[id] in list;
      }
    }
    forall id | id in tables ensures loaded[id] == tables[id] {
      assert tables[id] in list;
    }
  }

  // A list with the same tables.
  lemma SameTables(list: seq<Table>, log: seq<Table>, tables: map<Word64, Table>)
    requires multiset(list) == multiset(log) && Logged(log, tables)
    ensures Logged(list, tables)
  {
    forall t ensures t in list <==> t in log {
      assert t in multiset(list) <==> t in multiset(log);
    }
    forall i, j | 0 <= i < j < |list| ensures list[i].id != list[j].id {
      if list[i].id == list[j].id {
        assert list[i] in log && list[j] in log;
        Twice(list, i, j);
        Once(log, list[i]);
      }
    }
  }

  lemma Twice<T>(s: seq<T>, i: nat, j: nat)
    requires i < j < |s| && s[i] == s[j]
    ensures multiset(s)[s[i]] >= 2
  {
    assert s == s[..j] + [s[j]] + s[j + 1..] && s[i] in s[..j];
  }

  lemma {:induction false} Once(log: seq<Table>, t: Table)
    requires forall i, j | 0 <= i < j < |log| :: log[i].id != log[j].id
    ensures multiset(log)[t] <= 1
  {
    if log != [] {
      var n := |log| - 1;
      Once(log[..n], t);
      assert log == log[..n] + [log[n]];
      forall i | 0 <= i < n ensures log[..n][i] != log[n] {
        assert log[i].id != log[n].id;
      }
    }
  }

  ghost predicate Part(views: map<Word64, seq<Page>>, whole: map<Word64, seq<Page>>) {
    forall id | id in views :: id in whole && views[id] == whole[id]
  }

  lemma PartMore(views: map<Word64, seq<Page>>, whole: map<Word64, seq<Page>>, id: Word64)
    requires Part(views, whole) && id in whole
    ensures Part(views[id := whole[id]], whole)
  {
  }

  lemma PartAll(views: map<Word64, seq<Page>>, whole: map<Word64, seq<Page>>)
    requires Part(views, whole) && views.Keys == whole.Keys
    ensures views == whole
  {
  }

  // The next id is 1, or one more than an id in use.
  ghost predicate NextAfter<V>(next: int, m: map<Word64, V>) {
    next == 1 || exists id :: id in m && next == id + 1
  }

  // A storage that is being opened: its tables have pools of their own.
  ghost predicate Opening(s: PersistentStorage)
    reads s, s.catalog, s.Pools()
  {
    && s.Linked() && s.catalog.Valid() && s.tablePages.Keys == s.catalog.tablesById.Keys
    && s.Heaps().Keys == s.tablePages.Keys
  }

  // Registers one table and opens its file.
  method LoadTable(s: PersistentStorage, table: Table, file: seq<Page>) returns (r: Result<()>)
    requires Opening(s) && SoundFile(file)
    requires table.id !in s.tablePages && table.id != INVALID_ID && table.id != 0
    requires table.name != [] && table.schema != [] && Normal(table.name)
    requires forall other | other in s.catalog.tablesById :: s.catalog.tablesById[other].name != table.name
    modifies s`tablePages, s.catalog
    ensures Opening(s) && r == Ok(()) && unchanged(s.catalog`indexesById)
    ensures s.catalog.tablesById == old(s.catalog.tablesById)[table.id := table]
    ensures unchanged(s.catalog`nextIndexId)
    ensures s.catalog.nextTableId ==
      if table.id >= old(s.catalog.nextTableId) then table.id + 1 else old(s.catalog.nextTableId)
    ensures s.Heaps() == old(s.Heaps())[table.id := Stripped(file)] && s.Trees() == old(s.Trees())
    ensures table.id in s.tablePages && s.tablePages == old(s.tablePages)[table.id := s.tablePages[table.id]]
    ensures fresh(s.tablePages[table.id])
    ensures FileView(s.tableCatalog.pool) == old(FileView(s.tableCatalog.pool))
    ensures FileView(s.indexCatalog.pool) == old(FileView(s.indexCatalog.pool))
  {
    hide Idle, FileView, PersistentStorage.Linked, TablesOk, IndexesOk, Normal, NormalizeIdentifier;
    hide SoundFile, Stripped, PersistentStorage.Heaps, PersistentStorage.Trees;
    IsNormal(table.name);
    label L:
    var status := s.catalog.LoadTable(table.id, table.name, table.schema);
    if status.Err? {
      return Forward(status);
    }
    var pool := OpenFile(file);
    s.tablePages := s.tablePages[table.id := pool];
    s.TableFileAdded@L(table.id, pool);
    return Ok(());
  }

  // Registers every table of the list and opens its file.
  method LoadTables(s: PersistentStorage, files: map<Word64, seq<Page>>, list: seq<Table>, ghost w: World)
    returns (r: Result<()>)
    requires Opening(s) && s.tablePages == map[] && s.catalog.tablesById == map[] && s.catalog.nextTableId == 1
    requires Logged(list, w.tables) && MetadataOk(w) && HoldsAll(files, w.heaps) && w.heaps.Keys == w.tables.Keys
    modifies s`tablePages, s.catalog
    ensures r == Ok(()) && Opening(s) && s.catalog.tablesById == w.tables
    ensures unchanged(s.catalog`nextIndexId) && NextAfter(s.catalog.nextTableId, w.tables)
    ensures unchanged(s.catalog`indexesById) && s.Heaps() == w.heaps && s.Trees() == old(s.Trees())
    ensures forall id | id in s.tablePages :: fresh(s.tablePages[id])
    ensures FileView(s.tableCatalog.pool) == old(FileView(s.tableCatalog.pool))
    ensures FileView(s.indexCatalog.pool) == old(FileView(s.indexCatalog.pool))
  {
    hide Idle, FileView, PersistentStorage.Linked, Logged, TablesOk, IndexesOk, Normal, NormalizeIdentifier, MetadataOk;
    hide SoundFile, Stripped, PersistentStorage.Heaps, PersistentStorage.Trees, Part;
    s.CatalogsLinked();
    ghost var trees, views := s.Trees(), (FileView(s.tableCatalog.pool), FileView(s.indexCatalog.pool));
    NothingLoaded(list, s.Heaps(), w.heaps);
    for k := 0 to |list|
      invariant Opening(s) && unchanged(s.catalog`indexesById) && unchanged(s`indexPages)
      invariant unchanged(s.catalog`nextIndexId) && NextAfter(s.catalog.nextTableId, s.catalog.tablesById)
      invariant Logged(list[..k], s.catalog.tablesById) && Part(s.Heaps(), w.heaps) && s.Trees() == trees
      invariant forall id | id in s.tablePages :: fresh(s.tablePages[id])
      invariant Idle(s.tableCatalog.pool) && Idle(s.indexCatalog.pool)
      invariant (FileView(s.tableCatalog.pool), FileView(s.indexCatalog.pool)) == views
    {
      LoadStep(list, k, w, s.catalog.tablesById);
      var table := list[k];
      if table.id !in files {
        return Err(NotFound);
      }
      PartMore(s.Heaps(), w.heaps, table.id);
      NextStays(s.catalog.nextTableId, s.catalog.tablesById, table.id, table);
      r := LoadTable(s, table, files[table.id]);
      s.CatalogsLinked();
      if r.Err? {
        return;
      }
    }
    AllLoaded(list, w.tables, s.catalog.tablesById);
    PartAll(s.Heaps(), w.heaps);
    return Ok(());
  }

  lemma NextStays<V>(next: int, m: map<Word64, V>, id: Word64, v: V)
    requires NextAfter(next, m) && id !in m
    ensures NextAfter(next, m[id := v]) && NextAfter(id + 1, m[id := v])
  {
    if next != 1 {
      var x :| x in m && next == x + 1;
      assert x in m[id := v];
    }
    assert id in m[id := v];
  }

  lemma NothingLoaded(list: seq<Table>, views: map<Word64, seq<Page>>, whole: map<Word64, seq<Page>>)
    ensures Logged(list[..0], map[])
    ensures views.Keys == {} ==> Part(views, whole)
  {
  }

  lemma IsNormal(name: seq<Byte>)
    requires Normal(name)
    ensures NormalizeIdentifier(name) == name
  {
  }

  // ---- indexes ----

  // The list has every index once.
  ghost predicate Listed(list: seq<IndexEntry>, indexes: map<Word64, IndexEntry>) {
    && (forall i, j | 0 <= i < j < |list| :: list[i].id != list[j].id)
    && (forall id | id in indexes :: indexes[id].id == id)
    && (forall e :: e in list <==> e.id in indexes && indexes[e.id] == e)
  }

  lemma NewestListed(log: seq<IndexEntry>, list: seq<IndexEntry>, indexes: map<Word64, IndexEntry>)
    requires LatestList(log, list) && IsLatest(log, indexes) && forall id | id in indexes :: indexes[id].id == id
    ensures Listed(list, indexes)
  {
  }

  lemma IndexStep(list: seq<IndexEntry>, k: nat, w: World, loaded: map<Word64, IndexEntry>)
    requires k < |list| && Listed(list, w.indexes) && Listed(list[..k], loaded) && MetadataOk(w) && WorldOk(w) && HeapsOk(w)
    ensures var e := list[k];
      && e.id in w.indexes && w.indexes[e.id] == e && e.id !in loaded
      && MetaOk(w, e.id) && TreeOk(w, e.id)
    ensures var e := list[k];
      && Normal(e.name)
      && (forall other | other in loaded ::
            loaded[other].name != e.name && (loaded[other].table != e.table || loaded[other].column != e.column))
      && Listed(list[..k + 1], loaded[e.id := e])
  {
    hide Normal, HeapFile, TreeFile, Agrees, HeapsOk, WorldOk, MetaOk, TreeOk;
    var e := list[k];
    assert list[..k + 1] == list[..k] + [e] && e in list;
    IndexParts(w, e.id);
    forall other | other in loaded
      ensures other != e.id && other in w.indexes && w.indexes[other] == loaded[other]
    {
      assert loaded[other] in list[..k];
      var i :| 0 <= i < k && list[..k][i] == loaded[other];
      assert list[i] == loaded[other] && list[i] in list && list[i].id != list[k].id;
    }
    ListedMore(list[..k], loaded, e);
  }

  lemma IndexParts(w: World, i: Word64)
    requires WorldOk(w) && HeapsOk(w) && i in w.indexes
    ensures MetaOk(w, i) && TreeOk(w, i)
  {
    hide HeapsOk, TreeFile, Agrees;
    assert IndexOk(w, i);
  }

  lemma ListedMore(list: seq<IndexEntry>, indexes: map<Word64, IndexEntry>, e: IndexEntry)
    requires Listed(list, indexes) && e.id !in indexes
    ensures Listed(list + [e], indexes[e.id := e])
  {
    var after := indexes[e.id := e];
    forall x ensures x in list + [e] <==> x.id in after && after[x.id] == x {
      assert x in list ==> x.id != e.id;
    }
    forall i | 0 <= i < |list| ensures list[i].id != e.id {
      assert list[i] in list;
    }
  }

  lemma AllListed(list: seq<IndexEntry>, indexes: map<Word64, IndexEntry>, loaded: map<Word64, IndexEntry>)
    requires Listed(list, indexes) && Listed(list[..|list|], loaded)
    ensures loaded == indexes
  {
    assert list[..|list|] == list;
    forall id ensures id in loaded <==> id in indexes {
      if id in loaded {
        assert loaded[id] in list;
      }
      if id in indexes {
        assert indexes[id] in list;
      }
    }
    forall id | id in indexes ensures loaded[id] == indexes[id] {
      assert indexes[id] in list;
    }
  }

  // Opens one index file at its recorded root and registers the index.
  method LoadIndex(s: PersistentStorage, e: IndexEntry, file: seq<Page>) returns (r: Result<()>)
    requires Opening(s) && SoundFile(file) && TreeFile(Stripped(file), e.root)
    requires e.id !in s.indexPages && EntryOk(e) && Normal(e.name)
    requires e.table in s.catalog.tablesById && e.column < |s.catalog.tablesById[e.table].schema|
    requires s.catalog.tablesById[e.table].schema[e.column].kind == IntType
    requires e.id !in s.catalog.indexesById && forall other | other in s.catalog.indexesById ::
      && s.catalog.indexesById[other].name != e.name
      && (s.catalog.indexesById[other].table != e.table || s.catalog.indexesById[other].column != e.column)
    modifies s`indexPages, s`indexesById, s.catalog
    ensures Opening(s) && r == Ok(()) && unchanged(s.catalog`tablesById)
    ensures s.catalog.indexesById == old(s.catalog.indexesById)[e.id := e]
    ensures unchanged(s.catalog`nextTableId)
    ensures s.catalog.nextIndexId ==
      if e.id >= old(s.catalog.nextIndexId) then e.id + 1 else old(s.catalog.nextIndexId)
    ensures s.indexesById == old(s.indexesById)[e.id := e]
    ensures s.Heaps() == old(s.Heaps()) && s.Trees() == old(s.Trees())[e.id := Stripped(file)]
    ensures e.id in s.indexPages && s.indexPages == old(s.indexPages)[e.id := s.indexPages[e.id]]
    ensures FileView(s.tableCatalog.pool) == old(FileView(s.tableCatalog.pool))
    ensures FileView(s.indexCatalog.pool) == old(FileView(s.indexCatalog.pool))
  {
    hide Idle, FileView, PersistentStorage.Linked, TablesOk, IndexesOk, Normal, NormalizeIdentifier, TreeFile;
    hide SoundFile, Stripped, PersistentStorage.Heaps, PersistentStorage.Trees;
    label L:
    var table := s.catalog.FindTableById(e.table);
    if table.Err? || e.column >= |table.value.schema| || table.value.schema[e.column].kind != IntType {
      return Err(Corruption);
    }
    var pool := OpenFile(file);
    var tree := OpenTree(pool, e.root);
    if tree.Err? {
      return tree;
    }
    IsNormal(e.name);
    var status := s.catalog.LoadIndex(e);
    if status.Err? {
      return Forward(status);
    }
    s.indexPages := s.indexPages[e.id := pool];
    s.indexesById := s.indexesById[e.id := e];
    s.IndexFileAdded@L(e.id, pool);
    return Ok(());
  }

  method OpenTree(pool: BufferPoolManager, root: Word64) returns (r: Result<()>)
    requires Idle(pool) && TreeFile(FileView(pool), root)
    modifies pool
    ensures Idle(pool) && FileView(pool) == old(FileView(pool)) && r == Ok(())
  {
    hide StateOk, ViewOf, OrderOf, SoundDisk, TreeFile;
    var tree := BPlusTree.Open(pool, root, root);
    if tree.Err? {
      return Forward(tree);
    }
    return Ok(());
  }

  method LoadIndexes(s: PersistentStorage, files: map<Word64, seq<Page>>, list: seq<IndexEntry>, ghost w: World)
    returns (r: Result<()>)
    requires Opening(s) && s.indexPages == map[] && s.indexesById == map[] && s.catalog.indexesById == map[]
    requires s.catalog.nextIndexId == 1
    requires s.catalog.tablesById == w.tables && HeapsOk(w) && WorldOk(w) && MetadataOk(w)
    requires Listed(list, w.indexes) && HoldsAll(files, w.trees)
    modifies s`indexPages, s`indexesById, s.catalog
    ensures r == Ok(()) && Opening(s) && unchanged(s.catalog`tablesById)
    ensures s.catalog.indexesById == s.indexesById == w.indexes
    ensures unchanged(s.catalog`nextTableId) && NextAfter(s.catalog.nextIndexId, w.indexes)
    ensures s.Heaps() == old(s.Heaps()) && s.Trees() == w.trees
    ensures FileView(s.tableCatalog.pool) == old(FileView(s.tableCatalog.pool))
    ensures FileView(s.indexCatalog.pool) == old(FileView(s.indexCatalog.pool))
  {
    hide Idle, FileView, PersistentStorage.Linked, Listed, TablesOk, IndexesOk, Normal, NormalizeIdentifier, MetadataOk;
    hide SoundFile, Stripped, PersistentStorage.Heaps, PersistentStorage.Trees, Part, WorldOk, HeapsOk, TreeFile;
    s.CatalogsLinked();
    HeapKeys(s);
    ghost var heaps, views := s.Heaps(), (FileView(s.tableCatalog.pool), FileView(s.indexCatalog.pool));
    NothingListed(list, s.Trees(), w.trees);
    for k := 0 to |list|
      invariant Opening(s) && unchanged(s.catalog`tablesById) && unchanged(s`tablePages)
      invariant unchanged(s.catalog`nextTableId) && NextAfter(s.catalog.nextIndexId, s.catalog.indexesById)
      invariant Listed(list[..k], s.indexesById) && s.catalog.indexesById == s.indexesById
      invariant s.Trees().Keys == s.indexPages.Keys == s.indexesById.Keys
      invariant Part(s.Trees(), w.trees) && s.Heaps() == heaps
      invariant Idle(s.tableCatalog.pool) && Idle(s.indexCatalog.pool)
      invariant (FileView(s.tableCatalog.pool), FileView(s.indexCatalog.pool)) == views
    {
      IndexStep(list, k, w, s.indexesById);
      var e := list[k];
      if e.id !in files {
        return Err(NotFound);
      }
      PartMore(s.Trees(), w.trees, e.id);
      NextStays(s.catalog.nextIndexId, s.catalog.indexesById, e.id, e);
      r := LoadIndex(s, e, files[e.id]);
      s.CatalogsLinked();
      if r.Err? {
        return;
      }
    }
    AllListed(list, w.indexes, s.indexesById);
    TreeKeys(w);
    PartAll(s.Trees(), w.trees);
    return Ok(());
  }

  lemma TreeKeys(w: World)
    requires WorldOk(w)
    ensures w.trees.Keys == w.indexes.Keys
  {
  }

  lemma NothingListed(list: seq<IndexEntry>, views: map<Word64, seq<Page>>, whole: map<Word64, seq<Page>>)
    ensures Listed(list[..0], map[])
    ensures views.Keys == {} ==> Part(views, whole)
  {
  }

  // ---- the whole database ----

  method ReadTables(store: CatalogStore, ghost log: seq<Table>) returns (r: Result<seq<Table>>)
    requires Idle(store.pool) && TablesAfter(FileView(store.pool), log)
    modifies store.pool
    ensures Idle(store.pool) && FileView(store.pool) == old(FileView(store.pool))
    ensures r.Ok? && multiset(r.value) == multiset(log)
  {
    hide StateOk, ViewOf, OrderOf, SoundDisk, TablesAfter;
    r := store.Load();
  }

  method ReadIndexes(store: IndexCatalogStore, ghost log: seq<IndexEntry>) returns (r: Result<seq<IndexEntry>>)
    requires Idle(store.pool) && CatalogAfter(FileView(store.pool), log) && HistoryOk(log)
    modifies store.pool
    ensures Idle(store.pool) && FileView(store.pool) == old(FileView(store.pool))
    ensures r.Ok? && LatestList(log, r.value)
  {
    hide StateOk, ViewOf, OrderOf, SoundDisk, CatalogAfter, HistoryOk, LatestList;
    r := store.Load();
  }

  lemma WorldParts(w: World)
    requires WorldOk(w)
    ensures HeapsOk(w) && w.heaps.Keys == w.tables.Keys && w.trees.Keys == w.indexes.Keys
    ensures forall id | id in w.indexes :: w.indexes[id].id == id
  {
    hide HeapFile, TreeFile, Agrees;
    forall id | id in w.indexes ensures w.indexes[id].id == id {
      assert IndexOk(w, id);
    }
  }

  lemma Opened(s: PersistentStorage, w: World)
    requires Opening(s) && s.catalog.tablesById == w.tables && s.catalog.indexesById == s.indexesById == w.indexes
    requires s.Heaps() == w.heaps && s.Trees() == w.trees && WorldOk(w) && Logged(s.tableLog, w.tables)
    requires TablesAfter(FileView(s.tableCatalog.pool), s.tableLog) && s.VersionsOk()
    ensures s.Valid() && s.Now() == w
    ensures forall t | t in w.tables :: t < s.catalog.nextTableId
    ensures forall i | i in w.indexes :: i < s.catalog.nextIndexId
  {
    hide Idle, FileView, WorldOk, Logged, TablesAfter, CatalogAfter, HistoryOk, IsLatest, Normal;
    hide PersistentStorage.Heaps, PersistentStorage.Trees, PersistentStorage.Linked, PersistentStorage.VersionsOk;
    assert s.Tables() == w.tables;
    assert s.Now() == w;
    s.MakesValid();
  }

  // The second half of opening, after the tables.
  method OpenIndexes(s: PersistentStorage, files: map<Word64, seq<Page>>, ghost w: World) returns (r: Result<()>)
    requires Opening(s) && s.indexPages == map[] && s.indexesById == map[] && s.catalog.indexesById == map[]
    requires s.catalog.nextIndexId == 1
    requires s.catalog.tablesById == w.tables && s.Heaps() == w.heaps && HeapsOk(w) && WorldOk(w) && MetadataOk(w)
    requires HoldsAll(files, w.trees) && IsLatest(s.indexLog, w.indexes) && HistoryOk(s.indexLog) && Logged(s.tableLog, w.tables)
    requires TablesAfter(FileView(s.tableCatalog.pool), s.tableLog)
    requires CatalogAfter(FileView(s.indexCatalog.pool), s.indexLog)
    modifies s`indexPages, s`indexesById, s.catalog, s.indexCatalog.pool
    ensures r == Ok(()) && s.Valid() && s.Now() == w
    ensures s.catalog.tablesById == w.tables && s.catalog.indexesById == w.indexes
    ensures unchanged(s.catalog`nextTableId) && NextAfter(s.catalog.nextIndexId, w.indexes)
    ensures forall t | t in w.tables :: t < s.catalog.nextTableId
    ensures forall i | i in w.indexes :: i < s.catalog.nextIndexId
  {
    hide Idle, FileView, TablesOk, IndexesOk, MetadataOk, SoundFile, Stripped, WorldOk, HeapsOk, HoldsAll, Logged, Listed;
    hide TablesAfter, CatalogAfter, HistoryOk, IsLatest, LatestList;
    hide PersistentStorage.Heaps, PersistentStorage.Trees, PersistentStorage.Linked;
    WorldParts(w);
    s.CatalogsLinked();
    label L:
    var indexes := ReadIndexes(s.indexCatalog, s.indexLog);
    if indexes.Err? {
      return Forward(indexes);
    }
    s.CatalogFileChanged@L(s.indexCatalog.pool);
    NewestListed(s.indexLog, indexes.value, w.indexes);
    r := LoadIndexes(s, files, indexes.value, w);
    if r.Err? {
      return;
    }
    Opened(s, w);
  }

  // Opening the files of a database restores it: the same tables with the same
  // rows, the same indexes with the same entries. The catalog is complete, and
  // the ids it will hand out next are the least above all ids in use.
  method Open(files: Files, ghost w: World, ghost tableLog: seq<Table>, ghost indexLog: seq<IndexEntry>)
    returns (r: Result<PersistentStorage>)
    requires Stores(files, w, tableLog, indexLog)
    ensures r.Ok? && fresh(r.value) && fresh(r.value.catalog) && r.value.Valid() && r.value.Now() == w
    ensures r.value.catalog.tablesById == w.tables && r.value.catalog.indexesById == w.indexes
    ensures forall t | t in w.tables :: t < r.value.catalog.nextTableId
    ensures forall i | i in w.indexes :: i < r.value.catalog.nextIndexId
    ensures NextAfter(r.value.catalog.nextTableId, w.tables) && NextAfter(r.value.catalog.nextIndexId, w.indexes)
  {
    hide Idle, FileView, TablesOk, IndexesOk, MetadataOk, SoundFile, Stripped, WorldOk, HeapsOk, HoldsAll, Logged, Listed;
    hide TablesAfter, CatalogAfter, HistoryOk, IsLatest, LatestList;
    var s := StartOpening(files, tableLog, indexLog);
    var tables := ReadTables(s.tableCatalog, tableLog);
    if tables.Err? {
      return Forward(tables);
    }
    SameTables(tables.value, tableLog, w.tables);
    WorldParts(w);
    var loadedTables := LoadTables(s, files.tables, tables.value, w);
    if loadedTables.Err? {
      return Forward(loadedTables);
    }
    var restored := OpenIndexes(s, files.indexes, w);
    if restored.Err? {
      return Forward(restored);
    }
    return Ok(s);
  }

  // A storage that has opened its two catalog files and nothing else.
  method StartOpening(files: Files, ghost tableLog: seq<Table>, ghost indexLog: seq<IndexEntry>)
    returns (s: PersistentStorage)
    requires SoundFile(files.tableCatalog) && SoundFile(files.indexCatalog)
    ensures fresh(s) && fresh(s.catalog) && fresh(s.tableCatalog.pool) && fresh(s.indexCatalog.pool)
    ensures Opening(s) && s.tablePages == map[] && s.indexPages == map[] && s.indexesById == map[]
    ensures s.catalog.tablesById == map[] && s.catalog.indexesById == map[]
    ensures s.catalog.nextTableId == 1 && s.catalog.nextIndexId == 1
    ensures s.tableLog == tableLog && s.indexLog == indexLog
    ensures FileView(s.tableCatalog.pool) == Stripped(files.tableCatalog)
    ensures FileView(s.indexCatalog.pool) == Stripped(files.indexCatalog)
  {
    hide Idle, FileView, TablesOk, IndexesOk, SoundFile, Stripped;
    var catalog := new InMemoryCatalog();
    var tablePool := OpenFile(files.tableCatalog);
    var indexPool := OpenFile(files.indexCatalog);
    var tableCatalog := new CatalogStore(tablePool);
    var indexCatalog := new IndexCatalogStore(indexPool);
    s := new PersistentStorage.Over(catalog, tableCatalog, indexCatalog);
    s.tableLog, s.indexLog := tableLog, indexLog;
  }

  // An empty directory is the empty database.
  lemma EmptyDirectory()
    ensures Stores(Files([], [], map[], map[]), World(map[], map[], map[], map[]), [], [])
  {
    hide DecodeIndex, DecodeTable;
    assert Stripped([]) == [];
    assert ShelvesOf([], Catalog) == [];
    assert TableCatalogs.RecordForms([]) == [] && IndexCatalogs.RecordForms([]) == [];
  }
}
