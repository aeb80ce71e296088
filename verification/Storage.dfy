// The persistent storage: one file of pages per table and per index, the two
// catalogs, and the statements that keep them in agreement.
module Storage {
  import opened Results
  import opened ByteCodec
  import opened Pages
  import opened BufferPool
  import opened PageManager
  import opened TreeModel
  import opened TreeContents
  import TreeStore
  import opened NodeCodec
  import opened IndexFiles
  import opened BPlusTrees
  import opened FirstFit
  import opened RecordFiles
  import opened RecordCodec
  import opened TableHeaps
  import opened IndexCodec
  import opened OrderedMaps
  import opened IndexCatalogs
  import opened Catalogs
  import opened TableCatalogs
  import opened IndexedTables

  const DEFAULT_FRAMES: nat := 16

  // What the file behind an idle pool reads.
  ghost function FileView(pool: BufferPoolManager): seq<Page>
    requires Idle(pool)
    reads pool
  {
    pool.View()
  }

  class PersistentStorage {
    const catalog: InMemoryCatalog
    const tableCatalog: CatalogStore
    const indexCatalog: IndexCatalogStore
    var tablePages: map<Word64, BufferPoolManager>
    var indexPages: map<Word64, BufferPoolManager>
    var indexesById: map<Word64, IndexEntry>
    ghost var tableLog: seq<Table>
    ghost var indexLog: seq<IndexEntry>

    ghost function Pools(): set<BufferPoolManager>
      reads this`tablePages, this`indexPages
    {
      tablePages.Values + indexPages.Values + {tableCatalog.pool, indexCatalog.pool}
    }

    // No two files share a pool.
    ghost predicate Apart()
      reads this`tablePages, this`indexPages
    {
      && (forall a, b | a in tablePages && b in tablePages && a != b :: tablePages[a] != tablePages[b])
      && (forall a, b | a in indexPages && b in indexPages && a != b :: indexPages[a] != indexPages[b])
      && (forall a, b | a in tablePages && b in indexPages :: tablePages[a] != indexPages[b])
      && (forall a | a in tablePages :: tablePages[a] != tableCatalog.pool && tablePages[a] != indexCatalog.pool)
      && (forall a | a in indexPages :: indexPages[a] != tableCatalog.pool && indexPages[a] != indexCatalog.pool)
      && tableCatalog.pool != indexCatalog.pool
    }

    ghost predicate Linked()
      reads this`tablePages, this`indexPages, Pools()
    {
      && Apart()
      && (forall id | id in tablePages :: Idle(tablePages[id]))
      && (forall id | id in indexPages :: Idle(indexPages[id]))
      && Idle(tableCatalog.pool) && Idle(indexCatalog.pool)
    }

    ghost function Heaps(): map<Word64, seq<Page>>
      requires Linked()
      reads this`tablePages, this`indexPages, Pools()
    {
      map id | id in tablePages :: FileView(tablePages[id])
    }

    ghost function Trees(): map<Word64, seq<Page>>
      requires Linked()
      reads this`tablePages, this`indexPages, Pools()
    {
      map id | id in indexPages :: FileView(indexPages[id])
    }

    // The tables that have a file.
    ghost function Tables(): map<Word64, Table>
      requires tablePages.Keys <= catalog.tablesById.Keys
      reads this`tablePages, catalog`tablesById
    {
      map id | id in tablePages :: catalog.tablesById[id]
    }

    ghost function Now(): World
      requires Linked() && tablePages.Keys <= catalog.tablesById.Keys
      reads this, catalog, Pools()
    {
      World(Tables(), Heaps(), indexesById, Trees())
    }

    // The index catalog holds the versions appended so far, and the newest ones
    // are in use.
    ghost predicate VersionsOk()
      requires Linked()
      reads this`tablePages, this`indexPages, this`indexesById, this`indexLog, Pools()
    {
      CatalogAfter(FileView(indexCatalog.pool), indexLog) && HistoryOk(indexLog) && IsLatest(indexLog, indexesById)
    }

    // Both catalog files hold what was appended.
    ghost predicate CatalogsOk()
      requires Linked()
      reads this, Pools()
    {
      TablesAfter(FileView(tableCatalog.pool), tableLog) && VersionsOk()
    }

    ghost predicate IndexesKnown()
      reads this`indexesById, catalog`indexesById
    {
      forall i | i in indexesById ::
        i in catalog.indexesById && SameButRoot(catalog.indexesById[i], indexesById[i])
    }

    // Both catalogs in memory have the same index metadata.
    ghost predicate InStep()
      reads this`indexesById, catalog`indexesById
    {
      catalog.indexesById == indexesById
    }

    // The in-memory catalog has every table and index that has a file.
    ghost predicate Known()
      reads this`tablePages, this`indexesById, catalog
    {
      catalog.Valid() && tablePages.Keys <= catalog.tablesById.Keys && IndexesKnown()
    }

    ghost predicate Valid()
      reads this, catalog, Pools()
    {
      Linked() && Known() && CatalogsOk() && Logged(tableLog, Tables()) && WorldOk(Now())
    }

    constructor Over(catalog: InMemoryCatalog, tableCatalog: CatalogStore, indexCatalog: IndexCatalogStore)
      ensures this.catalog == catalog && this.tableCatalog == tableCatalog && this.indexCatalog == indexCatalog
      ensures tablePages == map[] && indexPages == map[] && indexesById == map[] && tableLog == [] && indexLog == []
    {
      this.catalog, this.tableCatalog, this.indexCatalog := catalog, tableCatalog, indexCatalog;
      tablePages, indexPages, indexesById := map[], map[], map[];
      tableLog, indexLog := [], [];
    }

    // ---- frames ----

    lemma CatalogsLinked()
      requires Linked()
      ensures Idle(indexCatalog.pool) && Idle(tableCatalog.pool) && tableCatalog.pool != indexCatalog.pool
      ensures indexCatalog.pool in Pools() && tableCatalog.pool in Pools()
    {
    }

    lemma IndexLinked(i: Word64)
      requires Linked() && i in indexPages
      ensures Idle(indexPages[i]) && indexPages[i] in Pools()
      ensures indexPages[i] != indexCatalog.pool && indexPages[i] != tableCatalog.pool
      ensures i in Trees() && Trees()[i] == FileView(indexPages[i])
    {
    }

    lemma TableLinked(t: Word64)
      requires Linked() && t in tablePages
      ensures Idle(tablePages[t]) && tablePages[t] in Pools()
      ensures tablePages[t] != indexCatalog.pool && tablePages[t] != tableCatalog.pool
      ensures t in Heaps() && Heaps()[t] == FileView(tablePages[t])
    {
    }

    // Work on one pool leaves the other files alone.
    twostate lemma OnePoolChanged(p: BufferPoolManager)
      requires forall q | q in old(Pools()) && q != p :: unchanged(q)
      requires old(Linked()) && p in old(Pools()) && Idle(p)
      requires unchanged(this`tablePages) && unchanged(this`indexPages)
      ensures Linked()
    {
      hide Idle;
      forall id | id in tablePages ensures Idle(tablePages[id]) {
        assert tablePages[id] in old(Pools());
      }
      forall id | id in indexPages ensures Idle(indexPages[id]) {
        assert indexPages[id] in old(Pools());
      }
    }

    twostate lemma ViewsKept(p: BufferPoolManager)
      requires forall q | q in old(Pools()) && q != p :: unchanged(q)
      requires old(Linked()) && Linked() && p in old(Pools())
      requires unchanged(this`tablePages) && unchanged(this`indexPages)
      ensures forall id | id in tablePages && tablePages[id] != p :: FileView(tablePages[id]) == old(FileView(tablePages[id]))
      ensures forall id | id in indexPages && indexPages[id] != p :: FileView(indexPages[id]) == old(FileView(indexPages[id]))
    {
      hide Idle, FileView;
      forall id | id in tablePages && tablePages[id] != p ensures FileView(tablePages[id]) == old(FileView(tablePages[id])) {
        assert tablePages[id] in old(Pools());
      }
      forall id | id in indexPages && indexPages[id] != p ensures FileView(indexPages[id]) == old(FileView(indexPages[id])) {
        assert indexPages[id] in old(Pools());
      }
    }

    twostate lemma IndexFileChanged(i: Word64)
      requires i in indexPages && forall q | q in old(Pools()) && q != indexPages[i] :: unchanged(q)
      requires old(Linked()) && Idle(indexPages[i])
      requires unchanged(this`tablePages) && unchanged(this`indexPages)
      ensures Linked()
      ensures Heaps() == old(Heaps()) && Trees() == old(Trees())[i := FileView(indexPages[i])]
      ensures FileView(tableCatalog.pool) == old(FileView(tableCatalog.pool))
      ensures FileView(indexCatalog.pool) == old(FileView(indexCatalog.pool))
    {
      hide Idle, FileView;
      assert indexPages[i] in old(Pools());
      OnePoolChanged(indexPages[i]);
      ViewsKept(indexPages[i]);
      CatalogViewsKept(indexPages[i]);
    }

    twostate lemma TableFileChanged(t: Word64)
      requires t in tablePages && forall q | q in old(Pools()) && q != tablePages[t] :: unchanged(q)
      requires old(Linked()) && Idle(tablePages[t])
      requires unchanged(this`tablePages) && unchanged(this`indexPages)
      ensures Linked()
      ensures Trees() == old(Trees()) && Heaps() == old(Heaps())[t := FileView(tablePages[t])]
      ensures FileView(tableCatalog.pool) == old(FileView(tableCatalog.pool))
      ensures FileView(indexCatalog.pool) == old(FileView(indexCatalog.pool))
    {
      hide Idle, FileView;
      assert tablePages[t] in old(Pools());
      OnePoolChanged(tablePages[t]);
      ViewsKept(tablePages[t]);
      CatalogViewsKept(tablePages[t]);
    }

    twostate lemma CatalogFileChanged(p: BufferPoolManager)
      requires forall q | q in old(Pools()) && q != p :: unchanged(q)
      requires old(Linked()) && (p == tableCatalog.pool || p == indexCatalog.pool) && Idle(p)
      requires unchanged(this`tablePages) && unchanged(this`indexPages)
      ensures Linked()
      ensures Trees() == old(Trees()) && Heaps() == old(Heaps())
      ensures p != tableCatalog.pool ==> FileView(tableCatalog.pool) == old(FileView(tableCatalog.pool))
      ensures p != indexCatalog.pool ==> FileView(indexCatalog.pool) == old(FileView(indexCatalog.pool))
    {
      hide Idle, FileView;
      OnePoolChanged(p);
      ViewsKept(p);
      CatalogViewsKept(p);
    }

    // Changes to the catalog objects leave all files alone.
    twostate lemma NoFileChanged()
      requires forall q | q in old(Pools()) :: unchanged(q)
      requires old(Linked())
      requires unchanged(this`tablePages) && unchanged(this`indexPages)
      ensures Linked() && Trees() == old(Trees()) && Heaps() == old(Heaps())
      ensures FileView(tableCatalog.pool) == old(FileView(tableCatalog.pool))
      ensures FileView(indexCatalog.pool) == old(FileView(indexCatalog.pool))
    {
      hide Idle, FileView;
      assert indexCatalog.pool in old(Pools()) && tableCatalog.pool in old(Pools());
      CatalogFileChanged(indexCatalog.pool);
      CatalogViewsKept(tableCatalog.pool);
    }

    // A new file next to the others.
    twostate lemma TableFileAdded(t: Word64, new p: BufferPoolManager)
      requires forall q | q in old(Pools()) :: unchanged(q)
      requires old(Linked()) && p !in old(Pools()) && Idle(p) && t !in old(tablePages)
      requires unchanged(this`indexPages) && tablePages == old(tablePages)[t := p]
      ensures Linked() && Trees() == old(Trees()) && Heaps() == old(Heaps())[t := FileView(p)]
      ensures FileView(tableCatalog.pool) == old(FileView(tableCatalog.pool))
      ensures FileView(indexCatalog.pool) == old(FileView(indexCatalog.pool))
    {
      hide Idle, FileView;
      assert indexCatalog.pool in old(Pools()) && tableCatalog.pool in old(Pools());
      forall id | id in old(tablePages)
        ensures Idle(tablePages[id]) && tablePages[id] != p && FileView(tablePages[id]) == old(FileView(tablePages[id]))
      {
        assert tablePages[id] == old(tablePages)[id] && tablePages[id] in old(Pools());
      }
      forall id | id in old(indexPages)
        ensures Idle(indexPages[id]) && indexPages[id] != p && FileView(indexPages[id]) == old(FileView(indexPages[id]))
      {
        assert indexPages[id] in old(Pools());
      }
    }

    twostate lemma IndexFileAdded(i: Word64, new p: BufferPoolManager)
      requires forall q | q in old(Pools()) :: unchanged(q)
      requires old(Linked()) && p !in old(Pools()) && Idle(p) && i !in old(indexPages)
      requires unchanged(this`tablePages) && indexPages == old(indexPages)[i := p]
      ensures Linked() && Heaps() == old(Heaps()) && Trees() == old(Trees())[i := FileView(p)]
      ensures FileView(tableCatalog.pool) == old(FileView(tableCatalog.pool))
      ensures FileView(indexCatalog.pool) == old(FileView(indexCatalog.pool))
    {
      hide Idle, FileView;
      assert indexCatalog.pool in old(Pools()) && tableCatalog.pool in old(Pools());
      forall id | id in old(tablePages)
        ensures Idle(tablePages[id]) && tablePages[id] != p && FileView(tablePages[id]) == old(FileView(tablePages[id]))
      {
        assert tablePages[id] in old(Pools());
      }
      forall id | id in old(indexPages)
        ensures Idle(indexPages[id]) && indexPages[id] != p && FileView(indexPages[id]) == old(FileView(indexPages[id]))
      {
        assert indexPages[id] == old(indexPages)[id] && indexPages[id] in old(Pools());
      }
    }

    twostate lemma CatalogViewsKept(p: BufferPoolManager)
      requires forall q | q in old(Pools()) && q != p :: unchanged(q)
      requires old(Linked()) && Linked() && p in old(Pools())
      ensures p != tableCatalog.pool ==> FileView(tableCatalog.pool) == old(FileView(tableCatalog.pool))
      ensures p != indexCatalog.pool ==> FileView(indexCatalog.pool) == old(FileView(indexCatalog.pool))
    {
      hide Idle, FileView;
      assert tableCatalog.pool in old(Pools()) && indexCatalog.pool in old(Pools());
    }

    // ---- one index ----

    method SearchIndex(id: Word64, key: Int64) returns (r: Result<Rid>)
      requires Linked() && id in indexesById && id in indexPages
      requires TreeFile(FileView(indexPages[id]), indexesById[id].root)
      modifies indexPages[id]
      ensures Linked() && Heaps() == old(Heaps()) && Trees() == old(Trees())
      ensures FileView(tableCatalog.pool) == old(FileView(tableCatalog.pool))
      ensures FileView(indexCatalog.pool) == old(FileView(indexCatalog.pool))
      ensures var entries := FileEntries(old(FileView(indexPages[id])), indexesById[id].root);
        r == if key in MapOf(entries) then Ok(MapOf(entries)[key]) else Err(NotFound)
    {
      hide StateOk, ViewOf, OrderOf, SoundDisk, TreeFile, FileEntries, Decodes, MapOf;
      var pool := indexPages[id];
      label L:
      var tree := BPlusTree.Open(pool, indexesById[id].root, indexesById[id].root);
      if tree.Err? {
        return Forward(tree);
      }
      r := tree.value.Search(key);
      IndexFileChanged@L(id);
    }

    // A file has used up its page ids.
    ghost predicate Exhausted()
      reads this, Pools()
    {
      exists p :: p in Pools() && |p.disk| == 0x10_0000_0000_0000
    }

    // Then the next page of some file would begin at a byte offset of 64 bits.
    lemma ExhaustedExactly()
      ensures Exhausted() <==> exists p :: p in Pools() && |p.disk| * 4096 == 0x1_0000_0000_0000_0000
    {
    }

    // Makes a page the recorded root of an index, in both catalogs.
    method RecordRoot(id: Word64, root: Word64) returns (r: Result<()>)
      requires Linked() && Known() && VersionsOk() && id in indexesById && root != INVALID_ID
      modifies this`indexesById, this`indexLog, catalog`indexesById, indexCatalog.pool
      ensures Linked() && Heaps() == old(Heaps()) && Trees() == old(Trees())
      ensures FileView(tableCatalog.pool) == old(FileView(tableCatalog.pool))
      ensures r.Ok? ==> Known() && VersionsOk()
      ensures r.Ok? ==> indexesById == old(indexesById)[id := old(indexesById)[id].(root := root)]
      ensures r.Ok? ==> catalog.indexesById == old(catalog.indexesById)[id := old(catalog.indexesById)[id].(root := root)]
      ensures r.Err? ==> r.error == OutOfRange && Exhausted()
    {
      hide Idle, FileView, CatalogAfter, HistoryOk, IsLatest, Readable, IndexesOk, TablesOk, Linked;
      CatalogsLinked();
      var updated := indexesById[id].(root := root);
      LogRecordable(FileView(indexCatalog.pool), indexLog);
      VersionAppended(indexLog, indexesById, id, root);
      label L:
      r := AppendVersion(indexCatalog, updated, indexLog);
      CatalogFileChanged@L(indexCatalog.pool);
      label M:
      if r.Err? {
        assert indexCatalog.pool in Pools();
        return;
      }
      var status := catalog.UpdateIndexRoot(id, root);
      if status.Err? {
        return status;
      }
      indexesById := indexesById[id := updated];
      indexLog := indexLog + [updated];
      NoFileChanged@M();
    }

    // Adds a key to one index and records the new root page when there is one.
    method InsertIntoIndex(id: Word64, key: Int64, rid: Rid) returns (r: Result<()>)
      requires Linked() && Known() && VersionsOk() && RidValid(rid)
      requires TreeOk(Now(), id) && key !in MapOf(EntriesOf(Now(), id))
      modifies this`indexesById, this`indexLog, catalog`indexesById, indexPages[id], indexCatalog.pool
      ensures Linked()
      ensures r.Ok? ==> Known() && VersionsOk() && KeyAdded(old(Now()), Now(), id, Entry(key, rid))
      ensures r.Ok? && old(InStep()) ==> InStep()
      ensures r.Ok? ==> FileView(tableCatalog.pool) == old(FileView(tableCatalog.pool))
      ensures r.Err? ==> r.error == OutOfRange && Exhausted()
    {
      hide Idle, IndexesKnown, CatalogAfter, HistoryOk, IsLatest, Readable, IndexesOk, TablesOk, Linked, TreeFile, FileEntries, MapOf;
      hide Inserted, KeyAdded;
      IndexLinked(id);
      CatalogsLinked();
      ghost var was := Now();
      label L:
      var root := InsertIntoTree(indexPages[id], indexesById[id].root, key, rid);
      IndexFileChanged@L(id);
      if root.Err? {
        assert indexPages[id] in Pools();
        return Forward(root);
      }
      ghost var view := FileView(indexPages[id]);
      if root.value != indexesById[id].root {
        r := RecordRoot(id, root.value);
        if r.Err? {
          return;
        }
      }
      KeyAddedHow(was, Now(), id, Entry(key, rid), view, root.value);
      return Ok(());
    }

    // ---- statements ----

    twostate lemma VersionsKept()
      requires old(Linked()) && old(VersionsOk()) && Linked()
      requires unchanged(this`indexesById) && unchanged(this`indexLog)
      requires FileView(indexCatalog.pool) == old(FileView(indexCatalog.pool))
      ensures VersionsOk()
    {
      hide Idle, FileView, Linked, CatalogAfter, HistoryOk, IsLatest;
    }

    // What validity consists of.
    lemma MakesValid()
      requires Linked() && Known() && VersionsOk() && TablesAfter(FileView(tableCatalog.pool), tableLog)
      requires Logged(tableLog, Tables()) && WorldOk(Now())
      ensures Valid()
    {
    }

    twostate lemma StillValid()
      requires old(Valid()) && Linked() && Heaps() == old(Heaps()) && Trees() == old(Trees())
      requires unchanged(this) && unchanged(catalog)
      requires FileView(tableCatalog.pool) == old(FileView(tableCatalog.pool))
      requires FileView(indexCatalog.pool) == old(FileView(indexCatalog.pool))
      ensures Valid() && Now() == old(Now())
    {
      hide Idle, FileView, Linked, IndexesKnown, TablesAfter, CatalogAfter, HistoryOk, IsLatest, WorldOk, TablesOk, IndexesOk;
      CatalogsLinked();
    }

    // The in-memory catalog may know more than is stored.
    twostate lemma CatalogChanged()
      requires forall q | q in old(Pools()) :: unchanged(q)
      requires old(Valid()) && catalog.Valid() && unchanged(this)
      requires forall t | t in tablePages :: t in catalog.tablesById && catalog.tablesById[t] == old(catalog.tablesById)[t]
      requires IndexesKnown()
      ensures Valid() && Now() == old(Now())
    {
      hide Idle, FileView, Linked, TablesAfter, CatalogAfter, HistoryOk, IsLatest, WorldOk, TablesOk, IndexesOk, Logged;
      hide VersionsOk, IndexesKnown, Heaps, Trees;
      NoFileChanged();
      VersionsKept();
      assert Tables() == old(Tables());
      MakesValid();
    }

    // The same when a catalog file may be damaged.
    twostate lemma CatalogMoved()
      requires forall q | q in old(Pools()) :: unchanged(q)
      requires old(Linked() && Known()) && catalog.Valid() && unchanged(this)
      requires forall t | t in tablePages :: t in catalog.tablesById && catalog.tablesById[t] == old(catalog.tablesById)[t]
      requires IndexesKnown()
      ensures Linked() && Known() && Now() == old(Now())
      ensures FileView(tableCatalog.pool) == old(FileView(tableCatalog.pool))
      ensures FileView(indexCatalog.pool) == old(FileView(indexCatalog.pool))
    {
      hide Idle, FileView, Linked, TablesOk, IndexesOk, IndexesKnown, Heaps, Trees;
      NoFileChanged();
      assert Tables() == old(Tables());
    }

    // The table that a statement refers to.
    ghost predicate Bound(table: Table)
      reads this, catalog
    {
      table.id in tablePages && table.id in catalog.tablesById && catalog.tablesById[table.id] == table
    }

    lemma BoundTable(table: Table)
      requires Valid() && Bound(table)
      ensures WorldOk(Now()) && HeapsOk(Now()) && table.id in Now().tables && Now().tables[table.id] == table
      ensures HeapFile(FileView(tablePages[table.id]), table.schema)
      ensures Now().indexes == indexesById
    {
      hide HeapFile, TreeFile, Agrees, CatalogsOk;
    }

    // The first pass of an insertion looks every key up.
    method FindDuplicate(table: Table, tuple: Tuple) returns (r: Result<()>)
      requires Valid() && Bound(table) && Matches(table.schema, tuple)
      modifies Pools()
      ensures Valid() && Now() == old(Now()) && Bound(table)
      ensures HeapsOk(Now()) && table.id in Now().tables
      ensures r == if Duplicate(Now(), table.id, tuple) then Err(AlreadyExists) else Ok(())
    {
      hide Idle, FileView, Linked, IndexesKnown, TablesAfter, CatalogAfter, HistoryOk, IsLatest, WorldOk, TablesOk, IndexesOk, HeapsOk;
      hide Matches, TreeOk, EntriesOf, DuplicateIn, MapOf, MetaOk;
      BoundTable(table);
      ghost var w := Now();
      var ids := KeysInOrder(indexesById);
      for k := 0 to |ids|
        invariant Valid() && Now() == w && Bound(table)
        invariant unchanged(this) && unchanged(catalog)
        invariant forall j | 0 <= j < k :: !DuplicateIn(w, ids[j], table.id, tuple)
      {
        assert ids[k] in ids;
        var id := ids[k];
        if indexesById[id].table != table.id {
          OtherTable(w, id, table.id, tuple);
          continue;
        }
        NewKey(w, table.id, tuple, id);
        label L:
        IndexInWorld(id);
        var existing := SearchIndex(id, tuple[indexesById[id].column].number);
        StillValid@L();
        if existing.Ok? {
          return Err(AlreadyExists);
        }
        if existing.error != NotFound {
          return Forward(existing);
        }
      }
      return Ok(());
    }

    // Inserts a row into its table and all indexes of the table, or changes
    // nothing: a tuple that repeats an indexed value or that the encoder does not
    // take is refused, and otherwise no index insertion can find its key taken.
    // What remains are files that have used up their page ids, and tuples that
    // encode and that no page can hold: those spoil the file of their table, and
    // nothing else.
    method Insert(table: Table, tuple: Tuple) returns (r: Result<Rid>)
      requires Valid() && Bound(table) && Matches(table.schema, tuple)
      modifies this`indexesById, this`indexLog, catalog`indexesById, Pools()
      ensures Linked()
      ensures HeapsOk(old(Now())) && table.id in old(Now()).tables
      ensures Duplicate(old(Now()), table.id, tuple) ==>
        r == Err(AlreadyExists) && Valid() && Now() == old(Now()) && unchanged(this) && unchanged(catalog)
      ensures r.Ok? && old(InStep()) ==> InStep()
      ensures r.Ok? ==> Valid() && Bound(table) && RowAdded(old(Now()), Now(), table.id, Row(r.value, tuple))
      ensures r.Ok? ==> Storable(table.schema, tuple)
      ensures r.Err? && Storable(table.schema, tuple) && !Duplicate(old(Now()), table.id, tuple) ==>
        r.error == OutOfRange && Exhausted()
      ensures !Storable(table.schema, tuple) && !Duplicate(old(Now()), table.id, tuple) ==>
        && r.Err? && unchanged(this) && unchanged(catalog) && Known() && CatalogsOk()
        && if Damages(old(Now()), table.id, tuple) then
             r.error == ResourceExhausted && HeapSpoiled(old(Now()), Now(), table.id)
           else
             && Valid() && Now() == old(Now())
             && (r.error == ResourceExhausted || (r.error == OutOfRange && Exhausted()))
    {
      hide Idle, FileView, Linked, IndexesKnown, TablesAfter, CatalogAfter, HistoryOk, IsLatest, WorldOk, TablesOk, IndexesOk, HeapsOk;
      hide Matches, TreeOk, EntriesOf, DuplicateIn, MapOf, MetaOk, RowAdded, KeyAdded, Halfway, Storable, Duplicate;
      BoundTable(table);
      ghost var was := Now();
      var checked := FindDuplicate(table, tuple);
      if checked.Err? {
        return Forward(checked);
      }
      r := InsertNew(table, tuple, was);
    }

    // The row goes into its table's file, or the file refuses it.
    method InsertRow(table: Table, tuple: Tuple, ghost was: World) returns (r: Result<Rid>)
      requires Valid() && Bound(table) && Matches(table.schema, tuple) && was == Now()
      requires HeapsOk(was) && table.id in was.tables
      modifies Pools()
      ensures Linked() && Known() && CatalogsOk() && Bound(table)
      ensures FileView(tableCatalog.pool) == old(FileView(tableCatalog.pool))
      ensures r.Ok? ==>
        && Storable(table.schema, tuple) && RidValid(r.value)
        && Halfway(was, Now(), table.id, Row(r.value, tuple), [])
      ensures r.Err? && Storable(table.schema, tuple) ==> r.error == OutOfRange && Exhausted()
      ensures !Storable(table.schema, tuple) ==>
        && r.Err?
        && if Damages(was, table.id, tuple) then r.error == ResourceExhausted && HeapSpoiled(was, Now(), table.id)
           else
             && Valid() && Now() == was
             && (r.error == ResourceExhausted || (r.error == OutOfRange && Exhausted()))
    {
      hide Idle, FileView, Linked, IndexesKnown, TablesAfter, CatalogAfter, HistoryOk, IsLatest, WorldOk, TablesOk, IndexesOk, HeapsOk;
      hide Matches, RowAdded, Halfway, Storable, Logged, VersionsOk, Tables, Damages, HeapSpoiled, Refuses;
      BoundTable(table);
      label L:
      TableLinked(table.id);
      CatalogsLinked();
      r := InsertIntoHeap(tablePages[table.id], table.schema, tuple);
      TableFileChanged@L(table.id);
      VersionsKept@L();
      if r.Ok? {
        HeapInserted(was, Now(), table.id, Row(r.value, tuple));
        return;
      }
      assert tablePages[table.id] in Pools();
      RefusedWorld(was, Now(), table.id, tuple, r.error);
      StorableRefused(was, Now(), table.id, tuple, r.error);
      if Now() == was {
        StillValid@L();
      }
    }

    // An insertion after its first pass.
    method InsertNew(table: Table, tuple: Tuple, ghost was: World) returns (r: Result<Rid>)
      requires Valid() && Bound(table) && Matches(table.schema, tuple) && was == Now()
      requires HeapsOk(was) && table.id in was.tables && !Duplicate(was, table.id, tuple)
      modifies this`indexesById, this`indexLog, catalog`indexesById, Pools()
      ensures Linked()
      ensures r.Ok? ==> Valid() && Bound(table) && RowAdded(was, Now(), table.id, Row(r.value, tuple))
      ensures r.Ok? ==> Storable(table.schema, tuple)
      ensures r.Ok? && old(InStep()) ==> InStep()
      ensures r.Err? && Storable(table.schema, tuple) ==> r.error == OutOfRange && Exhausted()
      ensures !Storable(table.schema, tuple) ==>
        && r.Err? && unchanged(this) && unchanged(catalog) && Known() && CatalogsOk()
        && if Damages(was, table.id, tuple) then r.error == ResourceExhausted && HeapSpoiled(was, Now(), table.id)
           else
             && Valid() && Now() == was
             && (r.error == ResourceExhausted || (r.error == OutOfRange && Exhausted()))
    {
      hide Idle, FileView, Linked, IndexesKnown, TablesAfter, CatalogAfter, HistoryOk, IsLatest, WorldOk, TablesOk, IndexesOk, HeapsOk;
      hide Matches, TreeOk, EntriesOf, DuplicateIn, MapOf, MetaOk, RowAdded, KeyAdded, Halfway, Storable, Duplicate;
      hide Logged, VersionsOk, Tables;
      r := InsertRow(table, tuple, was);
      if r.Err? {
        return;
      }
      var status := InsertIntoIndexes(table, tuple, r.value, was);
      if status.Err? {
        return Forward(status);
      }
      RowAddedFacts(was, Now(), table.id, Row(r.value, tuple));
      MakesValid();
    }

    // Gives a table that the in-memory catalog has its own file and its place in
    // the table catalog. A failure leaves all tables and indexes as they were,
    // and except for metadata too long for a page also the catalog.
    method CreateTable(table: Table) returns (r: Result<()>)
      requires Valid() && table.id in catalog.tablesById && catalog.tablesById[table.id] == table
      modifies this`tablePages, this`tableLog, tableCatalog.pool
      ensures Linked()
      ensures table.id in old(tablePages) ==> r == Err(AlreadyExists) && Valid() && Now() == old(Now())
      ensures r.Ok? ==> Valid() && Now() == WithTable(old(Now()), table, []) && TableFits(table.name, table.schema)
      ensures r.Ok? ==> tablePages.Keys == old(tablePages.Keys) + {table.id}
      ensures r.Err? ==> unchanged(this) && Known() && VersionsOk() && Now() == old(Now())
      ensures r.Err? ==> FileView(indexCatalog.pool) == old(FileView(indexCatalog.pool))
      ensures r.Err? && table.id !in old(tablePages) ==>
        TableRefused(table.name, table.schema, old(FileView(tableCatalog.pool)), FileView(tableCatalog.pool),
          r.error, Exhausted(), Valid())
    {
      hide TablesOk, IndexesOk, Idle, FileView, Linked, IndexesKnown, TablesAfter, CatalogAfter, HistoryOk, IsLatest;
      hide WorldOk, HeapsOk, RowsOf, Logged, VersionsOk, TableFits, MetadataDamages, Spoiled;
      if table.id in tablePages {
        return Err(AlreadyExists);
      }
      hide Heaps, Trees, Tables;
      ghost var was := Now();
      CatalogsLinked();
      TablesFacts();
      TableCreated(Now(), table);
      LoggedMore(tableLog, Tables(), table);
      var pool := NewFile();
      label L:
      r := AppendTable(tableCatalog, table, tableLog);
      CatalogFileChanged@L(tableCatalog.pool);
      VersionsKept@L();
      if r.Err? {
        if FileView(tableCatalog.pool) == old(FileView(tableCatalog.pool)) {
          StillValid@L();
        }
        return;
      }
      TakeIntoUse(table, pool, was);
    }

    method TakeIntoUse(table: Table, pool: BufferPoolManager, ghost was: World)
      requires Linked() && Known() && VersionsOk() && Now() == was && Idle(pool) && pool !in Pools() && FileView(pool) == []
      requires table.id !in tablePages && table.id in catalog.tablesById && catalog.tablesById[table.id] == table
      requires TablesAfter(FileView(tableCatalog.pool), tableLog + [table])
      requires Logged(tableLog + [table], was.tables[table.id := table]) && WorldOk(WithTable(was, table, []))
      modifies this`tablePages, this`tableLog
      ensures Valid() && Now() == WithTable(was, table, []) && tablePages.Keys == old(tablePages.Keys) + {table.id}
    {
      hide TablesOk, IndexesOk, Idle, FileView, Linked, IndexesKnown, TablesAfter, CatalogAfter, HistoryOk, IsLatest;
      hide WorldOk, HeapsOk, Logged, VersionsOk, Heaps, Trees, Tables;
      label M:
      tablePages := tablePages[table.id := pool];
      tableLog := tableLog + [table];
      TableFileAdded@M(table.id, pool);
      VersionsKept@M();
      TableInUse@M(table);
      assert Now() == WithTable(was, table, []);
      MakesValid();
    }

    twostate lemma TableInUse(t: Table)
      requires old(tablePages.Keys <= catalog.tablesById.Keys) && catalog.tablesById == old(catalog.tablesById)
      requires t.id in tablePages && tablePages == old(tablePages)[t.id := tablePages[t.id]]
      requires t.id in catalog.tablesById && catalog.tablesById[t.id] == t
      ensures Tables() == old(Tables())[t.id := t]
    {
    }

    // Nothing happened to the storage.
    twostate lemma Undisturbed()
      requires forall q | q in old(Pools()) :: unchanged(q)
      requires old(Valid()) && unchanged(this) && unchanged(catalog)
      ensures Valid() && Now() == old(Now())
    {
    }

    lemma StorageKeys()
      requires Valid()
      ensures Now().tables.Keys == tablePages.Keys && Now().indexes == indexesById
    {
      hide Linked, CatalogsOk, WorldOk, Logged, TablesOk, IndexesOk;
    }

    lemma TablesFacts()
      requires Valid()
      ensures HeapsOk(Now()) && forall t | t in catalog.tablesById :: catalog.tablesById[t].id == t && t != 0 && t != INVALID_ID
      ensures Tables().Keys == tablePages.Keys
    {
      hide HeapFile, TreeFile, Agrees, CatalogsOk, FileView;
    }

    // Builds an index over the rows of a table. Rows that share a key make the
    // statement fail; so do a table with more rows than a file has pages, and an
    // index catalog that cannot take the metadata. A failure leaves all tables
    // and indexes as they were, and except for a name too long for a page also
    // the catalog.
    method CreateIndex(index: IndexEntry) returns (r: Result<Word64>)
      requires Valid() && index.id in catalog.indexesById && catalog.indexesById[index.id] == index
      requires index.table in tablePages && index.column < |catalog.tablesById[index.table].schema|
      requires catalog.tablesById[index.table].schema[index.column].kind == IntType
      modifies this`indexPages, this`indexesById, this`indexLog, Pools()
      ensures Linked() && HeapsOk(old(Now())) && index.table in old(Now()).tables
      ensures r.Ok? ==>
        && Valid() && r.value != INVALID_ID && index.id in indexPages
        && Now() == WithIndex(old(Now()), index.(root := r.value), FileView(indexPages[index.id]))
        && UniqueColumn(RowsOf(old(Now()), index.table), index.column) && NameFits(index.name)
      ensures r.Err? ==> unchanged(this) && Known() && Now() == old(Now())
      ensures r.Err? ==> FileView(tableCatalog.pool) == old(FileView(tableCatalog.pool))
      ensures r.Err? && index.id !in old(indexPages) && index.root == INVALID_ID ==>
        IndexRefused(RowsOf(old(Now()), index.table), index.column, index.name,
          old(FileView(indexCatalog.pool)), FileView(indexCatalog.pool), r.error, Exhausted(), Valid())
    {
      hide TablesOk, IndexesOk, Idle, FileView, Linked, IndexesKnown, TablesAfter, CatalogAfter, HistoryOk, IsLatest, WorldOk, HeapsOk, RowsOf;
      hide UniqueColumn, HasKey, Agrees, TreeFile, FileEntries, HeapFile, RidValid, WithIndex, NameFits, EntryOk, NameDamages, Spoiled;
      hide IndexCatalogs.Recordable;
      ghost var was := Now();
      NewIndexFacts(index);
      if index.id == INVALID_ID || index.root != INVALID_ID {
        return Err(InvalidArgument);
      }
      if index.id in indexPages {
        return Err(AlreadyExists);
      }
      var pool := NewFile();
      var table := catalog.FindTableById(index.table);
      if table.Err? {
        return Forward(table);
      }
      var root := IndexTable(index, pool);
      if root.Err? {
        return root;
      }
      r := Publish(index.(root := root.value), pool);
    }

    // Fills a file that the storage does not use yet with the keys of a table.
    method IndexTable(index: IndexEntry, pool: BufferPoolManager) returns (r: Result<Word64>)
      requires Valid() && Idle(pool) && pool !in Pools() && FileView(pool) == []
      requires index.table in tablePages && index.column < |catalog.tablesById[index.table].schema|
      requires catalog.tablesById[index.table].schema[index.column].kind == IntType
      requires HeapsOk(Now()) && index.table in Now().tables
      modifies pool, tablePages[index.table]
      ensures Valid() && Now() == old(Now()) && Idle(pool) && pool !in Pools()
      ensures FileView(tableCatalog.pool) == old(FileView(tableCatalog.pool))
      ensures r.Ok? ==>
        && r.value != INVALID_ID && TreeFile(FileView(pool), r.value)
        && Agrees(FileEntries(FileView(pool), r.value), RowsOf(Now(), index.table), index.column)
        && UniqueColumn(RowsOf(Now(), index.table), index.column)
      ensures r.Err? ==>
        || (r.error == OutOfRange && |RowsOf(Now(), index.table)| > MAX_DISK_ID)
        || (r.error == AlreadyExists && !UniqueColumn(RowsOf(Now(), index.table), index.column))
    {
      hide TablesOk, IndexesOk, Idle, Linked, IndexesKnown, TablesAfter, CatalogAfter, HistoryOk, IsLatest, WorldOk, HeapsOk, RowsOf;
      hide UniqueColumn, Agrees, TreeFile, FileEntries, HeapFile, Rows, Known, CatalogsOk;
      TableInWorld(index.table);
      label L:
      r := BuildIndex(pool, tablePages[index.table], catalog.tablesById[index.table].schema, index.column);
      TableFileChanged@L(index.table);
      StillValid@L();
    }

    lemma TableInWorld(t: Word64)
      requires Valid() && t in tablePages && HeapsOk(Now())
      ensures Idle(tablePages[t]) && tablePages[t] in Pools() && t in Heaps() && Heaps()[t] == FileView(tablePages[t])
      ensures t in catalog.tablesById && HeapFile(FileView(tablePages[t]), catalog.tablesById[t].schema)
      ensures RowsOf(Now(), t) == Rows(FileView(tablePages[t]), catalog.tablesById[t].schema)
    {
      hide HeapFile, Rows, TreeFile, FileEntries, Agrees, CatalogsOk, WorldOk;
    }

    // Appends the metadata of a finished index file and takes it into use.
    method Publish(e: IndexEntry, pool: BufferPoolManager) returns (r: Result<Word64>)
      requires Valid() && Idle(pool) && pool !in Pools() && e.id !in indexPages && EntryOk(e)
      requires e.id in catalog.indexesById && SameButRoot(catalog.indexesById[e.id], e)
      requires HeapsOk(Now()) && e.table in Now().tables && e.column < |Now().tables[e.table].schema|
      requires Now().tables[e.table].schema[e.column].kind == IntType
      requires TreeFile(FileView(pool), e.root)
      requires Agrees(FileEntries(FileView(pool), e.root), RowsOf(Now(), e.table), e.column)
      modifies this`indexPages, this`indexesById, this`indexLog, indexCatalog.pool
      ensures Linked()
      ensures r.Ok? ==>
        && r.value == e.root && Valid() && e.id in indexPages
        && Now() == WithIndex(old(Now()), e, FileView(indexPages[e.id]))
      ensures r.Ok? ==> NameFits(e.name)
      ensures r.Err? ==> unchanged(this) && Known() && Now() == old(Now())
      ensures r.Err? ==> FileView(tableCatalog.pool) == old(FileView(tableCatalog.pool))
      ensures r.Err? ==>
        if NameFits(e.name) then r.error == OutOfRange && Exhausted() && Valid()
        else if NameDamages(old(FileView(indexCatalog.pool)), e.name) then
          r.error == ResourceExhausted && Spoiled(old(FileView(indexCatalog.pool)), FileView(indexCatalog.pool), Catalog)
        else Valid() && (r.error == ResourceExhausted || (r.error == OutOfRange && Exhausted()))
    {
      hide TablesOk, IndexesOk, Idle, FileView, Linked, TablesAfter, CatalogAfter, HistoryOk, IsLatest, WorldOk, HeapsOk, RowsOf;
      hide HasKey, Agrees, TreeFile, FileEntries, HeapFile, EntryOk, NameFits, NameDamages, Spoiled;
      hide Tables, Heaps, Trees;
      ghost var was, view := Now(), FileView(pool);
      CatalogsLinked();
      FirstVersion(e);
      IndexCreated(Now(), e, FileView(pool));
      label L:
      var status := AppendFirst(indexCatalog, e, indexLog);
      CatalogFileChanged@L(indexCatalog.pool);
      if status.Err? {
        if FileView(indexCatalog.pool) == old(FileView(indexCatalog.pool)) {
          StillValid@L();
        }
        return Forward(status);
      }
      label M:
      indexPages := indexPages[e.id := pool];
      indexesById := indexesById[e.id := e];
      indexLog := indexLog + [e];
      IndexFileAdded@M(e.id, pool);
      FileInUse(e.id);
      assert Now() == WithIndex(was, e, view);
      MakesValid();
      return Ok(e.root);
    }

    lemma FileInUse(i: Word64)
      requires Linked() && i in indexPages
      ensures i in Trees() && Trees()[i] == FileView(indexPages[i])
    {
    }

    lemma FirstVersion(e: IndexEntry)
      requires Valid() && e.id in catalog.indexesById && SameButRoot(catalog.indexesById[e.id], e) && e.id !in indexPages
      ensures e.id !in indexesById && HistoryOk(indexLog + [e]) && IsLatest(indexLog + [e], indexesById[e.id := e])
    {
      hide HistoryOk, IsLatest, Linked, FileView;
      IndexAppended(indexLog, indexesById, e);
    }

    lemma NewIndexFacts(index: IndexEntry)
      requires Valid() && index.id in catalog.indexesById && catalog.indexesById[index.id] == index
      requires index.table in tablePages
      ensures HeapsOk(Now()) && index.table in Now().tables && Now().tables[index.table] == catalog.tablesById[index.table]
      ensures forall root: Word64 | root != INVALID_ID :: EntryOk(index.(root := root))
      ensures index.id != INVALID_ID
    {
      hide HeapFile, Rows, TreeFile, FileEntries, Agrees, CatalogsOk, TablesOk, IndexesOk, Logged;
      IndexIsComplete(catalog, index);
    }

    method Scan(table: Table) returns (r: Result<seq<Tuple>>)
      requires Valid() && Bound(table)
      modifies Pools()
      ensures Valid() && Now() == old(Now()) && Bound(table)
      ensures HeapsOk(Now()) && table.id in Now().tables && r == Ok(Values(RowsOf(Now(), table.id)))
    {
      hide Idle, FileView, Linked, Known, TablesAfter, CatalogAfter, HistoryOk, IsLatest, WorldOk, HeapsOk, RowsOf;
      hide Values, Logged;
      BoundTable(table);
      ValidKnown();
      TableInWorld(table.id);
      label L:
      r := ScanTable(tablePages[table.id], table.schema);
      TableFileChanged@L(table.id);
      StillValid@L();
    }

    lemma ValidKnown()
      requires Valid()
      ensures Linked() && tablePages.Keys <= catalog.tablesById.Keys
    {
    }

    // Looks a key up in the first index on the column, if there is one, and reads
    // the row it points to.
    method LookupByIndex(table: Table, column: Word64, key: Int64) returns (r: Result<IndexLookup>)
      requires Valid() && Bound(table)
      modifies Pools()
      ensures Valid() && Now() == old(Now()) && Bound(table)
      ensures HeapsOk(Now()) && table.id in Now().tables
      ensures r.Ok? && (r.value.available <==> ColumnIndexed(Now(), table.id, column))
      ensures r.value.available ==> Finds(RowsOf(Now(), table.id), column, key, r.value.tuple)
      ensures !r.value.available ==> r.value.tuple.None?
    {
      hide Idle, FileView, Linked, Known, TablesAfter, CatalogAfter, HistoryOk, IsLatest, WorldOk, HeapsOk, RowsOf;
      hide Finds, MapOf, TreeOk, EntriesOf, Logged;
      ValidKnown();
      BoundTable(table);
      ghost var w := Now();
      var ids := KeysInOrder(indexesById);
      for k := 0 to |ids|
        invariant Valid() && Now() == w && Bound(table)
        invariant unchanged(this) && unchanged(catalog)
        invariant forall j | 0 <= j < k ::
          ids[j] in indexesById && (indexesById[ids[j]].table != table.id || indexesById[ids[j]].column != column)
      {
        assert ids[k] in ids;
        var id := ids[k];
        if indexesById[id].table != table.id || indexesById[id].column != column {
          continue;
        }
        assert ColumnIndexed(w, table.id, column);
        NotFoundMeans(w, id, key);
        FoundMeans(w, id, key);
        r := LookupIn(id, table, key);
        return;
      }
      return Ok(IndexLookup(false, None));
    }

    method LookupIn(id: Word64, table: Table, key: Int64) returns (r: Result<IndexLookup>)
      requires Valid() && Bound(table) && TreeOk(Now(), id) && HeapsOk(Now()) && table.id in Now().tables
      requires key in MapOf(EntriesOf(Now(), id)) ==>
        exists tuple :: Row(MapOf(EntriesOf(Now(), id))[key], tuple) in RowsOf(Now(), table.id)
      modifies Pools()
      ensures Valid() && Now() == old(Now()) && Bound(table) && r.Ok? && r.value.available
      ensures unchanged(this) && unchanged(catalog)
      ensures if key in MapOf(EntriesOf(old(Now()), id)) then
          r.value.tuple.Some? && Row(MapOf(EntriesOf(old(Now()), id))[key], r.value.tuple.value) in RowsOf(old(Now()), table.id)
        else r.value.tuple == None
    {
      hide Idle, FileView, Linked, Known, TablesAfter, CatalogAfter, HistoryOk, IsLatest, WorldOk, HeapsOk, RowsOf;
      hide MapOf, TreeOk, EntriesOf, Logged;
      ValidKnown();
      IndexInWorld(id);
      label L:
      var rid := SearchIndex(id, key);
      StillValid@L();
      if rid.Err? {
        if rid.error == NotFound {
          return Ok(IndexLookup(true, None));
        }
        return Forward(rid);
      }
      r := ReadFound(table, rid.value);
    }

    // Reads a row that an index has found.
    method ReadFound(table: Table, rid: Rid) returns (r: Result<IndexLookup>)
      requires Valid() && Bound(table) && HeapsOk(Now()) && table.id in Now().tables
      requires exists tuple :: Row(rid, tuple) in RowsOf(Now(), table.id)
      modifies Pools()
      ensures Valid() && Now() == old(Now()) && Bound(table) && r.Ok? && r.value.available
      ensures unchanged(this) && unchanged(catalog)
      ensures r.value.tuple.Some? && Row(rid, r.value.tuple.value) in RowsOf(old(Now()), table.id)
    {
      hide Idle, FileView, Linked, Known, TablesAfter, CatalogAfter, HistoryOk, IsLatest, WorldOk, HeapsOk, RowsOf;
      hide Logged;
      ValidKnown();
      BoundTable(table);
      TableInWorld(table.id);
      label M:
      var tuple := ReadRow(tablePages[table.id], table.schema, rid);
      TableFileChanged@M(table.id);
      StillValid@M();
      if tuple.Err? {
        return Forward(tuple);
      }
      return Ok(IndexLookup(true, Some(tuple.value)));
    }

    // The second pass gives every index of the table the new row's key. After
    // the first pass has succeeded it fails only when page ids run out.
    method InsertIntoIndexes(table: Table, tuple: Tuple, rid: Rid, ghost was: World) returns (r: Result<()>)
      requires Linked() && Known() && VersionsOk() && Halfway(was, Now(), table.id, Row(rid, tuple), [])
      requires !Duplicate(was, table.id, tuple) && RidValid(rid)
      modifies this`indexesById, this`indexLog, catalog`indexesById, Pools()
      ensures Linked()
      ensures r.Ok? ==> Known() && VersionsOk() && RowAdded(was, Now(), table.id, Row(rid, tuple))
      ensures r.Ok? && old(InStep()) ==> InStep()
      ensures r.Ok? ==> FileView(tableCatalog.pool) == old(FileView(tableCatalog.pool))
      ensures r.Err? ==> r.error == OutOfRange && Exhausted()
    {
      hide VersionsOk, Idle, FileView, Linked, IndexesKnown, TablesAfter, CatalogAfter, HistoryOk, IsLatest, WorldOk, TablesOk, IndexesOk, HeapsOk;
      hide Matches, TreeOk, EntriesOf, DuplicateIn, MapOf, MetaOk, RowAdded, KeyAdded, Halfway, Storable, Duplicate;
      ghost var row := Row(rid, tuple);
      HalfwayKeys(was, Now(), table.id, row, []);
      CatalogsLinked();
      ghost var catalogView := FileView(tableCatalog.pool);
      var ids := KeysInOrder(indexesById);
      for k := 0 to |ids|
        invariant Linked() && Known() && VersionsOk() && Halfway(was, Now(), table.id, row, ids[..k])
        invariant Idle(tableCatalog.pool) && FileView(tableCatalog.pool) == catalogView
        invariant old(InStep()) ==> InStep()
      {
        assert ids[k] in ids;
        HalfwayKeys(was, Now(), table.id, row, ids[..k]);
        r := InsertIntoNext(table, tuple, rid, ids, k, was);
        CatalogsLinked();
        if r.Err? {
          return;
        }
      }
      assert ids[..|ids|] == ids;
      HalfwayAdded(was, Now(), table.id, row, ids);
      return Ok(());
    }

    // One index of the second pass, if it is an index of the table.
    method InsertIntoNext(table: Table, tuple: Tuple, rid: Rid, ids: seq<Word64>, k: nat, ghost was: World)
      returns (r: Result<()>)
      requires Linked() && Known() && VersionsOk() && k < |ids| && ids[k] in indexesById && Increasing(ids)
      requires Halfway(was, Now(), table.id, Row(rid, tuple), ids[..k])
      requires !Duplicate(was, table.id, tuple) && RidValid(rid)
      modifies this`indexesById, this`indexLog, catalog`indexesById, Pools()
      ensures Linked()
      ensures r.Ok? ==> Known() && VersionsOk() && Halfway(was, Now(), table.id, Row(rid, tuple), ids[..k + 1])
      ensures r.Ok? && old(InStep()) ==> InStep()
      ensures r.Ok? ==> FileView(tableCatalog.pool) == old(FileView(tableCatalog.pool))
      ensures r.Err? ==> r.error == OutOfRange && Exhausted()
    {
      hide VersionsOk, Idle, FileView, Linked, IndexesKnown, TablesAfter, CatalogAfter, HistoryOk, IsLatest, WorldOk, TablesOk, IndexesOk, HeapsOk;
      hide Matches, TreeOk, EntriesOf, DuplicateIn, MapOf, MetaOk, RowAdded, KeyAdded, Halfway, Storable, Duplicate;
      ghost var row := Row(rid, tuple);
      assert ids[..k + 1] == ids[..k] + [ids[k]];
      var id := ids[k];
      CatalogsLinked();
      HalfwayKeys(was, Now(), table.id, row, ids[..k]);
      if indexesById[id].table != table.id {
        HalfwaySkip(was, Now(), table.id, row, ids[..k], id);
        return Ok(());
      }
      NotYet(ids, k);
      ReadyForKey(was, Now(), table.id, row, ids[..k], id);
      ghost var mid := Now();
      IndexFilePresent(id);
      r := InsertIntoIndex(id, tuple[indexesById[id].column].number, rid);
      if r.Ok? {
        HalfwayStep(was, mid, Now(), table.id, row, ids[..k], id);
      }
    }

    lemma IndexFilePresent(id: Word64)
      requires Linked() && tablePages.Keys <= catalog.tablesById.Keys && TreeOk(Now(), id)
      ensures id in indexPages && indexPages[id] in Pools() && indexCatalog.pool in Pools()
    {
    }

    lemma IndexInWorld(id: Word64)
      requires Valid() && TreeOk(Now(), id)
      ensures id in indexesById && id in indexPages && TreeFile(FileView(indexPages[id]), indexesById[id].root)
      ensures EntriesOf(Now(), id) == FileEntries(FileView(indexPages[id]), indexesById[id].root)
      ensures indexPages[id] in Pools()
    {
      hide TreeFile, FileEntries, FileView, Idle, WorldOk, CatalogsOk;
    }
  }

  lemma NotYet(ids: seq<Word64>, k: nat)
    requires k < |ids| && Increasing(ids)
    ensures ids[k] !in ids[..k]
  {
  }

  lemma OtherTable(w: World, i: Word64, t: Word64, tuple: Tuple)
    requires HeapsOk(w) && t in w.tables && i in w.indexes && w.indexes[i].table != t
    ensures !DuplicateIn(w, i, t, tuple)
  {
  }

  // What a refusal of the table file means for the whole database.
  lemma RefusedWorld(was: World, now: World, t: Word64, tuple: Tuple, e: Error)
    requires t in was.tables && t in was.heaps && t in now.heaps
    requires now == was.(heaps := was.heaps[t := now.heaps[t]])
    requires Refuses(was.heaps[t], now.heaps[t], was.tables[t].schema, tuple, e)
    ensures Damages(was, t, tuple) <==> now != was
    ensures Damages(was, t, tuple) ==> e == ResourceExhausted && HeapSpoiled(was, now, t)
    ensures !Damages(was, t, tuple) ==>
      e == ResourceExhausted || (e == OutOfRange && |was.heaps[t]| > MAX_DISK_ID)
  {
    hide Encodable, RecordSize, Readable, Strip, Pages.Create;
    if now.heaps[t] == was.heaps[t] {
      assert now.heaps == was.heaps;
    }
  }

  lemma StorableRefused(was: World, now: World, t: Word64, tuple: Tuple, e: Error)
    requires t in was.tables && t in was.heaps && t in now.heaps
    requires Refuses(was.heaps[t], now.heaps[t], was.tables[t].schema, tuple, e)
    ensures Storable(was.tables[t].schema, tuple) ==>
      e == OutOfRange && |was.heaps[t]| == |now.heaps[t]| == MAX_DISK_ID + 1
  {
    hide Encodable, RecordSize;
  }

  method InsertIntoHeap(pool: BufferPoolManager, schema: Schema, tuple: Tuple) returns (r: Result<Rid>)
    requires Idle(pool) && HeapFile(FileView(pool), schema) && Matches(schema, tuple)
    modifies pool
    ensures Idle(pool) && |pool.disk| == |FileView(pool)| <= MAX_DISK_ID + 1
    ensures r.Ok? ==>
      && Storable(schema, tuple) && RidValid(r.value) && HeapFile(FileView(pool), schema)
      && OneMore(old(Rows(FileView(pool), schema)), Rows(FileView(pool), schema), Row(r.value, tuple))
    ensures r.Err? ==> Refuses(old(FileView(pool)), FileView(pool), schema, tuple, r.error)
  {
    hide StateOk, ViewOf, OrderOf, SoundDisk, Rows, Storable, EncodeRecord, Encodable, Refuses, Matches, Readable;
    var heap := new TableHeap(pool);
    r := heap.Insert(schema, tuple);
    SizeFacts(pool.Now());
  }

  lemma IndexIsComplete(catalog: InMemoryCatalog, index: IndexEntry)
    requires catalog.Valid() && index.id in catalog.indexesById && catalog.indexesById[index.id] == index
    ensures forall root: Word64 | root != INVALID_ID :: EntryOk(index.(root := root))
    ensures index.id != INVALID_ID
  {
    hide Normal;
  }

  // A file without pages.
  method NewFile() returns (pool: BufferPoolManager)
    ensures fresh(pool) && Idle(pool) && FileView(pool) == []
  {
    pool := new BufferPoolManager([], DEFAULT_FRAMES);
  }

  // Fills a new index file with the keys of all rows of a table file.
  method BuildIndex(pool: BufferPoolManager, tablePool: BufferPoolManager, schema: Schema, column: nat)
    returns (r: Result<Word64>)
    requires pool != tablePool && Idle(pool) && FileView(pool) == [] && Idle(tablePool)
    requires HeapFile(FileView(tablePool), schema) && column < |schema| && schema[column].kind == IntType
    modifies pool, tablePool
    ensures Idle(pool) && Idle(tablePool) && FileView(tablePool) == old(FileView(tablePool))
    ensures r.Ok? ==>
      && r.value != INVALID_ID && TreeFile(FileView(pool), r.value)
      && Agrees(FileEntries(FileView(pool), r.value), Rows(FileView(tablePool), schema), column)
      && UniqueColumn(Rows(FileView(tablePool), schema), column)
    ensures r.Err? ==>
      || (r.error == OutOfRange && |Rows(FileView(tablePool), schema)| > MAX_DISK_ID)
      || (r.error == AlreadyExists && !UniqueColumn(Rows(FileView(tablePool), schema), column))
  {
    hide StateOk, ViewOf, OrderOf, SoundDisk, HeapFile, Rows, TreeFile, FileEntries, Agrees, UniqueColumn, HasKey, RidValid;
    hide DecodeNode;
    var created := BPlusTree.Create(pool);
    if created.Err? {
      return Forward(created);
    }
    var tree := created.value;
    var heap := new TableHeap(tablePool);
    SizeFacts(tablePool.Now());
    RowIdsValid(tablePool.View(), schema);
    RowsHaveKeys(tablePool.View(), schema, column);
    var records := heap.ScanWithRecordIds(schema);
    if records.Err? {
      return Forward(records);
    }
    var filled := FillTree(tree, records.value, column);
    if filled.Err? {
      return Forward(filled);
    }
    FileEntriesUnique(pool.View(), tree.rootPageId, tree.store, tree.tree, tree.height);
    RootStored(tree.store, tree.rootPageId, tree.tree, tree.height);
    SizeFacts(pool.Now());
    return Ok(tree.rootPageId);
  }

  method ScanTable(pool: BufferPoolManager, schema: Schema) returns (r: Result<seq<Tuple>>)
    requires Idle(pool) && HeapFile(FileView(pool), schema)
    modifies pool
    ensures Idle(pool) && FileView(pool) == old(FileView(pool))
    ensures r == Ok(Values(Rows(FileView(pool), schema)))
  {
    hide StateOk, ViewOf, OrderOf, SoundDisk, HeapFile, Rows;
    var heap := new TableHeap(pool);
    r := heap.Scan(schema);
  }

  // Reads a row that is there.
  method ReadRow(pool: BufferPoolManager, schema: Schema, rid: Rid) returns (r: Result<Tuple>)
    requires Idle(pool) && HeapFile(FileView(pool), schema)
    requires exists tuple :: Row(rid, tuple) in Rows(FileView(pool), schema)
    modifies pool
    ensures Idle(pool) && FileView(pool) == old(FileView(pool))
    ensures r.Ok? && Row(rid, r.value) in Rows(FileView(pool), schema)
  {
    hide StateOk, ViewOf, OrderOf, SoundDisk, HeapFile, Rows, RidValid;
    SizeFacts(pool.Now());
    RowIdsValid(pool.View(), schema);
    var heap := new TableHeap(pool);
    r := heap.Read(schema, rid);
  }

  // Metadata that encodes but is longer than an empty page takes spoils a table
  // catalog that can get one more page.
  predicate MetadataDamages(view: seq<Page>, name: seq<Byte>, schema: Schema) {
    TableEncodable(name, schema) && Spoils(view, MetadataSize(name, schema))
  }

  // Why the table catalog, which read was and reads now, does not take a table.
  // The storage is valid unless that spoils the catalog.
  ghost predicate TableRefused(name: seq<Byte>, schema: Schema, was: seq<Page>, now: seq<Page>,
                               e: Error, exhausted: bool, valid: bool) {
    if TableFits(name, schema) then e == OutOfRange && exhausted && valid
    else if MetadataDamages(was, name, schema) then e == ResourceExhausted && Spoiled(was, now, Catalog)
    else valid && (e == InvalidArgument || e == ResourceExhausted || (e == OutOfRange && exhausted))
  }

  // Appends a table to a table catalog that holds the given log.
  method AppendTable(store: CatalogStore, t: Table, ghost log: seq<Table>) returns (r: Result<()>)
    requires Idle(store.pool) && TablesAfter(FileView(store.pool), log) && t.id != 0 && t.id != INVALID_ID
    modifies store.pool
    ensures Idle(store.pool)
    ensures r.Ok? ==> TablesAfter(FileView(store.pool), log + [t]) && TableFits(t.name, t.schema)
    ensures var was, now := old(FileView(store.pool)), FileView(store.pool);
      r.Err? ==>
        TableRefused(t.name, t.schema, was, now, r.error, |store.pool.disk| == MAX_DISK_ID + 1, now == was)
  {
    hide StateOk, ViewOf, OrderOf, SoundDisk, TablesAfter, Readable, EncodeTable, TableEncodable, MetadataSize, Spoiled;
    TableLogReadable(FileView(store.pool), log);
    TableEncodableExactly(t);
    TableErrors(t);
    SizeFacts(store.pool.Now());
    r := store.Append(t);
  }

  lemma TableErrors(t: Table)
    ensures EncodeTable(t).Err? ==> EncodeTable(t).error == InvalidArgument || EncodeTable(t).error == ResourceExhausted
  {
    hide TableHeader;
    SchemaErrors(t.schema);
  }

  lemma {:induction false} SchemaErrors(schema: Schema)
    ensures EncodeSchema(schema).Err? ==> EncodeSchema(schema).error == InvalidArgument
  {
    if schema != [] {
      SchemaErrors(schema[1..]);
    }
  }

  lemma TableLogReadable(view: seq<Page>, log: seq<Table>)
    requires TablesAfter(view, log)
    ensures Readable(view, Catalog)
  {
  }

  method AppendFirst(store: IndexCatalogStore, e: IndexEntry, ghost log: seq<IndexEntry>) returns (r: Result<()>)
    requires Idle(store.pool) && CatalogAfter(FileView(store.pool), log) && EntryOk(e)
    modifies store.pool
    ensures Idle(store.pool)
    ensures r.Ok? ==> CatalogAfter(FileView(store.pool), log + [e]) && NameFits(e.name)
    ensures var was, now := old(FileView(store.pool)), FileView(store.pool);
      r.Err? ==>
        if NameFits(e.name) then r.error == OutOfRange && now == was && |store.pool.disk| == MAX_DISK_ID + 1
        else if NameDamages(was, e.name) then r.error == ResourceExhausted && Spoiled(was, now, Catalog)
        else
          && now == was
          && (r.error == ResourceExhausted || (r.error == OutOfRange && |store.pool.disk| == MAX_DISK_ID + 1))
  {
    hide StateOk, ViewOf, OrderOf, SoundDisk, CatalogAfter, Readable, EntryOk, EncodeIndex, Spoiled;
    LogRecordable(FileView(store.pool), log);
    IndexEncodable(e);
    SizeFacts(store.pool.Now());
    r := store.Append(e);
  }

  // A name that encodes but is longer than an empty page takes spoils an index
  // catalog that can get one more page.
  predicate NameDamages(view: seq<Page>, name: seq<Byte>) {
    |name| <= 0xFFFF && Spoils(view, INDEX_HEADER_SIZE + |name|)
  }

  // Why an index is not built: its rows share a key, there are more of them than
  // a file has pages, or the index catalog, which read was and reads now, cannot
  // take its name. The storage is valid unless that spoils the catalog.
  ghost predicate IndexRefused(rows: seq<Row<Tuple>>, column: nat, name: seq<Byte>, was: seq<Page>, now: seq<Page>,
                               e: Error, exhausted: bool, valid: bool) {
    || (e == AlreadyExists && valid && !UniqueColumn(rows, column))
    || (e == OutOfRange && valid && |rows| > MAX_DISK_ID)
    || (UniqueColumn(rows, column) &&
        if NameFits(name) then e == OutOfRange && exhausted && valid
        else if NameDamages(was, name) then e == ResourceExhausted && Spoiled(was, now, Catalog)
        else valid && (e == ResourceExhausted || (e == OutOfRange && exhausted)))
  }

  lemma IndexEncodable(e: IndexEntry)
    requires EntryOk(e)
    ensures EncodeIndex(e).Ok? <==> |e.name| <= 0xFFFF
    ensures EncodeIndex(e).Ok? ==> |EncodeIndex(e).value| == INDEX_HEADER_SIZE + |e.name|
    ensures EncodeIndex(e).Err? ==> EncodeIndex(e).error == ResourceExhausted
  {
    hide IndexHeader;
  }

  // Inserts every row of a table into a new tree.
  method FillTree(tree: BPlusTree, rows: seq<Row<Tuple>>, column: nat) returns (r: Result<()>)
    requires tree.Valid() && Entries(tree.tree) == []
    requires forall r | r in rows :: HasKey(r, column) && RidValid(r.rid)
    modifies tree, tree.pool
    ensures Idle(tree.pool) && tree.pool == old(tree.pool)
    ensures r.Ok? ==> tree.Valid() && Agrees(Entries(tree.tree), rows, column) && UniqueColumn(rows, column)
    ensures r.Err? ==>
      || (r.error == OutOfRange && |rows| > MAX_DISK_ID)
      || (r.error == AlreadyExists && !UniqueColumn(rows, column))
  {
    hide Idle, Decodes, Agrees, MapOf, Inserted, UniqueColumn, HasKey, RidValid, TreeStore.Rep, Ascending;
    NoRows(column);
    for k := 0 to |rows|
      invariant tree.Valid() && tree.pool == old(tree.pool)
      invariant Agrees(Entries(tree.tree), rows[..k], column) && UniqueColumn(rows[..k], column)
      invariant |Entries(tree.tree)| == k
    {
      assert rows[k] in rows;
      TreeAscends(tree.store, tree.rootPageId, tree.tree, tree.height);
      NextRow(Entries(tree.tree), rows, column, k);
      OneLonger(Entries(tree.tree), EntryFor(rows[k], column));
      var status := tree.Insert(EntryFor(rows[k], column).key, rows[k].rid);
      if status.Err? {
        return status;
      }
    }
    assert rows[..|rows|] == rows;
    return Ok(());
  }

  lemma OneLonger(es: seq<Entry>, e: Entry)
    ensures |Inserted(es, e)| == |es| + 1
  {
  }

  lemma NoRows(column: nat)
    ensures Agrees([], [], column) && UniqueColumn([], column)
  {
  }

  lemma TreeAscends(store: seq<Node>, root: nat, t: Tree, height: nat)
    requires TreeStore.Represents(store, root, t, height)
    ensures Ascending(Entries(t))
  {
    WfEntries(t, height, KEY_MIN, KEY_SUP, true);
  }

  // Appends a version that fits a page to a catalog that holds the given log.
  method AppendVersion(store: IndexCatalogStore, e: IndexEntry, ghost log: seq<IndexEntry>) returns (r: Result<()>)
    requires Idle(store.pool) && CatalogAfter(FileView(store.pool), log) && IndexCatalogs.Recordable(e)
    modifies store.pool
    ensures Idle(store.pool)
    ensures r.Ok? ==> CatalogAfter(FileView(store.pool), log + [e])
    ensures r.Err? ==> r.error == OutOfRange && |store.pool.disk| == MAX_DISK_ID + 1
  {
    hide StateOk, ViewOf, OrderOf, SoundDisk, CatalogAfter, Readable;
    LogRecordable(FileView(store.pool), log);
    r := store.Append(e);
  }

  lemma LogRecordable(view: seq<Page>, log: seq<IndexEntry>)
    requires CatalogAfter(view, log)
    ensures IndexCatalogs.AllRecordable(log) && Readable(view, Catalog)
  {
  }

  // One insertion into an index file; the result is the root page afterwards.
  method InsertIntoTree(pool: BufferPoolManager, root: Word64, key: Int64, rid: Rid) returns (r: Result<Word64>)
    requires Idle(pool) && TreeFile(pool.View(), root) && RidValid(rid)
    requires key !in MapOf(FileEntries(pool.View(), root))
    modifies pool
    ensures Idle(pool)
    ensures r.Ok? ==>
      && TreeFile(pool.View(), r.value) && r.value != INVALID_ID
      && FileEntries(pool.View(), r.value) == Inserted(old(FileEntries(pool.View(), root)), Entry(key, rid))
    ensures r.Err? ==> r.error == OutOfRange && |pool.disk| == MAX_DISK_ID + 1
  {
    hide StateOk, ViewOf, OrderOf, SoundDisk, TreeFile, FileEntries, DecodeNode, MapOf, Inserted;
    var handle := BPlusTree.Open(pool, root, root);
    if handle.Err? {
      return Forward(handle);
    }
    var tree := handle.value;
    var status := tree.Insert(key, rid);
    if status.Err? {
      return Forward(status);
    }
    FileEntriesUnique(pool.View(), tree.rootPageId, tree.store, tree.tree, tree.height);
    RootStored(tree.store, tree.rootPageId, tree.tree, tree.height);
    SizeFacts(pool.Now());
    return Ok(tree.rootPageId);
  }
}
