// The append-only index catalog: every change of an index's root page appends a
// new version of its metadata, and loading keeps the newest version of each id.
module IndexCatalogs {
  import opened Results
  import opened ByteCodec
  import opened Pages
  import opened BufferPool
  import opened PageManager
  import opened SlottedPages
  import opened TreeModel
  import opened FirstFit
  import opened RecordFiles
  import opened IndexCodec
  import opened OrderedMaps

  // ---- histories ----

  function LatestIn(es: seq<IndexEntry>, id: Word64): Option<IndexEntry> {
    if es == [] then None
    else if es[|es| - 1].id == id then Some(es[|es| - 1])
    else LatestIn(es[..|es| - 1], id)
  }

  predicate SameIdentity(a: IndexEntry, b: IndexEntry) {
    a.name == b.name && a.table == b.table && a.column == b.column
  }

  // Versions of one index agree on all but the root page, and no two indexes
  // share a name.
  ghost predicate HistoryOk(es: seq<IndexEntry>) {
    && (forall a, b | a in es && b in es :: a.id == b.id ==> SameIdentity(a, b))
    && (forall a, b | a in es && b in es :: a.name == b.name ==> a.id == b.id)
  }

  ghost predicate IsLatest(es: seq<IndexEntry>, m: map<Word64, IndexEntry>) {
    forall id: Word64 :: LatestIn(es, id) == if id in m then Some(m[id]) else None
  }

  // The newest version of every index, in id order.
  ghost predicate LatestList(es: seq<IndexEntry>, list: seq<IndexEntry>) {
    && (forall i, j | 0 <= i < j < |list| :: list[i].id < list[j].id)
    && (forall e :: e in list <==> LatestIn(es, e.id) == Some(e))
  }

  lemma {:induction false} LatestIsThere(es: seq<IndexEntry>, id: Word64)
    ensures LatestIn(es, id).Some? <==> exists e :: e in es && e.id == id
    ensures LatestIn(es, id).Some? ==> LatestIn(es, id).value in es && LatestIn(es, id).value.id == id
  {
    if es != [] {
      LatestIsThere(es[..|es| - 1], id);
      assert es == es[..|es| - 1] + [es[|es| - 1]];
    }
  }

  lemma LatestSnoc(es: seq<IndexEntry>, e: IndexEntry, id: Word64)
    ensures LatestIn(es + [e], id) == if e.id == id then Some(e) else LatestIn(es, id)
  {
    assert (es + [e])[..|es|] == es;
  }

  // The names in use, each with the index that has it.
  ghost predicate NamesOf(es: seq<IndexEntry>, names: map<seq<Byte>, Word64>) {
    && (forall e | e in es :: e.name in names && names[e.name] == e.id)
    && (forall name | name in names :: exists e :: e in es && e.name == name)
  }

  lemma KnownId(es: seq<IndexEntry>, latest: map<Word64, IndexEntry>, names: map<seq<Byte>, Word64>, e: IndexEntry)
    requires HistoryOk(es) && IsLatest(es, latest) && NamesOf(es, names) && e.id in latest
    ensures HistoryOk(es + [e]) <==> SameIdentity(latest[e.id], e)
    ensures SameIdentity(latest[e.id], e) ==> NamesOf(es + [e], names)
  {
    LatestIsThere(es, e.id);
    var known := latest[e.id];
    assert known in es && known.id == e.id;
    assert known in es + [e] && e in es + [e];
    if SameIdentity(known, e) {
      forall a, b | a in es + [e] && b in es + [e] && a.id == b.id ensures SameIdentity(a, b) {
        assert a in es ==> a.id == known.id ==> SameIdentity(a, known);
        assert b in es ==> b.id == known.id ==> SameIdentity(b, known);
      }
      forall a, b | a in es + [e] && b in es + [e] && a.name == b.name ensures a.id == b.id {
        assert a in es ==> a.name == known.name ==> a.id == known.id;
        assert b in es ==> b.name == known.name ==> b.id == known.id;
      }
      forall name | name in names ensures exists x :: x in es + [e] && x.name == name {
        var x :| x in es && x.name == name;
        assert x in es + [e];
      }
    }
  }

  lemma NewId(es: seq<IndexEntry>, latest: map<Word64, IndexEntry>, names: map<seq<Byte>, Word64>, e: IndexEntry)
    requires HistoryOk(es) && IsLatest(es, latest) && NamesOf(es, names) && e.id !in latest
    ensures forall x | x in es :: x.id != e.id
    ensures HistoryOk(es + [e]) <==> e.name !in names
    ensures e.name !in names ==> NamesOf(es + [e], names[e.name := e.id])
    ensures e.name in names ==> names[e.name] != e.id
  {
    LatestIsThere(es, e.id);
    if e.name in names {
      var x :| x in es && x.name == e.name;
      assert x in es + [e] && e in es + [e];
    } else {
      var known := names[e.name := e.id];
      forall name | name in known ensures exists x :: x in es + [e] && x.name == name {
        if name == e.name {
          assert e in es + [e];
        } else {
          var x :| x in es && x.name == name;
          assert x in es + [e];
        }
      }
    }
  }

  lemma HistoryPrefix(es: seq<IndexEntry>, n: nat)
    requires n <= |es| && HistoryOk(es)
    ensures HistoryOk(es[..n])
  {
    forall a | a in es[..n] ensures a in es {}
  }

  lemma LatestStep(es: seq<IndexEntry>, latest: map<Word64, IndexEntry>, e: IndexEntry)
    requires IsLatest(es, latest)
    ensures IsLatest(es + [e], latest[e.id := e])
  {
    forall id: Word64 ensures LatestIn(es + [e], id) ==
      if id in latest[e.id := e] then Some(latest[e.id := e][id]) else None
    {
      LatestSnoc(es, e, id);
    }
  }

  // The loop that keeps the newest version of each id. It accepts exactly the
  // histories in which identities and names are consistent.
  method Replay(es: seq<IndexEntry>) returns (r: Result<map<Word64, IndexEntry>>)
    ensures r.Ok? <==> HistoryOk(es)
    ensures r.Ok? ==> IsLatest(es, r.value)
    ensures r.Err? ==> r.error == Corruption
  {
    hide HistoryOk, IsLatest, NamesOf;
    var latestById: map<Word64, IndexEntry> := map[];
    var idsByName: map<seq<Byte>, Word64> := map[];
    EmptyHistory();
    for i := 0 to |es|
      invariant HistoryOk(es[..i]) && IsLatest(es[..i], latestById) && NamesOf(es[..i], idsByName)
    {
      var candidate := es[i];
      assert es[..i + 1] == es[..i] + [candidate];
      LatestStep(es[..i], latestById, candidate);
      if candidate.id in latestById {
        KnownId(es[..i], latestById, idsByName, candidate);
        if !SameIdentity(latestById[candidate.id], candidate) {
          Inconsistent(es, i + 1);
          return Err(Corruption);
        }
      } else {
        NewId(es[..i], latestById, idsByName, candidate);
        if candidate.name in idsByName && idsByName[candidate.name] != candidate.id {
          Inconsistent(es, i + 1);
          return Err(Corruption);
        }
        idsByName := idsByName[candidate.name := candidate.id];
      }
      latestById := latestById[candidate.id := candidate];
    }
    assert es[..|es|] == es;
    return Ok(latestById);
  }

  lemma EmptyHistory()
    ensures HistoryOk([]) && IsLatest([], map[]) && NamesOf([], map[])
  {
  }

  lemma Inconsistent(es: seq<IndexEntry>, n: nat)
    requires n <= |es| && !HistoryOk(es[..n])
    ensures !HistoryOk(es)
  {
    if HistoryOk(es) {
      HistoryPrefix(es, n);
    }
  }

  // ---- newest wins under first fit ----

  predicate HasId(bytes: seq<Byte>, id: Word64) {
    DecodeIndex(bytes).Ok? && DecodeIndex(bytes).value.id == id
  }

  function IdTest(id: Word64): seq<Byte> -> bool {
    bytes => HasId(bytes, id)
  }

  // Bytes and what they decode to, in the same order.
  ghost predicate Decoded(rs: seq<seq<Byte>>, es: seq<IndexEntry>) {
    |rs| == |es| && forall i | 0 <= i < |rs| :: DecodeIndex(rs[i]) == Ok(es[i])
  }

  lemma {:induction false} LatestSelected(rs: seq<seq<Byte>>, es: seq<IndexEntry>, id: Word64)
    requires Decoded(rs, es)
    ensures var chosen := Select(rs, IdTest(id));
      && (forall r | r in chosen :: DecodeIndex(r).Ok?)
      && LatestIn(es, id) == if chosen == [] then None else Some(DecodeIndex(chosen[|chosen| - 1]).value)
  {
    if rs != [] {
      LatestSelected(rs[..|rs| - 1], es[..|es| - 1], id);
      hide DecodeIndex;
    }
  }

  // An entry whose record fits an empty page.
  predicate Recordable(e: IndexEntry) {
    EncodeIndex(e).Ok? && |EncodeIndex(e).value| <= MAX_RECORD
  }

  // The longest index name that a catalog page takes has 4000 bytes.
  predicate NameFits(name: seq<Byte>) {
    |name| + INDEX_HEADER_SIZE <= MAX_RECORD
  }

  lemma RecordableExactly(e: IndexEntry)
    ensures Recordable(e) <==> EntryOk(e) && NameFits(e.name)
  {
    hide IndexHeader;
  }

  // A name of 4001 bytes is one too many: the metadata encodes, and no catalog
  // page takes it.
  lemma LongIndexName(e: IndexEntry)
    requires EntryOk(e) && 4000 <= |e.name| <= 4001
    ensures EncodeIndex(e).Ok? && |EncodeIndex(e).value| == INDEX_HEADER_SIZE + |e.name|
    ensures NameFits(e.name) <==> |e.name| == 4000
    ensures |e.name| == 4001 ==> Spoils([], |EncodeIndex(e).value|)
  {
    hide IndexHeader;
  }

  function RecordForm(e: IndexEntry): (record: seq<Byte>)
    requires Recordable(e)
    ensures |record| <= MAX_RECORD && DecodeIndex(record) == Ok(e)
  {
    IndexRoundTrip(e);
    EncodeIndex(e).value
  }

  ghost predicate AllRecordable(log: seq<IndexEntry>) {
    forall e | e in log :: Recordable(e)
  }

  ghost function RecordForms(log: seq<IndexEntry>): (rs: seq<seq<Byte>>)
    requires AllRecordable(log)
    ensures Decoded(rs, log) && forall r | r in rs :: |r| <= MAX_RECORD
  {
    seq(|log|, i requires 0 <= i < |log| => assert log[i] in log; RecordForm(log[i]))
  }

  lemma RecordFormsSnoc(log: seq<IndexEntry>, e: IndexEntry)
    requires AllRecordable(log) && Recordable(e)
    ensures AllRecordable(log + [e]) && RecordForms(log + [e]) == RecordForms(log) + [RecordForm(e)]
  {
  }

  // The catalog file after a run of appends.
  ghost predicate CatalogAfter(view: seq<Page>, log: seq<IndexEntry>) {
    && AllRecordable(log)
    && Readable(view, Catalog)
    && ShelvesOf(view, Catalog) == Shelved(RecordForms(log))
  }

  // What loading finds in the file, in page and slot order.
  ghost function Stored(s: seq<Shelf>): Result<seq<Row<IndexEntry>>> {
    DecodeOnto([], Cells(s), DecodeIndex)
  }

  lemma SameMembers(rs: seq<seq<Byte>>, es: seq<IndexEntry>, rs': seq<seq<Byte>>, es': seq<IndexEntry>)
    requires Decoded(rs, es) && Decoded(rs', es') && multiset(rs) == multiset(rs')
    ensures forall e | e in es :: e in es'
  {
    hide DecodeIndex;
    forall e | e in es ensures e in es' {
      var i :| 0 <= i < |es| && es[i] == e;
      assert rs[i] in multiset(rs) && rs[i] in multiset(rs');
      var j :| 0 <= j < |rs'| && rs'[j] == rs[i];
      assert es'[j] == e;
    }
  }

  lemma StoredDecodes(log: seq<IndexEntry>)
    requires AllRecordable(log)
    ensures var s := Shelved(RecordForms(log));
      Stored(s).Ok? && Decoded(BytesOf(Cells(s)), Values(Stored(s).value))
  {
    hide DecodeIndex, Shelved, Cells, DecodeOnto;
    var rs := RecordForms(log);
    var cells := Cells(Shelved(rs));
    forall c | c in cells ensures DecodeIndex(c.bytes).Ok? {
      CellInLog(rs, c);
    }
    AllDecode(cells, DecodeIndex);
    DecodedRows(cells, DecodeIndex);
  }

  lemma OneLength(log: seq<IndexEntry>, id: Word64)
    requires AllRecordable(log)
    requires forall a, b | a in log && b in log && a.id == b.id :: |a.name| == |b.name|
    ensures forall x, y | x in RecordForms(log) && y in RecordForms(log) && IdTest(id)(x) && IdTest(id)(y) :: |x| == |y|
  {
    hide DecodeIndex;
    var rs := RecordForms(log);
    forall x, y | x in rs && y in rs && IdTest(id)(x) && IdTest(id)(y) ensures |x| == |y| {
      var i :| 0 <= i < |rs| && rs[i] == x;
      var j :| 0 <= j < |rs| && rs[j] == y;
      assert log[i] in log && log[j] in log;
    }
  }

  // First-fit placement keeps, per index id, the order of the appends, because
  // versions of one id have one length. So the version that loading finds last
  // is the one that was appended last, and the history is the one appended.
  lemma NewestWins(log: seq<IndexEntry>)
    requires AllRecordable(log)
    requires forall a, b | a in log && b in log && a.id == b.id :: |a.name| == |b.name|
    ensures Stored(Shelved(RecordForms(log))).Ok?
    ensures var es := Values(Stored(Shelved(RecordForms(log))).value);
      && (forall e :: e in es <==> e in log)
      && (forall id: Word64 :: LatestIn(es, id) == LatestIn(log, id))
  {
    hide DecodeIndex, Shelved, Cells, DecodeOnto, Stored, Select, RecordForm;
    var rs := RecordForms(log);
    var s := Shelved(rs);
    StoredDecodes(log);
    var found, es := BytesOf(Cells(s)), Values(Stored(s).value);
    ScanIsTheLog(rs);
    SameMembers(found, es, rs, log);
    SameMembers(rs, log, found, es);
    forall id: Word64 ensures LatestIn(es, id) == LatestIn(log, id) {
      OneLength(log, id);
      OrderKept(rs, IdTest(id));
      LatestSelected(found, es, id);
      LatestSelected(rs, log, id);
    }
  }

  lemma HistoryLengths(log: seq<IndexEntry>)
    requires HistoryOk(log)
    ensures forall a, b | a in log && b in log && a.id == b.id :: |a.name| == |b.name|
  {
  }

  lemma SameHistory(es: seq<IndexEntry>, log: seq<IndexEntry>)
    requires forall e :: e in es <==> e in log
    ensures HistoryOk(es) <==> HistoryOk(log)
  {
  }

  // Recording a new root page for a known index keeps the history in order.
  lemma VersionAppended(log: seq<IndexEntry>, indexes: map<Word64, IndexEntry>, id: Word64, root: Word64)
    requires AllRecordable(log) && HistoryOk(log) && IsLatest(log, indexes) && id in indexes && root != INVALID_ID
    ensures var e := indexes[id].(root := root);
      && indexes[id].id == e.id == id && Recordable(e)
      && HistoryOk(log + [e]) && IsLatest(log + [e], indexes[id := e])
  {
    hide HistoryOk, IndexHeader;
    LatestIsThere(log, id);
    var e := indexes[id].(root := root);
    assert indexes[id] in log;
    LatestStep(log, indexes, e);
    SameIdentityExtends(log, indexes[id], e);
  }

  lemma SameIdentityExtends(log: seq<IndexEntry>, known: IndexEntry, e: IndexEntry)
    requires HistoryOk(log) && known in log && known.id == e.id && SameIdentity(known, e)
    ensures HistoryOk(log + [e])
  {
    forall a, b | a in log + [e] && b in log + [e] && a.id == b.id ensures SameIdentity(a, b) {
      assert a in log ==> a.id == known.id ==> SameIdentity(a, known);
      assert b in log ==> b.id == known.id ==> SameIdentity(b, known);
    }
    forall a, b | a in log + [e] && b in log + [e] && a.name == b.name ensures a.id == b.id {
      assert a in log ==> a.name == known.name ==> a.id == known.id;
      assert b in log ==> b.name == known.name ==> b.id == known.id;
    }
  }

  // The first version of an index with a new id and a new name.
  lemma IndexAppended(log: seq<IndexEntry>, indexes: map<Word64, IndexEntry>, e: IndexEntry)
    requires HistoryOk(log) && IsLatest(log, indexes) && e.id !in indexes
    requires forall id | id in indexes :: indexes[id].name != e.name
    ensures HistoryOk(log + [e]) && IsLatest(log + [e], indexes[e.id := e])
  {
    LatestStep(log, indexes, e);
    forall x | x in log ensures x.id != e.id && x.name != e.name {
      LatestIsThere(log, x.id);
      assert x.id in indexes && indexes[x.id] in log && indexes[x.id].id == x.id;
      assert SameIdentity(x, indexes[x.id]);
    }
  }

  // ---- the store ----

  class IndexCatalogStore {
    const pool: BufferPoolManager

    constructor (pool: BufferPoolManager)
      ensures this.pool == pool
    {
      this.pool := pool;
    }

    // Appends one version. A version whose record is too long for an empty page
    // leaves a page behind that makes the catalog unreadable.
    method Append(e: IndexEntry) returns (r: Result<()>)
      requires Idle(pool)
      modifies pool
      ensures Idle(pool) && |pool.frames| == old(|pool.frames|)
      ensures EncodeIndex(e).Err? ==> r == Err(EncodeIndex(e).error) && unchanged(pool)
      ensures r.Ok? ==> Recordable(e)
      ensures r.Ok? ==> forall log :: CatalogAfter(old(pool.View()), log) ==> CatalogAfter(pool.View(), log + [e])
      ensures Readable(old(pool.View()), Catalog) && r.Err? ==>
        FileRefuses(old(pool.View()), pool.View(), Catalog, EncodeIndex(e), r.error)
      ensures r.Err? && pool.View() != old(pool.View()) ==> !Recordable(e) && !Readable(pool.View(), Catalog)
    {
      hide StateOk, ViewOf, OrderOf, EncodeIndex, DecodeIndex, PageOk, Placed, PlaceOf, IntactShelves, Intact;
      hide FindsRoom, Overlong, Readable, Shelved, Strip, Create, CatalogAfter;
      ghost var was := pool.View();
      var record := WriteIndex(e);
      if record.Err? {
        return Forward(record);
      }
      RecordNotEmpty(e);
      SizeFacts(pool.Now());
      OverlongRecord(was, record.value);
      var placed := AppendRecord(pool, Catalog, record.value);
      if placed.Err? {
        return Forward(placed);
      }
      forall log | CatalogAfter(was, log) ensures CatalogAfter(pool.View(), log + [e]) {
        CatalogGrows(was, pool.View(), log, e);
      }
      return Ok(());
    }

    // The newest version of every index, in id order. Loading refuses a catalog
    // that has an unreadable page, a malformed record or an inconsistent history,
    // and no other.
    method Load() returns (r: Result<seq<IndexEntry>>)
      requires Idle(pool)
      modifies pool
      ensures Idle(pool) && pool.View() == old(pool.View()) && |pool.frames| == old(|pool.frames|)
      ensures var found := ScanTo(pool.View(), Catalog, DecodeIndex, |pool.View()|);
        && (r.Ok? <==> found.Ok? && HistoryOk(Values(found.value)))
        && (r.Ok? ==> LatestList(Values(found.value), r.value))
      ensures r.Err? ==> r.error == Corruption
      ensures forall log :: CatalogAfter(pool.View(), log) && HistoryOk(log) ==> r.Ok? && LatestList(log, r.value)
    {
      hide StateOk, ViewOf, OrderOf, DecodeIndex, HistoryOk, IsLatest, LatestList, CatalogAfter, ScanTo, Readable;
      var found := ScanRecords(pool, Catalog, DecodeIndex);
      CatalogScan(pool.View());
      if found.Err? {
        ScanErrors(pool.View(), |pool.View()|);
        return Forward(found);
      }
      var es: seq<IndexEntry> := [];
      for i := 0 to |found.value|
        invariant es == Values(found.value)[..i]
      {
        es := es + [found.value[i].value];
      }
      assert es == Values(found.value);
      var latestById := Replay(es);
      if latestById.Err? {
        return Forward(latestById);
      }
      var indexes := InIdOrder(es, latestById.value);
      forall log | CatalogAfter(pool.View(), log) && HistoryOk(log) ensures LatestList(log, indexes) {
        SameLatest(es, log, indexes);
      }
      return Ok(indexes);
    }
  }

  method InIdOrder(ghost es: seq<IndexEntry>, latestById: map<Word64, IndexEntry>) returns (indexes: seq<IndexEntry>)
    requires IsLatest(es, latestById)
    ensures LatestList(es, indexes)
  {
    var ids := KeysInOrder(latestById);
    indexes := [];
    for i := 0 to |ids|
      invariant |indexes| == i && forall j | 0 <= j < i :: indexes[j] == latestById[ids[j]]
    {
      assert ids[i] in ids;
      indexes := indexes + [latestById[ids[i]]];
    }
    ListOfMap(es, latestById, ids, indexes);
  }

  lemma ListOfMap(es: seq<IndexEntry>, m: map<Word64, IndexEntry>, ids: seq<Word64>, list: seq<IndexEntry>)
    requires IsLatest(es, m) && KeysOf(m, ids) && |list| == |ids|
    requires forall j | 0 <= j < |ids| :: ids[j] in m && list[j] == m[ids[j]]
    ensures LatestList(es, list)
  {
    forall j | 0 <= j < |ids| ensures list[j].id == ids[j] && LatestIn(es, ids[j]) == Some(list[j]) {
      LatestIsThere(es, ids[j]);
    }
    forall e ensures e in list <==> LatestIn(es, e.id) == Some(e) {
      if LatestIn(es, e.id) == Some(e) {
        assert e.id in m && e.id in ids;
        var j :| 0 <= j < |ids| && ids[j] == e.id;
        assert list[j] == e;
      }
    }
  }

  lemma SameLatest(es: seq<IndexEntry>, log: seq<IndexEntry>, list: seq<IndexEntry>)
    requires LatestList(es, list) && forall id: Word64 :: LatestIn(es, id) == LatestIn(log, id)
    ensures LatestList(log, list)
  {
  }

  // What a scan of a catalog file finds when the file comes from appends.
  lemma CatalogScan(view: seq<Page>)
    ensures forall log | CatalogAfter(view, log) && HistoryOk(log) ::
      var found := ScanTo(view, Catalog, DecodeIndex, |view|);
      && found.Ok? && HistoryOk(Values(found.value))
      && (forall id: Word64 :: LatestIn(Values(found.value), id) == LatestIn(log, id))
  {
    hide DecodeIndex, HistoryOk, Shelved, Cells, DecodeOnto, Readable;
    forall log | CatalogAfter(view, log) && HistoryOk(log)
      ensures var found := ScanTo(view, Catalog, DecodeIndex, |view|);
        && found.Ok? && HistoryOk(Values(found.value))
        && (forall id: Word64 :: LatestIn(Values(found.value), id) == LatestIn(log, id))
    {
      ScanReadable(view, Catalog, DecodeIndex, |view|);
      assert ScanTo(view, Catalog, DecodeIndex, |view|) == Stored(ShelvesOf(view, Catalog)) by {
        StoredIsScan(ShelvesOf(view, Catalog));
      }
      HistoryLengths(log);
      NewestWins(log);
      SameHistory(Values(ScanTo(view, Catalog, DecodeIndex, |view|).value), log);
    }
  }

  lemma StoredIsScan(s: seq<Shelf>)
    ensures Stored(s) == DecodeOnto([], CellsBetween(s, 0, |s|), DecodeIndex)
  {
  }

  lemma {:induction false} ScanErrors(view: seq<Page>, n: nat)
    requires n <= |view| && ScanTo(view, Catalog, DecodeIndex, n).Err?
    ensures ScanTo(view, Catalog, DecodeIndex, n).error == Corruption
  {
    hide DecodeIndex, DecodeOnto, PageOk, ShelfOf;
    var before := ScanTo(view, Catalog, DecodeIndex, n - 1);
    if before.Err? {
      ScanErrors(view, n - 1);
    } else if PageOk(view[n - 1], Catalog) {
      PageIsSlotted(view[n - 1]);
      DecodeErrors(before.value, CellsOf(ShelfOf(view[n - 1]), n - 1));
    }
  }

  lemma PageIsSlotted(p: Page)
    requires PageOk(p, Catalog)
    ensures SlottedOk(p)
  {
  }

  lemma {:induction false} DecodeErrors(rows: seq<Row<IndexEntry>>, cells: seq<Cell>)
    ensures DecodeOnto(rows, cells, DecodeIndex).Err? ==> DecodeOnto(rows, cells, DecodeIndex).error == Corruption
  {
    if cells != [] {
      DecodeErrors(rows, cells[..|cells| - 1]);
    }
  }

  lemma RecordNotEmpty(e: IndexEntry)
    requires EncodeIndex(e).Ok?
    ensures EncodeIndex(e).value != []
  {
  }

  lemma OverlongRecord(view: seq<Page>, record: seq<Byte>)
    ensures Overlong(view, Catalog, record) ==> |record| > MAX_RECORD
  {
  }

  lemma CatalogGrows(was: seq<Page>, now: seq<Page>, log: seq<IndexEntry>, e: IndexEntry)
    requires CatalogAfter(was, log) && Recordable(e)
    requires Readable(was, Catalog) ==> Readable(now, Catalog)
    requires IntactShelves(now, Catalog) == Placed(IntactShelves(was, Catalog), EncodeIndex(e).value)
    ensures CatalogAfter(now, log + [e])
  {
    hide Readable, Placed, PlaceOf, DecodeIndex, EncodeIndex;
    ReadableShelves(was, Catalog);
    ReadableShelves(now, Catalog);
    RecordFormsSnoc(log, e);
    var rs := RecordForms(log + [e]);
    assert rs[..|rs| - 1] == RecordForms(log);
  }
}
