// Files of slotted pages behind a buffer pool: the append and scan loops that
// the table heap, the table catalog and the index catalog share.
module RecordFiles {
  import opened Results
  import opened ByteCodec
  import opened Pages
  import opened BufferPool
  import opened PageManager
  import opened SlottedPages
  import opened TreeModel
  import opened FirstFit
  import opened NodeCodec

  // What scans and insertions demand of a page.
  ghost predicate PageOk(p: Page, t: PageType) {
    TypeOf(p) == t && SlottedOk(p)
  }

  ghost predicate Readable(view: seq<Page>, t: PageType) {
    forall i | 0 <= i < |view| :: PageOk(view[i], t)
  }

  ghost function ShelfOf(p: Page): Shelf
    requires SlottedOk(p)
  {
    Shelf(RecordsOf(p), FreeBytes(p))
  }

  ghost function ShelvesOf(view: seq<Page>, t: PageType): (s: seq<Shelf>)
    requires Readable(view, t)
    ensures |s| == |view|
  {
    seq(|view|, i requires 0 <= i < |view| => assert PageOk(view[i], t); ShelfOf(view[i]))
  }

  // The number of leading pages that can be read.
  ghost function Intact(view: seq<Page>, t: PageType): (m: nat)
    ensures m <= |view| && Readable(view[..m], t)
    ensures m < |view| ==> !PageOk(view[m], t)
    ensures m == |view| <==> Readable(view, t)
  {
    if view == [] then 0
    else
      var n := |view| - 1;
      var m := Intact(view[..n], t);
      assert view[..n][..m] == view[..m];
      assert m < n ==> view[..n][m] == view[m];
      if m == n && PageOk(view[n], t) then
        assert view[..n + 1] == view;
        n + 1
      else m
  }

  lemma IntactIs(view: seq<Page>, t: PageType, m: nat)
    requires m <= |view| && Readable(view[..m], t) && (m < |view| ==> !PageOk(view[m], t))
    ensures Intact(view, t) == m
  {
    var k := Intact(view, t);
    forall j | 0 <= j < m ensures PageOk(view[j], t) {
      assert view[..m][j] == view[j];
    }
    forall j | 0 <= j < k ensures PageOk(view[j], t) {
      assert view[..k][j] == view[j];
    }
  }

  ghost function IntactShelves(view: seq<Page>, t: PageType): seq<Shelf> {
    ShelvesOf(view[..Intact(view, t)], t)
  }

  lemma ReadableShelves(view: seq<Page>, t: PageType)
    requires Readable(view, t)
    ensures IntactShelves(view, t) == ShelvesOf(view, t) && Intact(view, t) == |view|
  {
    assert view[..|view|] == view;
  }

  lemma FreeSpaceBound(p: Page)
    requires SlottedOk(p)
    ensures FreeBytes(p) <= MAX_RECORD + SLOT_SIZE && |RecordsOf(p)| <= 341
  {
  }

  // ---- one insertion ----

  ghost predicate FindsRoom(view: seq<Page>, t: PageType, record: seq<Byte>) {
    Chosen(IntactShelves(view, t), record) < Intact(view, t)
  }

  // A record whose length does not fit the 16-bit slot field stops at the first page.
  ghost predicate Overlong(view: seq<Page>, t: PageType, record: seq<Byte>) {
    |record| > 0xFFFF && Intact(view, t) > 0
  }

  lemma RoomFound(was: seq<Page>, now: seq<Page>, t: PageType, i: nat, record: seq<Byte>)
    requires i < |was| && PageOk(was[i], t)
    requires forall j | 0 <= j < i :: PageOk(was[j], t) && !HasRoom(ShelfOf(was[j]), record)
    requires HasRoom(ShelfOf(was[i]), record)
    requires |now| == |was| && now == was[i := now[i]] && PageOk(now[i], t)
    requires ShelfOf(now[i]) == Add(ShelfOf(was[i]), record)
    ensures |record| <= MAX_RECORD && FindsRoom(was, t, record)
    ensures PlaceOf(IntactShelves(was, t), record) == Rid(i, |ShelfOf(was[i]).records|)
    ensures IntactShelves(now, t) == Placed(IntactShelves(was, t), record)
    ensures Readable(was, t) <==> Readable(now, t)
  {
    hide SlottedOk, RecordsOf, FreeBytes, BoundsOk, TypeOf;
    FreeSpaceBound(was[i]);
    var m := Intact(was, t);
    IntactBeyond(was, t, i);
    forall j | 0 <= j < m ensures PageOk(now[j], t) {
      assert PageOk(was[..m][j], t);
    }
    forall j | 0 <= j < |was[..m]| ensures PageOk(now[..m][j], t) {}
    IntactIs(now, t, m);
    var s := IntactShelves(was, t);
    assert s[i] == ShelfOf(was[i]);
    forall j | 0 <= j < i ensures s[j] == ShelfOf(was[j]) {}
    assert IntactShelves(now, t) == s[i := Add(s[i], record)];
    if Readable(was, t) {
      assert m == |was|;
      assert now[..m] == now;
    }
  }

  lemma RoomNotFound(view: seq<Page>, t: PageType, n: nat, record: seq<Byte>)
    requires n <= |view| && (n < |view| ==> !PageOk(view[n], t))
    requires forall j | 0 <= j < n :: PageOk(view[j], t) && !HasRoom(ShelfOf(view[j]), record)
    ensures Intact(view, t) == n && !FindsRoom(view, t, record)
    ensures Readable(view, t) <==> n == |view|
  {
    hide SlottedOk, RecordsOf, FreeBytes, BoundsOk, TypeOf;
    forall j | 0 <= j < n ensures PageOk(view[..n][j], t) {}
    IntactIs(view, t, n);
    var s := IntactShelves(view, t);
    forall j | 0 <= j < n ensures s[j] == ShelfOf(view[j]) {}
  }

  lemma PageAdded(was: seq<Page>, page: Page, t: PageType, record: seq<Byte>)
    requires Readable(was, t) && !FindsRoom(was, t, record)
    requires |record| <= MAX_RECORD && PageOk(page, t) && ShelfOf(page) == Shelf([record], MAX_RECORD - |record|)
    ensures var now := was + [page];
      && Readable(now, t)
      && PlaceOf(IntactShelves(was, t), record) == Rid(|was|, 0)
      && IntactShelves(now, t) == Placed(IntactShelves(was, t), record)
  {
    hide SlottedOk, RecordsOf, FreeBytes, BoundsOk, TypeOf;
    var now := was + [page];
    ReadableShelves(was, t);
    forall i | 0 <= i < |now| ensures PageOk(now[i], t) {
      if i < |was| {
        assert PageOk(was[i], t);
      }
    }
    ReadableShelves(now, t);
    assert ShelvesOf(now, t) == ShelvesOf(was, t) + [ShelfOf(page)];
  }

  // Reading a page gives the records of the file's page, with its own header.
  lemma SamePage(copy: Page, page: Page, t: PageType)
    requires Strip(copy) == Strip(page)
    ensures PageOk(copy, t) <==> PageOk(page, t)
    ensures PageOk(copy, t) ==> ShelfOf(copy) == ShelfOf(page)
  {
    hide Strip, SlottedOk, RecordsOf, FreeBytes, BoundsOk, TypeOf, Get;
    SameHeader(copy, page);
    if SlottedOk(copy) {
      SameSlots(copy, page);
    }
    if SlottedOk(page) {
      SameSlots(page, copy);
    }
  }

  lemma AppendedPage(p: Page, record: seq<Byte>, t: PageType, id: Word64)
    requires PageOk(p, t) && HasRoom(ShelfOf(p), record) && HeaderOk(p, id)
    ensures HeaderOk(Appended(p, record), id)
    ensures PageOk(Strip(Appended(p, record)), t)
    ensures ShelfOf(Strip(Appended(p, record))) == Add(ShelfOf(p), record)
  {
    hide Strip, RecordsOf, TypeOf, Get, Appended, HeaderOk, SlotOk;
    SlottedPages.AppendedOk(p, record);
    StripIdempotent(Appended(p, record));
    SamePage(Strip(Appended(p, record)), Appended(p, record), t);
  }

  lemma FreshPage(p: Page, t: PageType, id: Word64)
    requires t == Heap || t == Catalog
    requires id != INVALID_ID && HeaderOk(p, id) && Strip(p) == Strip(Create(t, id).value)
    ensures TypeOf(p) == t && !PageOk(Strip(p), t)
    ensures PageOk(Initialized(p), t) && HeaderOk(Initialized(p), id)
    ensures ShelfOf(Initialized(p)) == Shelf([], MAX_RECORD + SLOT_SIZE)
  {
    CreateWellFormed(t, id);
    hide Strip, RecordsOf, TypeOf, Get, Initialized, HeaderOk, SlotOk, RawPage, Finalize;
    SameHeader(p, Create(t, id).value);
    UninitializedRejected(p, t, id);
    StripIdempotent(p);
    SamePage(Strip(p), p, t);
    InitializedOk(p);
  }

  // The step of an insertion that looks at one page.
  method TryPage(pool: BufferPoolManager, t: PageType, id: Word64, record: seq<Byte>) returns (r: Result<Option<Rid>>)
    requires Idle(pool) && id < |pool.View()| && record != []
    modifies pool
    ensures Idle(pool) && |pool.frames| == old(|pool.frames|) && |pool.View()| == |old(pool.View())|
    ensures var was, now := old(pool.View()), pool.View();
      if !PageOk(was[id], t) then r == Err(Corruption) && now == was
      else if |record| > 0xFFFF then r == Err(ResourceExhausted) && now == was
      else if !HasRoom(ShelfOf(was[id]), record) then r == Ok(None) && now == was
      else
        && r == Ok(Some(Rid(id, |ShelfOf(was[id]).records|)))
        && now == was[id := now[id]] && PageOk(now[id], t)
        && ShelfOf(now[id]) == Add(ShelfOf(was[id]), record)
  {
    hide Strip, TypeOf, Get, Appended, HeaderOk, SlottedOk, StateOk, ViewOf, OrderOf, RecordsOf, FreeBytes, BoundsOk;
    hide PageIdOf, Add;
    ghost var was := pool.View();
    SizeFacts(pool.Now());
    var page := ReadPage(pool, id);
    if page.Err? {
      return Forward(page);
    }
    StripIdempotent(page.value);
    SamePage(page.value, was[id], t);
    if TypeOf(page.value) != t {
      return Err(Corruption);
    }
    var loaded := SlottedPage.Load(page.value);
    if loaded.Err? {
      return Forward(loaded);
    }
    var slotted := loaded.value;
    var slot := slotted.Insert(record);
    if slot.Err? {
      return Forward(slot);
    }
    RoomExactly(page.value, record);
    if slot.value.None? {
      return Ok(None);
    }
    AppendedPage(page.value, record, t, id);
    HeaderId(slotted.bytes[..], id);
    var status := WritePage(pool, slotted.bytes[..]);
    if status.Err? {
      return Forward(status);
    }
    return Ok(Some(Rid(id, slot.value.value)));
  }

  // The step of an insertion that finds no room anywhere.
  method AddPage(pool: BufferPoolManager, t: PageType, record: seq<Byte>) returns (r: Result<Rid>)
    requires Idle(pool) && record != [] && (t == Heap || t == Catalog)
    modifies pool
    ensures Idle(pool) && |pool.frames| == old(|pool.frames|)
    ensures var was, now := old(pool.View()), pool.View();
      if |was| > MAX_DISK_ID then r == Err(OutOfRange) && now == was
      else if |record| > MAX_RECORD then
        && r == Err(ResourceExhausted) && now == was + [Strip(Create(t, |was|).value)]
        && !PageOk(now[|was|], t)
      else
        && r == Ok(Rid(|was|, 0)) && |now| == |was| + 1 && now == was + [now[|was|]]
        && PageOk(now[|was|], t) && ShelfOf(now[|was|]) == Shelf([record], MAX_RECORD - |record|)
  {
    hide Strip, TypeOf, Get, Appended, Initialized, HeaderOk, SlottedOk, Create, StateOk, ViewOf, OrderOf;
    hide PageIdOf, RecordsOf, FreeBytes, BoundsOk;
    SizeFacts(pool.Now());
    ghost var id := |pool.disk|;
    var page := AllocatePage(pool, t);
    if page.Err? {
      return Forward(page);
    }
    FreshPage(page.value, t, id);
    CopyOfFresh(page.value, t, id);
    var initialized := SlottedPage.Initialize(page.value);
    if initialized.Err? {
      return Forward(initialized);
    }
    var slotted := initialized.value;
    var slot := slotted.Insert(record);
    RoomExactly(Initialized(page.value), record);
    if slot.Err? {
      return Forward(slot);
    }
    if slot.value.None? {
      return Err(ResourceExhausted);
    }
    AppendedPage(Initialized(page.value), record, t, id);
    HeaderId(slotted.bytes[..], id);
    var status := WritePage(pool, slotted.bytes[..]);
    if status.Err? {
      return Forward(status);
    }
    HeaderId(page.value, id);
    return Ok(Rid(PageIdOf(page.value), slot.value.value));
  }

  lemma CopyOfFresh(p: Page, t: PageType, id: Word64)
    requires id != INVALID_ID && Strip(p) == Strip(Create(t, id).value) && !PageOk(Strip(p), t)
    ensures !PageOk(Strip(Create(t, id).value), t)
  {
  }

  // A record of this size is refused, but only after a page that nobody will be
  // able to read has been added to the file.
  predicate Spoils(view: seq<Page>, size: nat) {
    size > MAX_RECORD && |view| <= MAX_DISK_ID && (size <= 0xFFFF || view == [])
  }

  // The file has such a page behind what it had before.
  ghost predicate Spoiled(was: seq<Page>, now: seq<Page>, t: PageType) {
    && |was| < INVALID_ID && now == was + [Strip(Create(t, |was|).value)]
    && !Readable(now, t)
  }

  // Why a record too long for any page is refused without a trace.
  function Untraced(view: seq<Page>, size: nat): Error {
    if size > 0xFFFF && view != [] then ResourceExhausted else OutOfRange
  }

  // How a readable file refuses a record, and what is left of the file: the file
  // itself, unless the record is longer than an empty page takes.
  ghost predicate FileRefuses(was: seq<Page>, now: seq<Page>, t: PageType, encoded: Result<seq<Byte>>, e: Error) {
    if encoded.Err? then e == encoded.error && now == was
    else if |encoded.value| <= MAX_RECORD then e == OutOfRange && now == was && |was| == MAX_DISK_ID + 1
    else if Spoils(was, |encoded.value|) then e == ResourceExhausted && Spoiled(was, now, t)
    else e == Untraced(was, |encoded.value|) && now == was
  }

  // Where a record finds room it fits, and a readable file is intact.
  lemma ReadableCases(view: seq<Page>, t: PageType, record: seq<Byte>)
    requires Readable(view, t)
    ensures FindsRoom(view, t, record) ==> |record| <= MAX_RECORD
    ensures Overlong(view, t, record) <==> |record| > 0xFFFF && view != []
  {
    hide ShelfOf;
    ReadableShelves(view, t);
    var i := Chosen(IntactShelves(view, t), record);
    if i < |view| {
      assert PageOk(view[i], t);
      FreeSpaceBound(view[i]);
      ShelfRoom(view[i], record);
    }
  }

  lemma ShelfRoom(p: Page, record: seq<Byte>)
    requires SlottedOk(p) && HasRoom(ShelfOf(p), record)
    ensures |record| + SLOT_SIZE <= FreeBytes(p)
  {
  }

  // Adds a record to the first page with room, or to a new page. A record that
  // no page can hold is refused, but only after a page that nobody will be able
  // to read has been added to the file.
  method AppendRecord(pool: BufferPoolManager, t: PageType, record: seq<Byte>) returns (r: Result<Rid>)
    requires Idle(pool) && record != [] && (t == Heap || t == Catalog)
    modifies pool
    ensures Idle(pool) && |pool.frames| == old(|pool.frames|)
    ensures r.Ok? ==>
      && |record| <= MAX_RECORD
      && r.value == PlaceOf(IntactShelves(old(pool.View()), t), record)
      && IntactShelves(pool.View(), t) == Placed(IntactShelves(old(pool.View()), t), record)
      && (Readable(old(pool.View()), t) <==> Readable(pool.View(), t))
    ensures var was, now := old(pool.View()), pool.View();
      if Overlong(was, t, record) then r == Err(ResourceExhausted) && now == was
      else if FindsRoom(was, t, record) then r.Ok?
      else if !Readable(was, t) then r == Err(Corruption) && now == was
      else if |was| > MAX_DISK_ID then r == Err(OutOfRange) && now == was
      else if |record| > MAX_RECORD then
        r == Err(ResourceExhausted) && now == was + [Strip(Create(t, |was|).value)] && !Readable(now, t)
      else r.Ok?
    ensures var was, now := old(pool.View()), pool.View();
      Readable(was, t) ==>
        if |record| <= MAX_RECORD then r.Ok? || (r == Err(OutOfRange) && now == was && |was| == MAX_DISK_ID + 1)
        else if Spoils(was, |record|) then r == Err(ResourceExhausted) && Spoiled(was, now, t)
        else r == Err(Untraced(was, |record|)) && now == was
  {
    hide Strip, Create, StateOk, ViewOf, OrderOf, IntactShelves, Placed, PlaceOf, HasRoom, Add, ShelfOf, FindsRoom;
    hide Readable, TypeOf, SlottedOk;
    ghost var was := pool.View();
    if Readable(was, t) {
      ReadableCases(was, t, record);
    }
    SizeFacts(pool.Now());
    var pageCount := |pool.disk|;
    for rawPageId := 0 to pageCount
      invariant Idle(pool) && pool.View() == was && |pool.frames| == old(|pool.frames|)
      invariant forall j | 0 <= j < rawPageId :: PageOk(was[j], t) && !HasRoom(ShelfOf(was[j]), record)
      invariant rawPageId > 0 ==> |record| <= 0xFFFF
    {
      var tried := TryPage(pool, t, rawPageId, record);
      if tried.Err? {
        StoppedAt(was, t, rawPageId, record);
        return Forward(tried);
      }
      if tried.value.Some? {
        RoomFound(was, pool.View(), t, rawPageId, record);
        return Ok(tried.value.value);
      }
    }
    RoomNotFound(was, t, pageCount, record);
    r := AddPage(pool, t, record);
    if r.Ok? {
      PageAdded(was, pool.View()[pageCount], t, record);
    } else if |pool.View()| > |was| {
      NotReadable(pool.View(), t, pageCount);
    }
  }

  lemma StoppedAt(view: seq<Page>, t: PageType, n: nat, record: seq<Byte>)
    requires n < |view| && (n > 0 ==> |record| <= 0xFFFF) && (PageOk(view[n], t) ==> |record| > 0xFFFF)
    requires forall j | 0 <= j < n :: PageOk(view[j], t) && !HasRoom(ShelfOf(view[j]), record)
    ensures if PageOk(view[n], t) then Overlong(view, t, record)
      else !Overlong(view, t, record) && !FindsRoom(view, t, record) && !Readable(view, t)
  {
    if PageOk(view[n], t) {
      IntactBeyond(view, t, n);
    } else {
      RoomNotFound(view, t, n, record);
    }
  }

  lemma NotReadable(view: seq<Page>, t: PageType, i: nat)
    requires i < |view| && !PageOk(view[i], t)
    ensures !Readable(view, t)
  {
  }

  lemma RoomExactly(p: Page, record: seq<Byte>)
    requires SlottedOk(p)
    ensures HasRoom(ShelfOf(p), record) <==> Fits(p, record)
    ensures |RecordsOf(p)| == SlotCount(p)
  {
  }

  lemma IntactBeyond(view: seq<Page>, t: PageType, n: nat)
    requires n < |view| && PageOk(view[n], t) && forall j | 0 <= j < n :: PageOk(view[j], t)
    ensures Intact(view, t) > n && Readable(view[..n], t)
  {
    var m := Intact(view, t);
    forall j | 0 <= j <= n ensures PageOk(view[j], t) {}
  }

  // ---- scans and reads ----

  // A decoded record with its id.
  datatype Row<+V> = Row(rid: Rid, value: V)

  // Decodes records after the rows that were read before; the first failure wins.
  function DecodeOnto<V>(rows: seq<Row<V>>, cells: seq<Cell>, decode: seq<Byte> -> Result<V>): Result<seq<Row<V>>> {
    if cells == [] then Ok(rows)
    else
      var last := cells[|cells| - 1];
      match DecodeOnto(rows, cells[..|cells| - 1], decode)
      case Err(e) => Err(e)
      case Ok(front) =>
        match decode(last.bytes)
        case Err(e) => Err(e)
        case Ok(v) => Ok(front + [Row(last.rid, v)])
  }

  function Values<V>(rows: seq<Row<V>>): (values: seq<V>)
    ensures |values| == |rows|
  {
    seq(|rows|, i requires 0 <= i < |rows| => rows[i].value)
  }

  // The rows of decodable cells, one by one.
  lemma {:induction false} DecodedRows<V>(cells: seq<Cell>, decode: seq<Byte> -> Result<V>)
    requires DecodeOnto([], cells, decode).Ok?
    ensures var rows := DecodeOnto([], cells, decode).value;
      && |rows| == |cells|
      && forall i | 0 <= i < |cells| :: decode(cells[i].bytes) == Ok(rows[i].value) && rows[i].rid == cells[i].rid
  {
    if cells != [] {
      DecodedRows(cells[..|cells| - 1], decode);
    }
  }

  // Decodable cells give rows.
  lemma {:induction false} AllDecode<V>(cells: seq<Cell>, decode: seq<Byte> -> Result<V>)
    requires forall c | c in cells :: decode(c.bytes).Ok?
    ensures DecodeOnto([], cells, decode).Ok?
  {
    if cells != [] {
      AllDecode(cells[..|cells| - 1], decode);
    }
  }

  // What a scan of the first n pages returns.
  ghost function ScanTo<V>(view: seq<Page>, t: PageType, decode: seq<Byte> -> Result<V>, n: nat): Result<seq<Row<V>>>
    requires n <= |view|
  {
    if n == 0 then Ok([])
    else
      match ScanTo(view, t, decode, n - 1)
      case Err(e) => Err(e)
      case Ok(rows) =>
        if PageOk(view[n - 1], t) then DecodeOnto(rows, CellsOf(ShelfOf(view[n - 1]), n - 1), decode)
        else Err(Corruption)
  }

  lemma {:induction false} ScanFails<V>(view: seq<Page>, t: PageType, decode: seq<Byte> -> Result<V>, n: nat, m: nat)
    requires n <= m <= |view| && ScanTo(view, t, decode, n).Err?
    ensures ScanTo(view, t, decode, m) == ScanTo(view, t, decode, n)
    decreases m
  {
    if n < m {
      ScanFails(view, t, decode, n, m - 1);
    }
  }

  lemma {:induction false} DecodeFails<V>(rows: seq<Row<V>>, cells: seq<Cell>, decode: seq<Byte> -> Result<V>, n: nat)
    requires n <= |cells| && DecodeOnto(rows, cells[..n], decode).Err?
    ensures DecodeOnto(rows, cells, decode) == DecodeOnto(rows, cells[..n], decode)
  {
    if n < |cells| {
      assert cells[..|cells| - 1][..n] == cells[..n];
      DecodeFails(rows, cells[..|cells| - 1], decode, n);
    } else {
      assert cells[..n] == cells;
    }
  }

  // Reads every record of the file in page and slot order.
  method ScanRecords<V>(pool: BufferPoolManager, t: PageType, decode: seq<Byte> -> Result<V>)
    returns (r: Result<seq<Row<V>>>)
    requires Idle(pool)
    modifies pool
    ensures Idle(pool) && pool.View() == old(pool.View()) && |pool.frames| == old(|pool.frames|)
    ensures r == ScanTo(pool.View(), t, decode, |pool.View()|)
  {
    hide Strip, TypeOf, SlottedOk, StateOk, ViewOf, OrderOf, ShelfOf, DecodeOnto, CellsOf;
    ghost var view := pool.View();
    SizeFacts(pool.Now());
    var pageCount := |pool.disk|;
    var rows: seq<Row<V>> := [];
    for rawPageId := 0 to pageCount
      invariant Idle(pool) && pool.View() == view && |pool.frames| == old(|pool.frames|)
      invariant ScanTo(view, t, decode, rawPageId) == Ok(rows)
    {
      var page := ReadPage(pool, rawPageId);
      if page.Err? {
        return Forward(page);
      }
      StripIdempotent(page.value);
      SamePage(page.value, view[rawPageId], t);
      var decoded := ScanPage(page.value, t, rawPageId, rows, decode);
      if decoded.Err? {
        ScanFails(view, t, decode, rawPageId + 1, |view|);
        return decoded;
      }
      rows := decoded.value;
    }
    return Ok(rows);
  }

  method ScanPage<V>(page: Page, t: PageType, id: nat, before: seq<Row<V>>, decode: seq<Byte> -> Result<V>)
    returns (r: Result<seq<Row<V>>>)
    ensures r == if PageOk(page, t) then DecodeOnto(before, CellsOf(ShelfOf(page), id), decode) else Err(Corruption)
  {
    hide Strip, TypeOf, SlottedOk, RecordsOf, FreeBytes, DecodeOnto;
    if TypeOf(page) != t {
      return Err(Corruption);
    }
    var slotted := SlottedPage.Load(page);
    if slotted.Err? {
      return Forward(slotted);
    }
    var records := slotted.value.Records();
    if records.Err? {
      return Forward(records);
    }
    ghost var cells := CellsOf(ShelfOf(page), id);
    var rows := before;
    DecodeNone(before, cells, decode);
    for slot := 0 to |records.value|
      invariant DecodeOnto(before, cells[..slot], decode) == Ok(rows)
    {
      var value := decode(records.value[slot]);
      DecodeOneMore(before, cells, decode, slot);
      if value.Err? {
        DecodeFails(before, cells, decode, slot + 1);
        return Forward(value);
      }
      rows := rows + [Row(Rid(id, slot), value.value)];
    }
    assert cells[..|records.value|] == cells;
    return Ok(rows);
  }

  lemma DecodeNone<V>(rows: seq<Row<V>>, cells: seq<Cell>, decode: seq<Byte> -> Result<V>)
    ensures DecodeOnto(rows, cells[..0], decode) == Ok(rows)
  {
  }

  lemma DecodeOneMore<V>(rows: seq<Row<V>>, cells: seq<Cell>, decode: seq<Byte> -> Result<V>, n: nat)
    requires n < |cells| && DecodeOnto(rows, cells[..n], decode).Ok?
    ensures DecodeOnto(rows, cells[..n + 1], decode) ==
      match decode(cells[n].bytes)
      case Err(e) => Err(e)
      case Ok(v) => Ok(DecodeOnto(rows, cells[..n], decode).value + [Row(cells[n].rid, v)])
  {
    assert cells[..n + 1][..n] == cells[..n];
  }

  lemma {:induction false} DecodeAppend<V>(rows: seq<Row<V>>, a: seq<Cell>, b: seq<Cell>, decode: seq<Byte> -> Result<V>)
    ensures DecodeOnto(rows, a + b, decode) ==
      match DecodeOnto(rows, a, decode)
      case Err(e) => Err(e)
      case Ok(front) => DecodeOnto(front, b, decode)
  {
    if b == [] {
      assert a + b == a;
    } else {
      assert (a + b)[..|a + b| - 1] == a + b[..|b| - 1];
      DecodeAppend(rows, a, b[..|b| - 1], decode);
    }
  }

  // In a readable file a scan decodes the cells of the whole file.
  lemma {:induction false} ScanReadable<V>(view: seq<Page>, t: PageType, decode: seq<Byte> -> Result<V>, n: nat)
    requires Readable(view, t) && n <= |view|
    ensures ScanTo(view, t, decode, n) == DecodeOnto([], CellsBetween(ShelvesOf(view, t), 0, n), decode)
  {
    if n != 0 {
      hide ShelfOf, CellsOf, TypeOf, SlottedOk;
      ScanReadable(view, t, decode, n - 1);
      var s := ShelvesOf(view, t);
      assert PageOk(view[n - 1], t) && s[n - 1] == ShelfOf(view[n - 1]);
      DecodeAppend([], CellsBetween(s, 0, n - 1), CellsOf(s[n - 1], n - 1), decode);
    }
  }

  // A scan succeeds only in a readable file.
  lemma {:induction false} ScanNeedsReadable<V>(view: seq<Page>, t: PageType, decode: seq<Byte> -> Result<V>, n: nat)
    requires n <= |view| && ScanTo(view, t, decode, n).Ok?
    ensures Readable(view[..n], t)
  {
    if n != 0 {
      ScanNeedsReadable(view, t, decode, n - 1);
      forall i | 0 <= i < n ensures PageOk(view[..n][i], t) {
        assert i < n - 1 ==> view[..n - 1][i] == view[i];
      }
    }
  }

  // The bytes of one record, by its id.
  method ReadRecord(pool: BufferPoolManager, t: PageType, rid: Rid) returns (r: Result<seq<Byte>>)
    requires Idle(pool)
    modifies pool
    ensures Idle(pool) && pool.View() == old(pool.View()) && |pool.frames| == old(|pool.frames|)
    ensures var view := pool.View();
      r == if !RidValid(rid) then Err(InvalidArgument)
           else if rid.page >= |view| then Err(OutOfRange)
           else if !PageOk(view[rid.page], t) then Err(Corruption)
           else if rid.slot >= |ShelfOf(view[rid.page]).records| then Err(OutOfRange)
           else Ok(ShelfOf(view[rid.page]).records[rid.slot])
  {
    hide Strip, TypeOf, SlottedOk, RecordsOf, FreeBytes, StateOk, ViewOf, OrderOf;
    if !RidValid(rid) {
      return Err(InvalidArgument);
    }
    var page := ReadPage(pool, rid.page);
    if page.Err? {
      return Forward(page);
    }
    StripIdempotent(page.value);
    SamePage(page.value, pool.View()[rid.page], t);
    if TypeOf(page.value) != t {
      return Err(Corruption);
    }
    var slotted := SlottedPage.Load(page.value);
    if slotted.Err? {
      return Forward(slotted);
    }
    r := slotted.value.Read(rid.slot);
  }
}
