# KernDB in Dafny

KernDB is a small single-threaded database engine: SQL text is lexed, parsed,
bound, planned and executed over tables kept in files of 4096-byte pages, with
unique integer indexes kept in B+ trees. This project models the engine from the
bytes of a page up to the statement, and proves that the layers fit together:

* a page carries an FNV-1a checksum that no single changed byte survives
  (`Pages`);
* the buffer pool, with its guards, pins, lazy dirty marks and LRU eviction, reads
  and writes like a flat array of pages (`BufferPool`, `PageManager`, `LruStack`);
* the B+ tree in those pages is a map, and keeps one whole-tree invariant through
  every split (`TreeModel`, `TreeContents`, `TreeStore`, `TreeSteps`, `NodeCodec`,
  `IndexFiles`, `BPlusTrees`);
* slotted pages filled first-fit are a table of rows with stable ids, and an
  append-only catalog whose newest versions win (`SlottedPages`, `FirstFit`,
  `RecordFiles`, `RecordCodec`, `TableHeaps`, `IndexCodec`, `IndexCatalogs`,
  `TableCatalogs`);
* tables and indexes agree after every statement, an insertion is all or nothing,
  closing and opening restores the same database, and an index scan answers what
  a sequential scan answers (`Catalogs`, `IndexedTables`, `Storage`, `Reopening`,
  `Planner`, `Executor`);
* the lexer and the parser accept exactly the grammar and read back whatever is
  printed (`Lexers`, `Parsers`).

`dafny verify dfyconfig.toml` checks everything.

## How to read it

The classes (`BufferPoolManager`, `PinnedPage`, `BPlusTree`, `SlottedPage`,
`TableHeap`, `IndexCatalogStore`, `CatalogStore`, `InMemoryCatalog`,
`PersistentStorage`, `Database`, `ByteWriter`, `ByteReader`, `Lexer`,
`StatementParser`) have the fields and the loops of the program. Their contracts
speak of values: the pool's `View()` is the sequence of pages that a reader sees;
`Contents()` is the map of a tree; `Rows(view, schema)` lists the rows of a table
file in page and slot order; `World` is a whole database (tables, table files,
index metadata, index files). What the program promises is then proved about those
values.

* `View()` leaves the four checksum bytes out of a page, since finalizing a page
  rewrites them and nothing else.
* `Idle(pool)` says that a pool is valid and no guard is out. Everything above the
  pool starts and ends idle, so the tree, the heaps and the catalogs hold at most
  one pin, work over any number of frames from one up, and never run out of frames.
* `Represents(store, root, t, height)` is the whole-tree invariant: every node
  sorted and within the range its separators give it, all leaves at one depth, at
  most 8 and (but for the root) at least 4 keys or entries in a node, parent ids
  inverse to child lists, every page of the file used by exactly one node, and the
  leaf chain in key order. `Path` is the way from the root down to a node; it
  carries the broken states in the middle of a split (`Pending`).
* `WorldOk(w)` says that every table file can be read and that each index's tree
  holds exactly the pairs of column value and row id of its table's rows (`Agrees`).
* `Outcome(s, r)` says how a statement ends: with its effect; refused, with nothing
  changed; with data that fits no page, which changes nothing unless it damages the
  one file it is for (`Damages`, `Spoilt`); or for want of ids (`NoIds`: a catalog
  counter at its end, a file that has all its pages, `Exhausted()`, or an index over
  more rows than a file has pages).

## What is false, and what holds instead

* A record longer than 4036 bytes (an empty page less the 48-byte header and one
  12-byte slot) is refused, but only after a new page has been added to the file
  that no later load accepts. It happens if and only if the record encodes, is
  longer than 4036 bytes, the file can get one more page, and the record has at most
  65535 bytes or the file is empty (`RecordFiles.Spoils`); otherwise a refusal leaves
  the file as it was. A tuple's record has 4 bytes, 8 for every INT, and 4 besides
  the text for every TEXT; three texts of the full 1024 bytes fit and four do not
  (`TableHeaps.FourFullTexts`). In the same way a table's metadata, which has 12
  bytes, the table name, and 3 besides the name for every column, spoils the table
  catalog (`TableCatalogs.LongColumnName`), and an index name of more than 4000 bytes
  the index catalog (`IndexCatalogs.LongIndexName`). What the encoder refuses, such
  as a text of more than 1024 bytes, changes nothing. Everything but the one file is
  as it was.
* Table metadata with id 0 can be written but not read back
  (`TableCatalogs.TableRoundTrip`). The catalog never gives out id 0.
* Heap scans return page and slot order, not insertion order; rows of a run are
  therefore compared as multisets (`TableHeaps.HeapLaw`), and order is proved only
  among records of one length (`FirstFit.OrderKept`), which is what the index
  catalog relies on.
* `docs/SQL_PHASE1.md` allows the final semicolon only after a selection and does
  not list `CREATE INDEX`; the parser allows the semicolon after every statement
  and parses `CREATE INDEX`. The model follows the parser.

## Model

| member | source | states |
|---|---|---|
| Pages.ComputeChecksum | src/storage/page.cpp:192-203 | the byte loop computes 32-bit FNV-1a over the page with the checksum field read as zero |
| Pages.XorByteIsXor | src/storage/page.cpp:192-203 | mixing a byte in sets bit k of the low byte exactly when the bits of word and byte differ, and keeps the other bytes of the word |
| Pages.FnvVectors | src/storage/page.cpp:192-203 | the published 32-bit FNV-1a values of the empty text, 0x811C9DC5, and of "a", 0xE40C292C |
| Pages.OneByteCorruptionRejected | src/storage/page.cpp:104-144 | a page that differs from an accepted page in exactly one byte, anywhere, is rejected whatever page id is expected |
| Pages.OneByteChangesFnv | src/storage/page.cpp:192-203 | two pages that differ in one hashed byte have equal running checksums before that byte and different ones ever after |
| Pages.AcceptedExactly | src/storage/page.cpp:104-144 | a page is accepted for a position if and only if its header belongs there and finalizing it changes nothing |
| Pages.FinalizedAccepted | src/storage/page.cpp:175-180 | every finalized page with a well-formed header is accepted unchanged |
| Pages.CreateWellFormed | src/storage/page.cpp:77-102 | a created page is accepted at its position, has the requested type and an all-zero payload |
| Pages.CreatedLayout | src/storage/page.cpp:77-102 | magic, version, type code, header size, page id and checksum of a created page at their byte offsets, in numbers, and zeroes everywhere else |
| Pages.HeaderExactly | src/storage/page.cpp:104-144 | which header fields a page must have, in numbers |
| ByteCodec.DecodeEncode | src/common/byte_codec.cpp:11-33 | reading back a little-endian integer of n bytes gives the integer |
| ByteCodec.EncodeDecode | src/common/byte_codec.cpp:11-33 | any n bytes are the encoding of the integer they read as, so the encoding is canonical |
| ByteCodec.EightBytes | src/common/byte_codec.cpp:11-33 | the eight bytes of a 64-bit integer, lowest first |
| ByteCodec.FourBytes | src/common/byte_codec.cpp:11-33 | the four bytes of a 32-bit integer, lowest first |
| ByteCodec.TwosComplement | src/storage/record.cpp:36-39 | a signed integer and its stored word differ by a multiple of 2^64 |
| ByteCodec.WriteAt | src/storage/page.cpp:22-40 | the shift loop changes exactly the addressed bytes, to the encoding of the value |
| ByteCodec.ReadAt | src/common/byte_codec.cpp:23-33 | the shift-and-or loop reads the integer that the bytes encode |
| ByteStreams.ByteReader.Consume | src/common/byte_codec.cpp:124-137 | hands out the next bytes, or fails and stays where it is when too few are left |
| BufferPool.BufferPoolManager.FetchPage | src/storage/buffer_pool.cpp:104-151 | shows the same pages as before; exactly when it succeeds; failure changes nothing, LRU order included; which page is evicted |
| BufferPool.BufferPoolManager.NewPage | src/storage/buffer_pool.cpp:153-194 | appends one fresh page to the view; with a frame free it fails if and only if the file already has 2^64 bytes; failures leave the view alone |
| BufferPool.BufferPoolManager.DeletePage | src/storage/buffer_pool.cpp:215-242 | succeeds exactly for the unpinned last page and cuts it off the view; otherwise nothing changes |
| BufferPool.BufferPoolManager.FlushPage | src/storage/buffer_pool.cpp:196-203 | writes one resident page to the disk, changing neither the view nor residency nor order |
| BufferPool.BufferPoolManager.FlushAllPages | src/storage/buffer_pool.cpp:205-213 | no frame stays dirty, and with no guard out the disk equals the view |
| BufferPool.BufferPoolManager.AcquireFrame | src/storage/buffer_pool.cpp:260-270 | fails if and only if every frame is pinned; otherwise an empty frame, or the least recently released one |
| BufferPool.BufferPoolManager.PrepareFrameForUse | src/storage/buffer_pool.cpp:272-291 | empties a frame after writing it back, losing no page contents |
| BufferPool.BufferPoolManager.UnpinPage | src/storage/buffer_pool.cpp:311-330 | gives one pin back; the last release puts the page at the young end of the LRU order |
| BufferPool.PinnedPage.Write | src/storage/buffer_pool.cpp:52-56 | a mutation through a guard is seen by every later reader at once, while frame flag and disk are still as before |
| BufferPool.PinnedPage.Release | src/storage/buffer_pool.cpp:66-75 | a guard passes its mutation mark to the frame exactly once; releasing again is harmless |
| BufferPool.PinnedPage.Move | src/storage/buffer_pool.cpp:27-33 | moving hands over the pin and the mutation mark, and leaves the old guard empty; an empty guard moves to an empty guard |
| BufferPool.PinnedPage.MoveFrom | src/storage/buffer_pool.cpp:35-45 | assigning to a guard releases what it held and takes over what the other held, if anything; assigning a guard to itself does nothing |
| BufferPool.WrittenOk | src/storage/buffer_pool.cpp:52-56 | the pool invariant survives a mutation: a clean frame differs from the disk only while some live guard is marked dirty |
| BufferPool.UnpinnedOk | src/storage/buffer_pool.cpp:311-330 | the pool invariant survives a release: pins equal live guards, the LRU list is exactly the unpinned resident frames, table and frames stay inverse |
| BufferPool.FlushedOk | src/storage/buffer_pool.cpp:293-309 | the pool invariant survives a flush while guards are out, with view and order unchanged |
| BufferPool.CleanPoolMatchesDisk | src/storage/buffer_pool.cpp:205-213 | with all frames clean and no guard out, disk and view agree on every page |
| LruStack.HoldsMostRecent | src/storage/buffer_pool.cpp:260-291 | after any trace of accesses a pool of k frames holds exactly the k most recently used pages, in order of last use |
| LruStack.Inclusion | src/storage/buffer_pool.cpp:260-291 | a pool with more frames holds everything a smaller one holds |
| LruStack.HitsMonotone | src/storage/buffer_pool.cpp:260-291 | adding frames never loses a hit, over any trace |
| PageManager.ReadTrace | src/storage/buffer_pool.cpp:104-151 | over any trace of reads a pool that starts empty ends with exactly the k most recently used pages in LRU order, and has the hits that the law counts |
| PageManager.CompareTraces | src/storage/buffer_pool.cpp:104-151 | over any one trace a pool with more frames ends with every page that a smaller one has, and has no fewer hits |
| PageManager.ReadPage | src/storage/page_manager.cpp:32-38 | returns the page of the view, whatever the frame count; one read is one access of the LRU law |
| PageManager.AllocatePage | src/storage/page_manager.cpp:24-30 | appends a created page, unless the file already has 2^64 bytes |
| PageManager.WritePage | src/storage/page_manager.cpp:40-58 | replaces exactly one page of the view, or fails with the view unchanged for an id past the end |
| NodeCodec.NodeRoundTrip | src/storage/bplus_tree.cpp:144-266 | decoding an encoded valid node gives the node, and the page keeps its header |
| NodeCodec.LeafLayout | src/storage/bplus_tree.cpp:20-29 | every field of a leaf, its entries included, at its byte offset in the payload, in numbers |
| NodeCodec.InnerLayout | src/storage/bplus_tree.cpp:20-29 | every field of an inner node, its keys and children included, at its byte offset in the payload, in numbers |
| NodeCodec.NodeOkExactly | src/storage/bplus_tree.cpp:111-142 | which nodes may be written or read: at most eight entries or keys, strictly ascending, with valid ids |
| TreeModel.PropagateWf | src/storage/bplus_tree.cpp:482-570 | pushing a new sibling up through any number of full ancestors, up to a new root, keeps order, ranges, depth and fill |
| TreeModel.PropagateUses | src/storage/bplus_tree.cpp:535-569 | the same cascade uses every old page as before and exactly the newly allocated ones, once each |
| TreeModel.PropagateLeaves | src/storage/bplus_tree.cpp:482-570 | the same cascade keeps the left-to-right sequence of leaves |
| TreeContents.WfEntries | src/storage/bplus_tree.cpp:393-427 | the entries of a well-formed tree, read leaf by leaf, are strictly increasing and within range |
| TreeContents.InsertedTreeWf | src/storage/bplus_tree.cpp:301-362 | inserting into the leaf of the key, with all splits, yields a well-formed tree |
| TreeContents.InsertedTreeEntries | src/storage/bplus_tree.cpp:301-362 | inserting into the leaf of the key, with all splits, adds one entry at its place to the whole tree's entries |
| TreeContents.TreeSize | include/kerndb/storage/bplus_tree.h:15-16 | a tree with h >= 1 internal levels has at least 8 * 5^(h-1) entries |
| TreeContents.GrowthAlong | src/storage/bplus_tree.cpp:482-570 | what the cascade allocates on its way up is what the tree says on the way down: a page for every node that is split, and a root |
| IndexFiles.PagesFew | src/storage/bplus_tree.cpp:464-480 | an index file of more than one page has at least two entries per page |
| IndexFiles.PagesNeeded | src/storage/bplus_tree.cpp:482-570 | the splits of one insertion take at most as many pages as the file has |
| TreeStore.RepUnique | src/storage/bplus_tree.cpp:433-448 | the pages of a file determine the tree below any page id |
| TreeStore.OnlyRootLacksParent | src/storage/bplus_tree.cpp:286-299 | in every well-formed file a node lacks a parent if and only if it is the current root |
| TreeSteps.SplitParent | src/storage/bplus_tree.cpp:535-569 | rewriting a full parent, adding its right half and reparenting the moved children keeps pages and tree in step |
| TreeSteps.GrowRoot | src/storage/bplus_tree.cpp:487-506 | a new root over two halves, with both parent ids rewritten, represents the grown tree |
| TreeSteps.SplitLeaf | src/storage/bplus_tree.cpp:340-360 | splitting a leaf keeps pages and tree in step and the leaf chain in key order |
| IndexFiles.LeafCount | src/storage/bplus_tree.cpp:393-427 | there are no more leaves than pages, so the scan's cycle guard never fires |
| BPlusTrees.BPlusTree.Create | src/storage/bplus_tree.cpp:274-284 | appends an empty leaf page behind whatever the file has; in an empty file that is an empty valid tree |
| BPlusTrees.BPlusTree.Open | src/storage/bplus_tree.cpp:286-299 | over any file, the exact outcome; in an index file it succeeds if and only if the given page is the current root, so any stale root is rejected |
| BPlusTrees.BPlusTree.Insert | src/storage/bplus_tree.cpp:301-362 | keeps the whole-tree invariant and sets map[key := rid]; the file grows by one page for every node of the way that has eight keys or entries from the leaf up, and a new root; fails exactly for an invalid id or a present key, changing nothing, or when these pages do not fit 2^52 |
| BPlusTrees.BPlusTree.InsertIntoParent | src/storage/bplus_tree.cpp:482-570 | from any half-finished split, following stored parent ids upward ends in the tree that the split cascade describes, if and only if the pages for it are left |
| BPlusTrees.BPlusTree.SetParent | src/storage/bplus_tree.cpp:572-580 | changes one node's parent id and nothing else |
| BPlusTrees.BPlusTree.Search | src/storage/bplus_tree.cpp:364-391 | returns the mapped id when the key is present and not-found otherwise, over any frame count |
| BPlusTrees.BPlusTree.ScanAll | src/storage/bplus_tree.cpp:393-427 | always succeeds and returns every entry once in increasing key order |
| SlottedPages.SlottedPage.Validate | src/storage/heap.cpp:233-262 | accepts exactly the pages whose bounds and slots are in order |
| SlottedPages.SlottedPage.Insert | src/storage/heap.cpp:90-137 | the exact outcome for every page and record: corrupt, empty, too long, no room, or the page with the record appended |
| SlottedPages.SlottedPage.Read | src/storage/heap.cpp:139-148 | the record of a slot, out-of-range past the last slot, corruption for an invalid page |
| SlottedPages.SlottedPage.Records | src/storage/heap.cpp:150-166 | all records in slot order |
| SlottedPages.AppendedOk | src/storage/heap.cpp:90-137 | an insertion leaves a valid page whose old slots read the same bytes and whose new slot reads the record; free bytes drop by size + 12 |
| SlottedPages.InitializedOk | src/storage/heap.cpp:65-79 | an initialized page is valid, has no records and 4048 free bytes |
| SlottedPages.InitializedLayout | src/storage/heap.cpp:65-79 | the bounds of an empty page at their byte offsets, in numbers |
| SlottedPages.AppendedLayout | src/storage/heap.cpp:90-137 | where an insertion puts the record, its slot and the new bounds, in numbers |
| SlottedPages.SlottedExactly | src/storage/heap.cpp:233-262 | which pages validate, in numbers |
| SlottedPages.UninitializedRejected | src/storage/heap.cpp:233-262 | a page that was allocated but never initialized does not validate |
| FirstFit.PlacedRecords | src/storage/heap.cpp:276-306 | placing a record first-fit gives it an unused id and leaves the record under every other id alone |
| FirstFit.PlacedCells | src/storage/heap.cpp:356-389 | the scan after a placement is the scan before it with the record put in at its place |
| FirstFit.IdsAreStable | src/storage/heap.cpp:267-332 | over any run, every id keeps reading its own record and no id is given twice |
| FirstFit.ScanIsTheLog | src/storage/heap.cpp:356-389 | over any run, the scan is a permutation of the records placed |
| FirstFit.OrderKept | src/storage/index_catalog_store.cpp:142-162 | among records of one length, scan order is the order of placement: free space never grows, so a later one is never placed before an earlier one |
| RecordFiles.AppendRecord | src/storage/heap.cpp:267-332 | the page loop places the record first-fit; in every other case the exact outcome, including when and how a record over 4036 bytes spoils the file |
| RecordFiles.ScanReadable | src/storage/heap.cpp:391-424 | scanning a readable file decodes its records in page and slot order |
| RecordFiles.ScanNeedsReadable | src/storage/heap.cpp:391-424 | a scan that succeeds has found every page valid |
| RecordCodec.RecordRoundTrip | src/storage/record.cpp:21-104 | decoding an encoded tuple gives the tuple |
| RecordCodec.RecordCanonical | src/storage/record.cpp:55-104 | bytes that decode under a schema are the encoding of what they decode to |
| RecordCodec.RecordLayout | src/storage/record.cpp:21-53 | the bytes of the record of an INT and a TEXT: version 1, two columns, eight bytes, a length and the text |
| RecordCodec.EncodableExactly | src/storage/record.cpp:21-53 | a tuple is encodable if and only if it matches the schema and the counts and text lengths fit their fields; its record then has 4 bytes, 8 per INT and 4 besides the text per TEXT |
| RecordCodec.WriteRecord | src/storage/record.cpp:21-53 | the writer loop produces the encoding, with the same errors |
| RecordCodec.ReadTuple | src/storage/record.cpp:55-104 | the reader loop decodes exactly, with the same errors |
| TableHeaps.TableHeap.Insert | src/storage/heap.cpp:267-332 | adds one row under an unused id and keeps all others; a tuple the encoder refuses touches nothing; every other failure with the condition under which it spoils the file |
| TableHeaps.StorableExactly | src/storage/heap.cpp:267-332 | a tuple has a record that an empty page takes if and only if it is encodable and its size, computed from the values, is at most 4036 |
| TableHeaps.FourFullTexts | src/storage/heap.cpp:308-323 | four texts of full length encode to 4116 bytes and spoil an empty file; three of them fit |
| TableHeaps.TableHeap.Read | src/storage/heap.cpp:334-354 | returns a tuple if and only if the scan lists it under that id |
| TableHeaps.TableHeap.Scan | src/storage/heap.cpp:356-389 | returns the tuples of all rows in page and slot order |
| TableHeaps.TableHeap.ScanWithRecordIds | src/storage/heap.cpp:391-424 | returns every row with its id |
| TableHeaps.HeapLaw | src/storage/heap.cpp:267-424 | after any run of insertions the scan is the multiset of the tuples inserted and every id returned still lists its own tuple |
| TableHeaps.RowsAscend | src/storage/heap.cpp:391-424 | row ids of a scan are strictly increasing, hence distinct |
| IndexCodec.IndexRoundTrip | src/storage/index_catalog_store.cpp:18-66 | decoding encoded index metadata gives it back |
| IndexCodec.IndexCanonical | src/storage/index_catalog_store.cpp:37-66 | bytes that decode as index metadata are its encoding |
| IndexCodec.IndexLayout | src/storage/index_catalog_store.cpp:18-35 | the bytes of an index record in order, and which fields are valid |
| IndexCodec.WriteIndex | src/storage/index_catalog_store.cpp:18-35 | the writer produces the encoding, with the same errors |
| IndexCodec.ReadIndex | src/storage/index_catalog_store.cpp:37-66 | the reader decodes exactly, with the same errors |
| IndexCatalogs.NewestWins | src/storage/index_catalog_store.cpp:101-121 | after any appends with one name length per id, the version found last for an id is the one appended last |
| IndexCatalogs.Replay | src/storage/index_catalog_store.cpp:80-121 | the loop over records accepts exactly the consistent histories and keeps the newest version of every id |
| IndexCatalogs.RecordableExactly | src/storage/index_catalog_store.cpp:18-35 | metadata can be recorded if and only if its fields are valid and its name has at most 4000 bytes |
| IndexCatalogs.LongIndexName | src/storage/index_catalog_store.cpp:133-181 | a name of 4001 bytes encodes, does not fit and spoils an empty catalog; one of 4000 bytes fits |
| IndexCatalogs.IndexCatalogStore.Append | src/storage/index_catalog_store.cpp:133-181 | appends one version to the log that the file holds; every failure, with the condition under which it spoils the file |
| IndexCatalogs.IndexCatalogStore.Load | src/storage/index_catalog_store.cpp:78-131 | succeeds exactly for readable, decodable, consistent catalogs and returns the last version appended per id, in id order |
| TableCatalogs.TableRoundTrip | src/storage/catalog_store.cpp:15-94 | decoding encoded table metadata gives it back, except that id 0 is refused |
| TableCatalogs.TableCanonical | src/storage/catalog_store.cpp:40-94 | bytes that decode as table metadata are its encoding |
| TableCatalogs.TableLayout | src/storage/catalog_store.cpp:15-38 | the bytes of the record of a table with an INT and a TEXT column in order |
| TableCatalogs.WriteTable | src/storage/catalog_store.cpp:15-38 | the writer produces the encoding, with the same errors |
| TableCatalogs.TablesFound | src/storage/catalog_store.cpp:106-138 | a scan of the catalog finds exactly the tables appended |
| TableCatalogs.RecordableExactly | src/storage/catalog_store.cpp:15-38 | metadata can be recorded if and only if the id is not reserved, all names are there, and 12 + the table name + (3 + name) per column is at most 4036 |
| TableCatalogs.TableEncodableExactly | src/storage/catalog_store.cpp:15-38 | metadata encodes if and only if all names are there and the 16-bit fields take their lengths and the column count; the size of its record |
| TableCatalogs.LongColumnName | src/storage/catalog_store.cpp:140-188 | beside a table name of one byte a column name of 4021 bytes encodes, does not fit and spoils an empty catalog; one of 4020 bytes fits |
| TableCatalogs.CatalogStore.Append | src/storage/catalog_store.cpp:140-188 | appends one table to the log that the file holds; every failure, with the condition under which it spoils the file |
| TableCatalogs.CatalogStore.Load | src/storage/catalog_store.cpp:106-138 | returns exactly the tables appended, as a multiset |
| Catalogs.NormalizeIdempotent | src/catalog/catalog.cpp:10-18 | normalizing a name twice is normalizing it once |
| Catalogs.NormalizedBytes | src/catalog/catalog.cpp:10-18 | byte by byte a capital becomes its small letter, 32 more, and nothing else changes |
| Catalogs.NormalizedSame | src/catalog/catalog.cpp:10-18 | two names are one identifier if and only if they agree up to ASCII case |
| Catalogs.InMemoryCatalog.CreateTable | src/catalog/catalog.cpp:20-50 | the exact outcome; refused if and only if some table has the name up to case; a new table gets the next id, the counter moves by one, and its name is the given one in small letters |
| Catalogs.InMemoryCatalog.LoadTable | src/catalog/catalog.cpp:52-81 | registers a loaded table and keeps later fresh ids above its id |
| Catalogs.InMemoryCatalog.RemoveTable | src/catalog/catalog.cpp:83-92 | forgets one table and its name |
| Catalogs.InMemoryCatalog.FindTableByName | src/catalog/catalog.cpp:94-112 | finds a table if and only if its name agrees with the given one up to ASCII case |
| Catalogs.InMemoryCatalog.CreateIndex | src/catalog/catalog.cpp:132-177 | the exact outcome; refused if and only if some index has the name up to case or the column; a new index gets the next id and the counter moves by one |
| Catalogs.InMemoryCatalog.LoadIndex | src/catalog/catalog.cpp:179-208 | accepts a loaded index exactly when it is consistent with the tables and the other indexes; later fresh ids stay above its id |
| Catalogs.InMemoryCatalog.UpdateIndexRoot | src/catalog/catalog.cpp:221-232 | changes one root page and nothing else |
| IndexedTables.AgreesAsMap | src/storage/persistent_storage.cpp:154-222 | agreement makes the index's map exactly {row[column] -> row id} over the table's rows |
| IndexedTables.AgreesGrows | src/storage/persistent_storage.cpp:154-222 | a new row and its entry keep index and table in agreement |
| IndexedTables.ReadyForKey | src/storage/persistent_storage.cpp:189-220 | after the first pass no second-pass tree insertion can find its key taken, however far the second pass has come |
| IndexedTables.HalfwayAdded | src/storage/persistent_storage.cpp:189-222 | when the second pass has visited every index, the table has one more row and all indexes agree with it again |
| IndexedTables.IndexCreated | src/storage/persistent_storage.cpp:233-293 | an index filled from a table's rows makes a consistent database |
| IndexedTables.FoundMeans | src/storage/persistent_storage.cpp:295-331 | a key found in an index leads to the one row that has that value in the column |
| IndexedTables.NotFoundMeans | src/storage/persistent_storage.cpp:295-331 | a key absent from an index means that no row has that value |
| Storage.PersistentStorage.CreateTable | src/storage/persistent_storage.cpp:126-152 | adds an empty table to the database; a failure changes no table and no index, means that page ids have run out or that the metadata does not fit a page, and spoils the catalog exactly under the stated condition |
| Storage.PersistentStorage.FindDuplicate | src/storage/persistent_storage.cpp:155-178 | the first pass refuses a tuple if and only if it repeats an indexed value, and changes nothing |
| Storage.PersistentStorage.Insert | src/storage/persistent_storage.cpp:154-222 | all or nothing over the heap and all indexes: a duplicate or a tuple that the encoder refuses changes nothing, a success adds the row everywhere; else page ids have run out, or the record fits no page and spoils this heap, exactly under the stated condition, and nothing else |
| Storage.PersistentStorage.ExhaustedExactly | src/storage/disk_manager.cpp:17-23 | a file has used up its page ids if and only if its next page would begin at byte 2^64 |
| Storage.RefusedWorld | src/storage/persistent_storage.cpp:180-188 | a refusal by a table file changes the database if and only if the tuple encodes, is too long for a page and the file can get one more |
| Storage.PersistentStorage.InsertIntoIndexes | src/storage/persistent_storage.cpp:189-220 | the second pass completes the insertion and can fail only for exhausted page ids |
| Storage.PersistentStorage.CreateIndex | src/storage/persistent_storage.cpp:233-293 | builds an index that agrees with its table; a failure changes no table and no index, and means shared keys, more rows than a file has pages, exhausted page ids, or a name that fits no page, which spoils the catalog exactly under the stated condition |
| Storage.PersistentStorage.LookupByIndex | src/storage/persistent_storage.cpp:295-331 | available if and only if the column is indexed; then the one row with the key, or none if there is none |
| Storage.PersistentStorage.Scan | src/storage/persistent_storage.cpp:224-231 | returns all rows of a table |
| Reopening.Close | src/storage/buffer_pool.cpp:100-102 | closing leaves files that hold the whole database, whatever was still only in the pools |
| Reopening.Open | src/storage/persistent_storage.cpp:39-124 | opening such files restores the same database; the next ids are the least above all loaded ids |
| Reopening.EmptyDirectory | src/storage/persistent_storage.cpp:39-124 | an empty directory is the empty database |
| Planner.PlanMeansStatement | src/planner/planner.cpp:9-80 | every plan carries out its statement; an index scan is chosen exactly for an equality with an integer |
| Planner.SelectedAtMostOne | src/execution/executor.cpp:144-205 | when one row at most matches, the rows selected are that row's projection |
| Planner.SelectedAnswers | src/execution/executor.cpp:121-134 | the rows selected are, in order and once each, the projections of exactly those tuples that have the literal in the column, or of all when there is no predicate |
| Executor.LookupSelects | src/execution/executor.cpp:144-205 | what an index lookup finds is what the filter over all rows selects, and the tuple found satisfies the predicate |
| Executor.FilterRows | src/execution/executor.cpp:121-134 | the loop gives, in order and once each, the projections of exactly the tuples that have the literal in the column, or of all tuples |
| Executor.SelectFound | src/execution/executor.cpp:179-204 | when the tuple found matches, the result has its projection; the corruption branch is taken only if it does not match |
| Executor.Database.ExecuteSequentialScan | src/execution/executor.cpp:100-142 | answers with the projected columns and, in order, the projections of exactly the rows that pass the predicate; changes nothing |
| Executor.Database.ExecuteIndexScan | src/execution/executor.cpp:144-205 | answers what the sequential scan with that predicate answers, columns and rows; the mismatched-key branch is unreachable |
| Executor.Database.ExecuteInsert | src/execution/executor.cpp:77-98 | a row goes into its table and all of the table's indexes, or nowhere; how every failure ends, as Outcome says |
| Executor.Database.ExecuteCreateTable | src/execution/executor.cpp:12-37 | the table is registered and stored, or the registration is taken back; how every failure ends, as Outcome says |
| Executor.Database.ExecuteCreateIndex | src/execution/executor.cpp:39-75 | the index is registered and built, or the registration is taken back; how every failure ends, as Outcome says |
| Executor.Database.Execute | src/execution/executor.cpp:209-228 | every statement that succeeds has exactly its effect and keeps the database consistent, and a selection answers with exactly the rows that pass; one that must be refused is refused and changes nothing; one whose data fits no page fails and damages one file exactly under the stated condition; any other failure means that ids have run out |
| Executor.EffectConserves | src/execution/executor.cpp:77-98 | one statement keeps every row under its id and adds to a table what it inserts there, nothing else |
| Executor.RunConserves | src/execution/executor.cpp:209-228 | over any run of statements, refused ones included, a table ends up with its first rows and the tuples inserted into it, and every row keeps its id |
| Executor.OpenDatabase | src/database.cpp:32-40 | opening the files of a database gives that database, with the next ids the least above all loaded ones |
| Executor.CloseAndReopen | src/database.cpp:32-40 | closing a database and opening its files gives the same database |
| Lexers.LexSql | src/parser/lexer.cpp:84-144 | succeeds if and only if the input is words with trivia between them (longest names and numbers, quoted texts, symbols, white space and comments, keywords in any case), and gives those words with their offsets, lines and columns |
| Lexers.PiecesRead | src/parser/lexer.cpp:84-144 | what the lexer finds is such a reading of the input |
| Lexers.ReadingFound | src/parser/lexer.cpp:84-144 | every such reading of the input is the one the lexer finds, so there is one at most |
| Lexers.KeywordExactly | src/parser/lexer.cpp:20-70 | a name is a keyword if and only if it agrees with it letter by letter up to case, and otherwise an identifier |
| Lexers.LocationExact | src/parser/lexer.cpp:159-169 | a line more for every newline before, a column more for every character since the last one |
| Lexers.DoubledExactly | src/parser/lexer.cpp:213-235 | the printed form of a text doubles its quotes and keeps every other character |
| Lexers.SpansOrdered | src/parser/lexer.cpp:159-171 | on every input token spans are non-empty, ordered and disjoint, and only the last token is the end token |
| Lexers.StringBack | src/parser/lexer.cpp:213-235 | a string literal with doubled quotes reads back as the string, whatever it contains |
| Lexers.WordsBack | src/parser/lexer.cpp:84-144 | printed words lex to the same words |
| Lexers.Lexer.SkipTrivia | src/parser/lexer.cpp:171-186 | skips white space and comments, and nothing else |
| Lexers.Lexer.LexString | src/parser/lexer.cpp:213-235 | reads a literal up to its closing quote, or fails when there is none |
| Lexers.Lexer.LexToken | src/parser/lexer.cpp:92-135 | reads exactly the next word of the input |
| Parsers.DecimalOfDigits | src/parser/parser.cpp:76-118 | the decimal digits of a number read back as the number, the smallest 64-bit integer's magnitude included |
| Parsers.IntegerExactly | src/parser/parser.cpp:96-110 | a literal has the value of its digits and sign, and is refused if and only if that is no signed 64-bit number |
| Parsers.ListSound | src/parser/parser.cpp:155-321 | a list that the parser reads is a comma-separated list of the grammar |
| Parsers.ListComplete | src/parser/parser.cpp:155-321 | a comma-separated list of the grammar is read to its end |
| Parsers.StatementSound | src/parser/parser.cpp:120-321 | words that parse are a statement of the grammar with that meaning |
| Parsers.StatementComplete | src/parser/parser.cpp:120-321 | every statement of the grammar parses to its meaning, whatever follows it but WHERE |
| Parsers.AcceptsExactly | src/parser/parser.cpp:27-40 | a token sequence parses to a statement if and only if it is a sentence of the grammar for it |
| Parsers.StatementRecased | src/parser/parser.cpp:120-321 | the grammar does not look at the case of keywords |
| Parsers.PrintedReadsBack | src/parser/parser.cpp:329-335 | printing any statement, its keywords in any case, and then lexing and parsing the text gives the same statement, with or without a semicolon |
| Parsers.StatementParser.ParseLiteralValue | src/parser/parser.cpp:76-118 | reads a literal, with the signed 64-bit range and the sign rule checked exactly |
| Parsers.StatementParser.ParseOneStatement | src/parser/parser.cpp:120-153 | the cursor computes the recursive reading of the rest of the tokens and never passes the end token |
| Parsers.StatementParser.Parse | src/parser/parser.cpp:27-40 | one statement, at most one semicolon, then the end |
| Parsers.ParseSql | src/parser/parser.cpp:329-335 | a text parses to a statement if and only if it reads as a sentence of the grammar for it |

## Left out

- File system work: paths, directories, the metadata file, the clock-based database
  id and I/O failures. A file is a sequence of pages that can be written up to its
  end and shortened by its last page.
- Telemetry counters, status messages and context strings: no effect on results.
  Errors are error codes.
- The binder: a bound statement (known table, columns in range, literals of the
  column's type, an INT column under an index) is what `Executor.Bound` assumes.
- The purely in-memory mode without storage, the shell, and result printing.
- Transactions, locking, logging, crash recovery, range scans, update and delete:
  not implemented by the program.
- Pin counts are unbounded; the program counts in 32 bits and checks the overflow.
- Table and index files are opened when the database is opened, not on first use;
  a new index file joins the open ones only when it is complete, so removing a
  failed index's file is not modelled.
- The catalogs decode all records before they compare histories; the error code is
  the same either way.
- Reopening.Open: states what happens for files that a clean close has left, not
  for arbitrary files.
- Executor.OpenDatabase: the same.
- Executor.Database.Execute: after an insertion that has run out of page ids the
  contract does not promise a usable database; the program can leave a row without
  its index entries there.
- PageManager.WritePage: a page whose header does not belong to a page of its own id
  is not modelled; the program puts it into its frame and fails when it flushes it.
- Parsers.PrintedReadsBack: source spans are not part of the syntax tree; keywords
  and names are printed with one space between tokens.
- Lexers.LexSql: character classes are those of ASCII; the program asks the C
  locale.
