// How a B+ tree node is laid out in the payload of an index page.
module NodeCodec {
  import opened Results
  import opened ByteCodec
  import opened Pages
  import opened TreeModel

  const NODE_MAGIC: Word32 := 0x4250544E
  const NODE_VERSION: Word16 := 1
  const NODE_HEADER_SIZE: nat := 32
  const LEAF_ENTRY_SIZE: nat := 20
  const INNER_ENTRY_SIZE: nat := 16
  const PAYLOAD_SIZE: nat := 4056
  const INVALID_SLOT: Word32 := 0xFFFF_FFFF
  const LEAF_KIND: Byte := 1
  const INNER_KIND: Byte := 2

  datatype Node =
    | LeafNode(parent: Word64, next: Word64, entries: seq<Entry>)
    | InnerNode(parent: Word64, keys: seq<Int64>, children: seq<Word64>)

  // The largest 64-bit page id and the largest 32-bit slot id mean "none".
  predicate RidValid(rid: Rid) {
    rid.page < INVALID_ID && rid.slot < INVALID_SLOT
  }

  // What every encode and decode of a node checks.
  predicate NodeOk(node: Node) {
    match node
    case LeafNode(_, _, entries) =>
      && |entries| <= MAX_ENTRIES
      && (forall i | 0 <= i < |entries| :: RidValid(entries[i].rid))
      && (forall i | 0 < i < |entries| :: entries[i - 1].key < entries[i].key)
    case InnerNode(_, keys, children) =>
      && |keys| <= MAX_KEYS
      && |children| == |keys| + 1
      && (forall i | 0 < i < |keys| :: keys[i - 1] < keys[i])
      && (forall c | c in children :: c != INVALID_ID)
  }

  type Payload = p: seq<Byte> | |p| == 4056 witness seq(4056, i => 0)

  // ---- encoding: fields written at their offsets over zeroes ----

  function ZeroPayload(): Payload {
    seq(PAYLOAD_SIZE, i => 0)
  }

  function WithNodeHeader(p: Payload, magic: Word32, version: Word16, kind: Byte, size: Byte, count: Word16,
                          parent: Word64, link: Word64): Payload {
    var p1 := Put(p, 0, 4, magic);
    var p2 := Put(p1, 4, 2, version);
    var p3 := Put(p2, 6, 1, kind);
    var p4 := Put(p3, 7, 1, size);
    var p5 := Put(p4, 8, 2, count);
    var p6 := Put(p5, 12, 8, parent);
    Put(p6, 20, 8, link)
  }

  function EntryAt(i: nat): nat {
    NODE_HEADER_SIZE + i * LEAF_ENTRY_SIZE
  }

  function ChildAt(i: nat): nat {
    NODE_HEADER_SIZE + i * INNER_ENTRY_SIZE
  }

  function PutEntry(p: Payload, i: nat, e: Entry): Payload
    requires i < MAX_ENTRIES
  {
    var p1 := Put(p, EntryAt(i), 8, ToUnsigned(e.key));
    var p2 := Put(p1, EntryAt(i) + 8, 8, e.rid.page);
    Put(p2, EntryAt(i) + 16, 4, e.rid.slot)
  }

  // The first n entries.
  function PutEntries(p: Payload, es: seq<Entry>, n: nat): Payload
    requires n <= |es| && |es| <= MAX_ENTRIES
  {
    if n == 0 then p else PutEntry(PutEntries(p, es, n - 1), n - 1, es[n - 1])
  }

  function PutChild(p: Payload, i: nat, key: Int64, child: Word64): Payload
    requires i < MAX_KEYS
  {
    Put(Put(p, ChildAt(i), 8, ToUnsigned(key)), ChildAt(i) + 8, 8, child)
  }

  function PutChildren(p: Payload, keys: seq<Int64>, children: seq<Word64>, n: nat): Payload
    requires n <= |keys| && |keys| <= MAX_KEYS && |children| == |keys| + 1
  {
    if n == 0 then p else PutChild(PutChildren(p, keys, children, n - 1), n - 1, keys[n - 1], children[n])
  }

  function EncodePayload(node: Node): Payload
    requires NodeOk(node)
  {
    match node
    case LeafNode(parent, next, entries) =>
      var p := WithNodeHeader(ZeroPayload(), NODE_MAGIC, NODE_VERSION, LEAF_KIND, NODE_HEADER_SIZE, |entries|, parent, next);
      PutEntries(p, entries, |entries|)
    case InnerNode(parent, keys, children) =>
      var p := WithNodeHeader(ZeroPayload(), NODE_MAGIC, NODE_VERSION, INNER_KIND, NODE_HEADER_SIZE, |keys|, parent, children[0]);
      PutChildren(p, keys, children, |keys|)
  }

  function EncodeNode(p: Page, node: Node): Result<Page> {
    if !NodeOk(node) then Err(Corruption)
    else if TypeOf(p) != Index then Err(Internal)
    else Ok(p[..PAGE_HEADER_SIZE] + EncodePayload(node))
  }

  // ---- decoding ----

  function Field64(p: Payload, offset: nat): Word64
    requires offset + 8 <= PAYLOAD_SIZE
  {
    Capacities();
    EncodeDecode(p[offset..offset + 8]);
    Get(p, offset, 8)
  }

  function Field32(p: Payload, offset: nat): Word32
    requires offset + 4 <= PAYLOAD_SIZE
  {
    Capacities();
    EncodeDecode(p[offset..offset + 4]);
    Get(p, offset, 4)
  }

  function DecodeEntries(p: Payload, n: nat): Result<seq<Entry>>
    requires n <= MAX_ENTRIES
  {
    if n == 0 then Ok([])
    else
      match DecodeEntries(p, n - 1)
      case Err(e) => Err(e)
      case Ok(es) =>
        var page := Field64(p, EntryAt(n - 1) + 8);
        if page == INVALID_ID then Err(Corruption)
        else
          var slot := Field32(p, EntryAt(n - 1) + 16);
          Ok(es + [Entry(ToSigned(Field64(p, EntryAt(n - 1))), Rid(page, slot))])
  }

  function DecodeKeys(p: Payload, n: nat): seq<Int64>
    requires n <= MAX_KEYS
  {
    if n == 0 then [] else DecodeKeys(p, n - 1) + [ToSigned(Field64(p, ChildAt(n - 1)))]
  }

  function DecodeChildren(p: Payload, n: nat): Result<seq<Word64>>
    requires n <= MAX_KEYS
  {
    if n == 0 then
      if Field64(p, 20) == INVALID_ID then Err(Corruption) else Ok([Field64(p, 20)])
    else
      match DecodeChildren(p, n - 1)
      case Err(e) => Err(e)
      case Ok(cs) =>
        var child := Field64(p, ChildAt(n - 1) + 8);
        if child == INVALID_ID then Err(Corruption) else Ok(cs + [child])
  }

  function Checked(node: Node): Result<Node> {
    if NodeOk(node) then Ok(node) else Err(Corruption)
  }

  function DecodePayload(p: Payload): Result<Node> {
    if Get(p, 0, 4) != NODE_MAGIC || Get(p, 4, 2) != NODE_VERSION || Get(p, 7, 1) != NODE_HEADER_SIZE then
      Err(Corruption)
    else if Get(p, 6, 1) != LEAF_KIND && Get(p, 6, 1) != INNER_KIND then Err(Corruption)
    else
      var parent, count := Field64(p, 12), Get(p, 8, 2);
      if Get(p, 6, 1) == LEAF_KIND then
        if count > MAX_ENTRIES then Err(Corruption)
        else
          match DecodeEntries(p, count)
          case Err(e) => Err(e)
          case Ok(entries) => Checked(LeafNode(parent, Field64(p, 20), entries))
      else
        if count > MAX_KEYS then Err(Corruption)
        else
          match DecodeChildren(p, count)
          case Err(e) => Err(e)
          case Ok(children) => Checked(InnerNode(parent, DecodeKeys(p, count), children))
  }

  function DecodeNode(p: Page): Result<Node> {
    if TypeOf(p) != Index then Err(Corruption) else DecodePayload(p[PAGE_HEADER_SIZE..])
  }

  lemma DecodedOk(p: Page)
    ensures DecodeNode(p).Ok? ==> NodeOk(DecodeNode(p).value)
  {
  }

  // ---- round trip ----

  lemma SignRoundTrip(key: Int64)
    ensures ToSigned(ToUnsigned(key)) == key
  {
  }

  lemma FiveBlocks(p: Payload, a: seq<Byte>, b: seq<Byte>, c: seq<Byte>, d: seq<Byte>, e: seq<Byte>)
    requires |a| == 4 && |b| == 2 && |c| == 1 && |d| == 1 && |e| == 2
    ensures var q := Splice(Splice(Splice(Splice(Splice(p, 0, a), 4, b), 6, c), 7, d), 8, e);
      q[0..4] == a && q[4..6] == b && q[6..7] == c && q[7..8] == d && q[8..10] == e
  {
    SpliceAdjacent(p, 0, a, b);
    SpliceAdjacent(p, 0, a + b, c);
    SpliceAdjacent(p, 0, a + b + c, d);
    SpliceAdjacent(p, 0, a + b + c + d, e);
    var h := a + b + c + d + e;
    var q := Splice(p, 0, h);
    SpliceInside(p, 0, h);
    hide Splice;
    assert q[0..10] == h;
    assert q[0..4] == h[0..4] && q[4..6] == h[4..6] && q[6..7] == h[6..7] && q[7..8] == h[7..8] && q[8..10] == h[8..10];
  }

  lemma SevenBlocks(p: Payload, a: seq<Byte>, b: seq<Byte>, c: seq<Byte>, d: seq<Byte>, e: seq<Byte>, f: seq<Byte>, g: seq<Byte>)
    requires |a| == 4 && |b| == 2 && |c| == 1 && |d| == 1 && |e| == 2 && |f| == 8 && |g| == 8
    ensures var q := Splice(Splice(Splice(Splice(Splice(Splice(Splice(p, 0, a), 4, b), 6, c), 7, d), 8, e), 12, f), 20, g);
      && q[0..4] == a && q[4..6] == b && q[6..7] == c && q[7..8] == d && q[8..10] == e
      && q[12..20] == f && q[20..28] == g
  {
    FiveBlocks(p, a, b, c, d, e);
    var q := Splice(Splice(Splice(Splice(Splice(p, 0, a), 4, b), 6, c), 7, d), 8, e);
    var r := Splice(q, 12, f);
    SpliceInside(q, 12, f);
    SpliceInside(r, 20, g);
    SpliceOutside(q, 12, f, 0, 10);
    SpliceOutside(r, 20, g, 0, 20);
    var t := Splice(r, 20, g);
    hide Splice;
    assert t[0..10] == t[0..20][0..10] == r[0..10] == q[0..10];
    assert t[12..20] == t[0..20][12..20] == r[0..20][12..20];
    assert t[0..4] == t[0..10][0..4] && t[4..6] == t[0..10][4..6] && t[6..7] == t[0..10][6..7];
    assert t[7..8] == t[0..10][7..8] && t[8..10] == t[0..10][8..10];
    assert q[0..4] == q[0..10][0..4] && q[4..6] == q[0..10][4..6] && q[6..7] == q[0..10][6..7];
    assert q[7..8] == q[0..10][7..8] && q[8..10] == q[0..10][8..10];
  }

  lemma NodeHeaderReads(p: Payload, magic: Word32, version: Word16, kind: Byte, size: Byte, count: Word16,
                        parent: Word64, link: Word64)
    ensures var q := WithNodeHeader(p, magic, version, kind, size, count, parent, link);
      && Get(q, 0, 4) == magic && Get(q, 4, 2) == version && Get(q, 6, 1) == kind && Get(q, 7, 1) == size
      && Get(q, 8, 2) == count && Get(q, 12, 8) == parent && Get(q, 20, 8) == link
  {
    Capacities();
    SevenBlocks(p, LittleEndian(4, magic), LittleEndian(2, version), LittleEndian(1, kind), LittleEndian(1, size),
      LittleEndian(2, count), LittleEndian(8, parent), LittleEndian(8, link));
    DecodeEncode(4, magic);
    DecodeEncode(2, version);
    DecodeEncode(1, kind);
    DecodeEncode(1, size);
    DecodeEncode(2, count);
    DecodeEncode(8, parent);
    DecodeEncode(8, link);
  }

  lemma PutEntryReads(p: Payload, i: nat, e: Entry)
    requires i < MAX_ENTRIES && RidValid(e.rid)
    ensures var q := PutEntry(p, i, e);
      && Get(q, EntryAt(i), 8) == ToUnsigned(e.key)
      && Get(q, EntryAt(i) + 8, 8) == e.rid.page
      && Get(q, EntryAt(i) + 16, 4) == e.rid.slot
      && q[..EntryAt(i)] == p[..EntryAt(i)]
  {
    Capacities();
    var a, b, c := LittleEndian(8, ToUnsigned(e.key)), LittleEndian(8, e.rid.page), LittleEndian(4, e.rid.slot);
    DecodeEncode(8, ToUnsigned(e.key));
    DecodeEncode(8, e.rid.page);
    DecodeEncode(4, e.rid.slot);
    var o := EntryAt(i);
    ThreeBlocks(p, o, a, b, c);
  }

  lemma ThreeBlocks(p: Payload, o: nat, a: seq<Byte>, b: seq<Byte>, c: seq<Byte>)
    requires |a| == 8 && |b| == 8 && |c| == 4 && o + 20 <= PAYLOAD_SIZE
    ensures var q := Splice(Splice(Splice(p, o, a), o + 8, b), o + 16, c);
      q[o..o + 8] == a && q[o + 8..o + 16] == b && q[o + 16..o + 20] == c && q[..o] == p[..o]
  {
  }

  lemma PutChildReads(p: Payload, i: nat, key: Int64, child: Word64)
    requires i < MAX_KEYS
    ensures var q := PutChild(p, i, key, child);
      && Get(q, ChildAt(i), 8) == ToUnsigned(key)
      && Get(q, ChildAt(i) + 8, 8) == child
      && q[..ChildAt(i)] == p[..ChildAt(i)]
  {
    Capacities();
    DecodeEncode(8, ToUnsigned(key));
    DecodeEncode(8, child);
    TwoBlocks(p, ChildAt(i), LittleEndian(8, ToUnsigned(key)), LittleEndian(8, child));
  }

  lemma TwoBlocks(p: Payload, o: nat, a: seq<Byte>, b: seq<Byte>)
    requires |a| == 8 && |b| == 8 && o + 16 <= PAYLOAD_SIZE
    ensures var q := Splice(Splice(p, o, a), o + 8, b);
      q[o..o + 8] == a && q[o + 8..o + 16] == b && q[..o] == p[..o]
  {
  }

  // Fields in an unchanged prefix read the same.
  lemma GetInPrefix(p: Payload, q: Payload, n: nat, offset: nat, m: nat)
    requires offset + m <= n <= PAYLOAD_SIZE && p[..n] == q[..n]
    ensures Get(p, offset, m) == Get(q, offset, m)
  {
    assert p[offset..offset + m] == p[..n][offset..offset + m];
    assert q[offset..offset + m] == q[..n][offset..offset + m];
  }

  lemma ShorterPrefix(p: Payload, q: Payload, n: nat, m: nat)
    requires m <= n <= PAYLOAD_SIZE && p[..n] == q[..n]
    ensures p[..m] == q[..m]
  {
    assert p[..m] == p[..n][..m] && q[..m] == q[..n][..m];
  }

  lemma PutOneMore(p: Payload, es: seq<Entry>, n: nat)
    requires n < |es| && |es| <= MAX_ENTRIES
    ensures PutEntries(p, es, n + 1) == PutEntry(PutEntries(p, es, n), n, es[n])
  {
    hide PutEntry;
  }

  lemma {:induction false} PutEntriesPrefix(p: Payload, es: seq<Entry>, n: nat)
    requires n <= |es| && |es| <= MAX_ENTRIES
    requires forall i | 0 <= i < |es| :: RidValid(es[i].rid)
    ensures PutEntries(p, es, n)[..NODE_HEADER_SIZE] == p[..NODE_HEADER_SIZE]
  {
    if n != 0 {
      hide PutEntry;
      PutEntriesPrefix(p, es, n - 1);
      PutEntryReads(PutEntries(p, es, n - 1), n - 1, es[n - 1]);
      ShorterPrefix(PutEntries(p, es, n), PutEntries(p, es, n - 1), EntryAt(n - 1), NODE_HEADER_SIZE);
    }
  }

  // Decoding depends only on the bytes decoded.
  lemma {:induction false} DecodeEntriesPrefix(p: Payload, q: Payload, n: nat, m: nat)
    requires n <= m <= MAX_ENTRIES && p[..EntryAt(m)] == q[..EntryAt(m)]
    ensures DecodeEntries(p, n) == DecodeEntries(q, n)
  {
    if n != 0 {
      DecodeEntriesPrefix(p, q, n - 1, m);
      GetInPrefix(p, q, EntryAt(m), EntryAt(n - 1), 8);
      GetInPrefix(p, q, EntryAt(m), EntryAt(n - 1) + 8, 8);
      GetInPrefix(p, q, EntryAt(m), EntryAt(n - 1) + 16, 4);
      hide Get;
    }
  }

  lemma DecodeOneMore(p: Payload, n: nat, es: seq<Entry>, e: Entry)
    requires n < MAX_ENTRIES && DecodeEntries(p, n) == Ok(es) && RidValid(e.rid)
    requires Get(p, EntryAt(n), 8) == ToUnsigned(e.key)
    requires Get(p, EntryAt(n) + 8, 8) == e.rid.page && Get(p, EntryAt(n) + 16, 4) == e.rid.slot
    ensures DecodeEntries(p, n + 1) == Ok(es + [e])
  {
    SignRoundTrip(e.key);
    hide Get;
  }

  lemma NoEntriesRoundTrip(p: Payload, es: seq<Entry>)
    requires |es| <= MAX_ENTRIES
    ensures DecodeEntries(PutEntries(p, es, 0), 0) == Ok(es[..0])
  {
  }

  lemma {:induction false} EntriesRoundTrip(p: Payload, es: seq<Entry>, n: nat)
    requires n <= |es| && |es| <= MAX_ENTRIES
    requires forall i | 0 <= i < |es| :: RidValid(es[i].rid)
    ensures DecodeEntries(PutEntries(p, es, n), n) == Ok(es[..n])
  {
    hide Get, PutEntry, PutEntries, DecodeEntries;
    if n == 0 {
      NoEntriesRoundTrip(p, es);
    } else {
      var before := PutEntries(p, es, n - 1);
      var after := PutEntry(before, n - 1, es[n - 1]);
      PutOneMore(p, es, n - 1);
      EntriesRoundTrip(p, es, n - 1);
      PutEntryReads(before, n - 1, es[n - 1]);
      DecodeEntriesPrefix(after, before, n - 1, n - 1);
      DecodeOneMore(after, n - 1, es[..n - 1], es[n - 1]);
      assert es[..n] == es[..n - 1] + [es[n - 1]];
    }
  }

  lemma PutOneMoreChild(p: Payload, keys: seq<Int64>, children: seq<Word64>, n: nat)
    requires n < |keys| && |keys| <= MAX_KEYS && |children| == |keys| + 1
    ensures PutChildren(p, keys, children, n + 1) ==
      PutChild(PutChildren(p, keys, children, n), n, keys[n], children[n + 1])
  {
    hide PutChild;
  }

  lemma {:induction false} PutChildrenPrefix(p: Payload, keys: seq<Int64>, children: seq<Word64>, n: nat)
    requires n <= |keys| && |keys| <= MAX_KEYS && |children| == |keys| + 1
    ensures PutChildren(p, keys, children, n)[..NODE_HEADER_SIZE] == p[..NODE_HEADER_SIZE]
  {
    if n != 0 {
      hide PutChild, Get;
      PutChildrenPrefix(p, keys, children, n - 1);
      PutChildReads(PutChildren(p, keys, children, n - 1), n - 1, keys[n - 1], children[n]);
      ShorterPrefix(PutChildren(p, keys, children, n), PutChildren(p, keys, children, n - 1), ChildAt(n - 1), NODE_HEADER_SIZE);
    }
  }

  lemma {:induction false} DecodeChildrenPrefix(p: Payload, q: Payload, n: nat, m: nat)
    requires n <= m <= MAX_KEYS && p[..ChildAt(m)] == q[..ChildAt(m)]
    ensures DecodeKeys(p, n) == DecodeKeys(q, n) && DecodeChildren(p, n) == DecodeChildren(q, n)
  {
    if n == 0 {
      GetInPrefix(p, q, ChildAt(m), 20, 8);
    } else {
      DecodeChildrenPrefix(p, q, n - 1, m);
      GetInPrefix(p, q, ChildAt(m), ChildAt(n - 1), 8);
      GetInPrefix(p, q, ChildAt(m), ChildAt(n - 1) + 8, 8);
      hide Get;
    }
  }

  lemma DecodeOneMoreChild(p: Payload, n: nat, keys: seq<Int64>, cs: seq<Word64>, key: Int64, c: Word64)
    requires n < MAX_KEYS && DecodeKeys(p, n) == keys && DecodeChildren(p, n) == Ok(cs) && c != INVALID_ID
    requires Get(p, ChildAt(n), 8) == ToUnsigned(key) && Get(p, ChildAt(n) + 8, 8) == c
    ensures DecodeKeys(p, n + 1) == keys + [key] && DecodeChildren(p, n + 1) == Ok(cs + [c])
  {
    SignRoundTrip(key);
    hide Get;
  }

  lemma FirstChildRoundTrip(p: Payload, keys: seq<Int64>, children: seq<Word64>)
    requires |keys| <= MAX_KEYS && |children| == |keys| + 1
    requires Get(p, 20, 8) == children[0] && children[0] != INVALID_ID
    ensures DecodeKeys(PutChildren(p, keys, children, 0), 0) == keys[..0]
    ensures DecodeChildren(PutChildren(p, keys, children, 0), 0) == Ok(children[..1])
  {
    hide Get;
    assert children[..1] == [children[0]];
  }

  lemma {:induction false} ChildrenRoundTrip(p: Payload, keys: seq<Int64>, children: seq<Word64>, n: nat)
    requires n <= |keys| && |keys| <= MAX_KEYS && |children| == |keys| + 1
    requires forall c | c in children :: c != INVALID_ID
    requires Get(p, 20, 8) == children[0]
    ensures DecodeKeys(PutChildren(p, keys, children, n), n) == keys[..n]
    ensures DecodeChildren(PutChildren(p, keys, children, n), n) == Ok(children[..n + 1])
  {
    hide Get, PutChild, PutChildren, DecodeKeys, DecodeChildren;
    assert children[n] in children;
    if n == 0 {
      FirstChildRoundTrip(p, keys, children);
    } else {
      var before := PutChildren(p, keys, children, n - 1);
      var after := PutChild(before, n - 1, keys[n - 1], children[n]);
      PutOneMoreChild(p, keys, children, n - 1);
      ChildrenRoundTrip(p, keys, children, n - 1);
      PutChildReads(before, n - 1, keys[n - 1], children[n]);
      DecodeChildrenPrefix(after, before, n - 1, n - 1);
      DecodeOneMoreChild(after, n - 1, keys[..n - 1], children[..n], keys[n - 1], children[n]);
      assert keys[..n] == keys[..n - 1] + [keys[n - 1]];
      assert children[..n + 1] == children[..n] + [children[n]];
    }
  }

  lemma SameNodeHeader(p: Payload, q: Payload)
    requires p[..NODE_HEADER_SIZE] == q[..NODE_HEADER_SIZE]
    ensures Get(p, 0, 4) == Get(q, 0, 4) && Get(p, 4, 2) == Get(q, 4, 2) && Get(p, 6, 1) == Get(q, 6, 1)
    ensures Get(p, 7, 1) == Get(q, 7, 1) && Get(p, 8, 2) == Get(q, 8, 2)
    ensures Get(p, 12, 8) == Get(q, 12, 8) && Get(p, 20, 8) == Get(q, 20, 8)
  {
    GetInPrefix(p, q, NODE_HEADER_SIZE, 0, 4);
    GetInPrefix(p, q, NODE_HEADER_SIZE, 4, 2);
    GetInPrefix(p, q, NODE_HEADER_SIZE, 6, 1);
    GetInPrefix(p, q, NODE_HEADER_SIZE, 7, 1);
    GetInPrefix(p, q, NODE_HEADER_SIZE, 8, 2);
    GetInPrefix(p, q, NODE_HEADER_SIZE, 12, 8);
    GetInPrefix(p, q, NODE_HEADER_SIZE, 20, 8);
  }

  ghost predicate HeaderReads(p: Payload, kind: Byte, count: Word16, parent: Word64, link: Word64) {
    && Get(p, 0, 4) == NODE_MAGIC && Get(p, 4, 2) == NODE_VERSION && Get(p, 6, 1) == kind
    && Get(p, 7, 1) == NODE_HEADER_SIZE && Get(p, 8, 2) == count
    && Get(p, 12, 8) == parent && Get(p, 20, 8) == link
  }

  lemma WrittenHeader(p: Payload, q: Payload, kind: Byte, count: Word16, parent: Word64, link: Word64)
    requires p == WithNodeHeader(ZeroPayload(), NODE_MAGIC, NODE_VERSION, kind, NODE_HEADER_SIZE, count, parent, link)
    requires p[..NODE_HEADER_SIZE] == q[..NODE_HEADER_SIZE]
    ensures HeaderReads(p, kind, count, parent, link) && HeaderReads(q, kind, count, parent, link)
  {
    NodeHeaderReads(ZeroPayload(), NODE_MAGIC, NODE_VERSION, kind, NODE_HEADER_SIZE, count, parent, link);
    hide Get, WithNodeHeader;
    SameNodeHeader(p, q);
  }

  lemma DecodeLeafPayload(p: Payload, parent: Word64, next: Word64, es: seq<Entry>)
    requires |es| <= MAX_ENTRIES && HeaderReads(p, LEAF_KIND, |es|, parent, next)
    requires DecodeEntries(p, |es|) == Ok(es)
    ensures DecodePayload(p) == Checked(LeafNode(parent, next, es))
  {
    hide Get, DecodeEntries, NodeOk;
  }

  lemma DecodeInnerPayload(p: Payload, parent: Word64, link: Word64, keys: seq<Int64>, cs: seq<Word64>)
    requires |keys| <= MAX_KEYS && HeaderReads(p, INNER_KIND, |keys|, parent, link)
    requires DecodeKeys(p, |keys|) == keys && DecodeChildren(p, |keys|) == Ok(cs)
    ensures DecodePayload(p) == Checked(InnerNode(parent, keys, cs))
  {
    hide Get, DecodeKeys, DecodeChildren, NodeOk;
  }

  // Every node that may be written is read back unchanged.
  lemma PayloadRoundTrip(node: Node)
    requires NodeOk(node)
    ensures DecodePayload(EncodePayload(node)) == Ok(node)
  {
    var q := EncodePayload(node);
    match node
    case LeafNode(parent, next, es) =>
      var p := WithNodeHeader(ZeroPayload(), NODE_MAGIC, NODE_VERSION, LEAF_KIND, NODE_HEADER_SIZE, |es|, parent, next);
      EntriesRoundTrip(p, es, |es|);
      PutEntriesPrefix(p, es, |es|);
      assert q == PutEntries(p, es, |es|) && es[..|es|] == es;
      hide WithNodeHeader, PutEntries, DecodeEntries, EncodePayload, DecodePayload;
      WrittenHeader(p, q, LEAF_KIND, |es|, parent, next);
      hide HeaderReads;
      DecodeLeafPayload(q, parent, next, es);
    case InnerNode(parent, keys, cs) =>
      InnerPayloadRoundTrip(node);
  }

  lemma InnerPayloadRoundTrip(node: Node)
    requires NodeOk(node) && node.InnerNode?
    ensures DecodePayload(EncodePayload(node)) == Ok(node)
  {
    var q, keys, cs := EncodePayload(node), node.keys, node.children;
    var p := WithNodeHeader(ZeroPayload(), NODE_MAGIC, NODE_VERSION, INNER_KIND, NODE_HEADER_SIZE, |keys|, node.parent, cs[0]);
    PutChildrenPrefix(p, keys, cs, |keys|);
    assert q == PutChildren(p, keys, cs, |keys|);
    assert keys[..|keys|] == keys && cs[..|keys| + 1] == cs;
    hide WithNodeHeader, PutChildren, DecodeChildren, DecodeKeys, EncodePayload, DecodePayload, Get;
    WrittenHeader(p, q, INNER_KIND, |keys|, node.parent, cs[0]);
    ChildrenRoundTrip(p, keys, cs, |keys|);
    DecodeInnerPayload(q, node.parent, cs[0], keys, cs);
  }

  lemma NodeRoundTrip(p: Page, node: Node, id: Word64)
    requires NodeOk(node) && TypeOf(p) == Index && HeaderOk(p, id)
    ensures EncodeNode(p, node).Ok?
    ensures var q := EncodeNode(p, node).value;
      DecodeNode(q) == Ok(node) && HeaderOk(q, id) && TypeOf(q) == Index
  {
    PayloadRoundTrip(node);
    var q := EncodeNode(p, node).value;
    assert q[PAGE_HEADER_SIZE..] == EncodePayload(node);
    assert q[..PAGE_HEADER_SIZE] == p[..PAGE_HEADER_SIZE];
    hide EncodePayload, DecodePayload;
    SameFirstBytes(p, q);
  }

  lemma SameFirstBytes(p: Page, q: Page)
    requires p[..PAGE_HEADER_SIZE] == q[..PAGE_HEADER_SIZE]
    ensures TypeOf(p) == TypeOf(q) && PageIdOf(p) == PageIdOf(q)
    ensures forall id :: HeaderOk(p, id) <==> HeaderOk(q, id)
  {
    SliceOfPrefix(p, q, PAGE_HEADER_SIZE, MAGIC_AT, MAGIC_AT + 4);
    SliceOfPrefix(p, q, PAGE_HEADER_SIZE, VERSION_AT, VERSION_AT + 4);
    SliceOfPrefix(p, q, PAGE_HEADER_SIZE, TYPE_AT, TYPE_AT + 2);
    SliceOfPrefix(p, q, PAGE_HEADER_SIZE, HEADER_SIZE_AT, HEADER_SIZE_AT + 2);
    SliceOfPrefix(p, q, PAGE_HEADER_SIZE, PAGE_ID_AT, PAGE_ID_AT + 8);
  }

  lemma SliceOfPrefix(p: seq<Byte>, q: seq<Byte>, n: nat, lo: nat, hi: nat)
    requires lo <= hi <= n <= |p| && n <= |q| && p[..n] == q[..n]
    ensures p[lo..hi] == q[lo..hi]
  {
    forall k | lo <= k < hi ensures p[k] == q[k] {
      assert p[..n][k] == q[..n][k];
    }
  }

  // Copies of a page that agree up to the checksum decode alike.
  lemma DecodeStripped(p: Page, q: Page)
    requires Strip(p) == Strip(q)
    ensures DecodeNode(p) == DecodeNode(q)
  {
    SameHeader(p, q);
  }

  // ---- where everything is in a node ----

  lemma {:induction false} EntryLayout(p: Payload, es: seq<Entry>, n: nat, i: nat)
    requires i < n <= |es| <= MAX_ENTRIES && forall j | 0 <= j < |es| :: RidValid(es[j].rid)
    ensures var q := PutEntries(p, es, n);
      && Get(q, 32 + 20 * i, 8) == ToUnsigned(es[i].key)
      && Get(q, 40 + 20 * i, 8) == es[i].rid.page
      && Get(q, 48 + 20 * i, 4) == es[i].rid.slot
  {
    hide PutEntry, Get;
    PutEntryReads(PutEntries(p, es, n - 1), n - 1, es[n - 1]);
    if i < n - 1 {
      EntryLayout(p, es, n - 1, i);
      var q, r := PutEntries(p, es, n), PutEntries(p, es, n - 1);
      GetInPrefix(q, r, EntryAt(n - 1), 32 + 20 * i, 8);
      GetInPrefix(q, r, EntryAt(n - 1), 40 + 20 * i, 8);
      GetInPrefix(q, r, EntryAt(n - 1), 48 + 20 * i, 4);
    }
  }

  lemma {:induction false} ChildLayout(p: Payload, keys: seq<Int64>, children: seq<Word64>, n: nat, i: nat)
    requires i < n <= |keys| <= MAX_KEYS && |children| == |keys| + 1
    ensures var q := PutChildren(p, keys, children, n);
      && Get(q, 32 + 16 * i, 8) == ToUnsigned(keys[i])
      && Get(q, 40 + 16 * i, 8) == children[i + 1]
  {
    hide PutChild, Get;
    PutChildReads(PutChildren(p, keys, children, n - 1), n - 1, keys[n - 1], children[n]);
    if i < n - 1 {
      ChildLayout(p, keys, children, n - 1, i);
      var q, r := PutChildren(p, keys, children, n), PutChildren(p, keys, children, n - 1);
      GetInPrefix(q, r, ChildAt(n - 1), 32 + 16 * i, 8);
      GetInPrefix(q, r, ChildAt(n - 1), 40 + 16 * i, 8);
    }
  }

  // Magic, version, kind, header size, count, parent and link of a node, and its
  // entries or its keys and children, at their offsets in the payload.
  lemma LeafLayout(parent: Word64, next: Word64, entries: seq<Entry>)
    requires NodeOk(LeafNode(parent, next, entries))
    ensures var q := EncodePayload(LeafNode(parent, next, entries));
      && Get(q, 0, 4) == 0x4250544E && Get(q, 4, 2) == 1 && Get(q, 6, 1) == 1 && Get(q, 7, 1) == 32
      && Get(q, 8, 2) == |entries| && Get(q, 12, 8) == parent && Get(q, 20, 8) == next
      && forall i: nat | i < |entries| ::
           && Get(q, 32 + 20 * i, 8) == ToUnsigned(entries[i].key)
           && Get(q, 40 + 20 * i, 8) == entries[i].rid.page
           && Get(q, 48 + 20 * i, 4) == entries[i].rid.slot
  {
    var n := |entries|;
    var p := WithNodeHeader(ZeroPayload(), NODE_MAGIC, NODE_VERSION, LEAF_KIND, NODE_HEADER_SIZE, n, parent, next);
    var q := PutEntries(p, entries, n);
    PutEntriesPrefix(p, entries, n);
    hide WithNodeHeader, PutEntries, Get;
    WrittenHeader(p, q, LEAF_KIND, n, parent, next);
    forall i: nat | i < n
      ensures Get(q, 32 + 20 * i, 8) == ToUnsigned(entries[i].key)
      ensures Get(q, 40 + 20 * i, 8) == entries[i].rid.page && Get(q, 48 + 20 * i, 4) == entries[i].rid.slot
    {
      EntryLayout(p, entries, n, i);
    }
  }

  lemma InnerLayout(parent: Word64, keys: seq<Int64>, children: seq<Word64>)
    requires NodeOk(InnerNode(parent, keys, children))
    ensures var q := EncodePayload(InnerNode(parent, keys, children));
      && Get(q, 0, 4) == 0x4250544E && Get(q, 4, 2) == 1 && Get(q, 6, 1) == 2 && Get(q, 7, 1) == 32
      && Get(q, 8, 2) == |keys| && Get(q, 12, 8) == parent && Get(q, 20, 8) == children[0]
      && forall i: nat | i < |keys| ::
           Get(q, 32 + 16 * i, 8) == ToUnsigned(keys[i]) && Get(q, 40 + 16 * i, 8) == children[i + 1]
  {
    var n := |keys|;
    var p := WithNodeHeader(ZeroPayload(), NODE_MAGIC, NODE_VERSION, INNER_KIND, NODE_HEADER_SIZE, n, parent, children[0]);
    var q := PutChildren(p, keys, children, n);
    PutChildrenPrefix(p, keys, children, n);
    hide WithNodeHeader, PutChildren, Get;
    WrittenHeader(p, q, INNER_KIND, n, parent, children[0]);
    forall i: nat | i < n
      ensures Get(q, 32 + 16 * i, 8) == ToUnsigned(keys[i]) && Get(q, 40 + 16 * i, 8) == children[i + 1]
    {
      ChildLayout(p, keys, children, n, i);
    }
  }

  // What a node must be to be written or read, with its numbers.
  lemma NodeOkExactly(node: Node)
    ensures NodeOk(node) <==>
      match node
      case LeafNode(_, _, entries) =>
        && |entries| <= 8
        && (forall i, j | 0 <= i < j < |entries| :: entries[i].key < entries[j].key)
        && (forall e | e in entries :: e.rid.page < 0xFFFF_FFFF_FFFF_FFFF && e.rid.slot < 0xFFFF_FFFF)
      case InnerNode(_, keys, children) =>
        && |keys| <= 8 && |children| == |keys| + 1
        && (forall i, j | 0 <= i < j < |keys| :: keys[i] < keys[j])
        && (forall c | c in children :: c != 0xFFFF_FFFF_FFFF_FFFF)
  {
    match node
    case LeafNode(_, _, entries) =>
      if forall i | 0 < i < |entries| :: entries[i - 1].key < entries[i].key {
        forall i, j | 0 <= i < j < |entries| ensures entries[i].key < entries[j].key {
          RisingKeys(seq(|entries|, k requires 0 <= k < |entries| => entries[k].key), i, j);
        }
      }
    case InnerNode(_, keys, _) =>
      if forall i | 0 < i < |keys| :: keys[i - 1] < keys[i] {
        forall i, j | 0 <= i < j < |keys| ensures keys[i] < keys[j] {
          RisingKeys(keys, i, j);
        }
      }
  }

  lemma {:induction false} RisingKeys(keys: seq<Int64>, i: nat, j: nat)
    requires i < j < |keys| && forall k | 0 < k < |keys| :: keys[k - 1] < keys[k]
    ensures keys[i] < keys[j]
  {
    if i < j - 1 {
      RisingKeys(keys, i, j - 1);
    }
  }
}
