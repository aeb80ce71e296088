// The 4096-byte page: its 40-byte header, its 32-bit FNV-1a checksum, and the
// checks that every page read from disk has to pass.
module Pages {
  import opened Results
  import opened ByteCodec

  const PAGE_SIZE: nat := 4096
  const PAGE_HEADER_SIZE: nat := 40
  const PAGE_MAGIC: Word32 := 0x4B504147
  const FORMAT_VERSION: Word32 := 1
  const INVALID_ID: Word64 := 0xFFFF_FFFF_FFFF_FFFF

  const MAGIC_AT: nat := 0
  const VERSION_AT: nat := 4
  const TYPE_AT: nat := 8
  const HEADER_SIZE_AT: nat := 10
  const PAGE_ID_AT: nat := 12
  const CHECKSUM_AT: nat := 28

  const FNV_OFFSET_BASIS: Word32 := 2166136261
  const FNV_PRIME: Word32 := 16777619
  const FNV_PRIME_INVERSE: Word32 := 899433627

  type Page = p: seq<Byte> | |p| == 4096 witness seq(4096, i => 0)

  datatype PageType = Catalog | Heap | Index

  function TypeCode(t: PageType): Word16 {
    match t
    case Catalog => 1
    case Heap => 2
    case Index => 3
  }

  function DecodePageType(raw: nat): Result<PageType> {
    if raw == 1 then Ok(Catalog)
    else if raw == 2 then Ok(Heap)
    else if raw == 3 then Ok(Index)
    else Err(Corruption)
  }

  function PageIdOf(p: Page): Word64 {
    Capacities();
    EncodeDecode(p[PAGE_ID_AT..PAGE_ID_AT + 8]);
    Get(p, PAGE_ID_AT, 8)
  }

  // An unknown type code reads as a heap page.
  function TypeOf(p: Page): PageType {
    var t := DecodePageType(Get(p, TYPE_AT, 2));
    if t.Ok? then t.value else Heap
  }

  // ---- checksum ----

  function Pow2(n: nat): (r: nat)
    ensures r > 0
  {
    if n == 0 then 1 else 2 * Pow2(n - 1)
  }

  // Bitwise exclusive or of the low n bits.
  function XorBits(n: nat, a: nat, b: nat): (r: nat)
    ensures r < Pow2(n)
  {
    if n == 0 then 0
    else (if a % 2 == b % 2 then 0 else 1) + 2 * XorBits(n - 1, a / 2, b / 2)
  }

  lemma {:induction false} XorInvolution(n: nat, a: nat, b: nat)
    requires a < Pow2(n)
    ensures XorBits(n, XorBits(n, a, b), b) == a
  {
    if n != 0 {
      XorInvolution(n - 1, a / 2, b / 2);
      var x := XorBits(n, a, b);
      assert x % 2 == (if a % 2 == b % 2 then 0 else 1) && x / 2 == XorBits(n - 1, a / 2, b / 2);
    }
  }

  lemma {:induction false} XorCommutes(n: nat, a: nat, b: nat)
    ensures XorBits(n, a, b) == XorBits(n, b, a)
  {
    if n != 0 {
      XorCommutes(n - 1, a / 2, b / 2);
    }
  }

  const LOW_BITS: nat := 8

  lemma Pow2Of8()
    ensures Pow2(LOW_BITS) == 0x100
  {
    assert Pow2(8) == 16 * Pow2(4);
  }

  // Exclusive or of a word with a byte, n being the eight bits of the byte.
  function XorLow(n: nat, word: nat, b: nat): nat {
    word - word % 0x100 + XorBits(n, word % 0x100, b)
  }

  // A byte xored into a 32-bit word reaches its low eight bits only.
  function XorByte(word: Word32, b: Byte): Word32 {
    Pow2Of8();
    XorLow(LOW_BITS, word, b)
  }

  function MixByte(word: Word32, b: Byte): Word32 {
    (XorByte(word, b) * FNV_PRIME) % 0x1_0000_0000
  }

  // The checksum field counts as four zero bytes.
  function Masked(p: seq<Byte>, i: nat): Byte
    requires i < |p|
  {
    if CHECKSUM_AT <= i < CHECKSUM_AT + 4 then 0 else p[i]
  }

  // The running checksum after the first n bytes.
  function Fnv(p: seq<Byte>, n: nat): Word32
    requires n <= |p|
  {
    if n == 0 then FNV_OFFSET_BASIS else MixByte(Fnv(p, n - 1), Masked(p, n - 1))
  }

  function Checksum(p: Page): Word32 {
    Fnv(p, PAGE_SIZE)
  }

  lemma MultiplyInjective(a: Word32, b: Word32)
    requires (a * FNV_PRIME) % 0x1_0000_0000 == (b * FNV_PRIME) % 0x1_0000_0000
    ensures a == b
  {
    UndoMultiply(a);
    UndoMultiply(b);
  }

  lemma UndoMultiply(a: Word32)
    ensures (((a * FNV_PRIME) % 0x1_0000_0000) * FNV_PRIME_INVERSE) % 0x1_0000_0000 == a
  {
    var q := (a * FNV_PRIME) / 0x1_0000_0000;
    var r := (a * FNV_PRIME) % 0x1_0000_0000;
    var t := FNV_PRIME * FNV_PRIME_INVERSE / 0x1_0000_0000;
    assert FNV_PRIME * FNV_PRIME_INVERSE == 0x1_0000_0000 * t + 1;
    assert r * FNV_PRIME_INVERSE == a + 0x1_0000_0000 * (a * t - q * FNV_PRIME_INVERSE);
  }

  // Xoring the same byte again gives the word back.
  lemma XorLowInvolution(n: nat, word: nat, b: nat)
    requires Pow2(n) == 0x100
    ensures XorLow(n, XorLow(n, word, b), b) == word
  {
    XorInvolution(n, word % 0x100, b);
    var x := XorLow(n, word, b);
    assert x == 0x100 * (word / 0x100) + XorBits(n, word % 0x100, b);
    assert x % 0x100 == XorBits(n, word % 0x100, b);
  }

  // A word and its xor with a byte determine the byte.
  lemma XorLowInjective(n: nat, word: nat, x: nat, y: nat)
    requires x < Pow2(n) && y < Pow2(n) && XorLow(n, word, x) == XorLow(n, word, y)
    ensures x == y
  {
    var low := word % 0x100;
    XorCommutes(n, low, x);
    XorCommutes(n, low, y);
    XorInvolution(n, x, low);
    XorInvolution(n, y, low);
  }

  lemma MixInjectiveInWord(a: Word32, b: Word32, x: Byte)
    requires MixByte(a, x) == MixByte(b, x)
    ensures a == b
  {
    MultiplyInjective(XorByte(a, x), XorByte(b, x));
    Pow2Of8();
    XorLowInvolution(LOW_BITS, a, x);
    XorLowInvolution(LOW_BITS, b, x);
  }

  lemma MixInjectiveInByte(a: Word32, x: Byte, y: Byte)
    requires MixByte(a, x) == MixByte(a, y)
    ensures x == y
  {
    MultiplyInjective(XorByte(a, x), XorByte(a, y));
    Pow2Of8();
    XorLowInjective(LOW_BITS, a, x, y);
  }

  // Two pages that differ in one byte outside the checksum field never collide.
  lemma {:induction false} OneByteChangesFnv(p: seq<Byte>, q: seq<Byte>, i: nat, n: nat)
    requires |p| == |q| && i < |p| && n <= |p|
    requires Masked(p, i) != Masked(q, i)
    requires forall j | 0 <= j < |p| && j != i :: Masked(p, j) == Masked(q, j)
    ensures Fnv(p, n) == Fnv(q, n) <==> n <= i
  {
    if n != 0 {
      OneByteChangesFnv(p, q, i, n - 1);
      if n - 1 == i {
        if Fnv(p, n) == Fnv(q, n) {
          MixInjectiveInByte(Fnv(p, n - 1), Masked(p, i), Masked(q, i));
        }
      } else if n - 1 > i && Fnv(p, n) == Fnv(q, n) {
        MixInjectiveInWord(Fnv(p, n - 1), Fnv(q, n - 1), Masked(p, n - 1));
      }
    }
  }

  lemma {:induction false} FnvIgnoresChecksumField(p: seq<Byte>, q: seq<Byte>, n: nat)
    requires |p| == |q| && n <= |p|
    requires forall j | 0 <= j < |p| :: Masked(p, j) == Masked(q, j)
    ensures Fnv(p, n) == Fnv(q, n)
  {
    if n != 0 {
      FnvIgnoresChecksumField(p, q, n - 1);
    }
  }

  lemma FnvStart(p: seq<Byte>)
    ensures Fnv(p, 0) == FNV_OFFSET_BASIS
  {
  }

  lemma FnvStep(p: seq<Byte>, n: nat)
    requires n < |p|
    ensures Fnv(p, n + 1) == MixByte(Fnv(p, n), Masked(p, n))
  {
    hide XorByte, MixByte;
  }

  // ---- what the checksum is, apart from how it is computed ----

  // Bit k of a number, the lowest being bit 0.
  function Bit(n: nat, k: nat): bool {
    if k == 0 then n % 2 == 1 else Bit(n / 2, k - 1)
  }

  lemma {:induction false} XorBitsBits(n: nat, a: nat, b: nat, k: nat)
    requires k < n
    ensures Bit(XorBits(n, a, b), k) <==> Bit(a, k) != Bit(b, k)
  {
    var x := XorBits(n, a, b);
    assert x % 2 == (if a % 2 == b % 2 then 0 else 1) && x / 2 == XorBits(n - 1, a / 2, b / 2);
    if k > 0 {
      XorBitsBits(n - 1, a / 2, b / 2, k - 1);
    }
  }

  lemma {:induction false} BitOfLow(n: nat, low: nat, k: nat)
    requires low > 0
    ensures Bit(n % (2 * low), 0) <==> Bit(n, 0)
    ensures (n % (2 * low)) / 2 == (n / 2) % low
  {
    var q, r := n / (2 * low), n % (2 * low);
    assert n == 2 * (low * q) + r;
    assert n / 2 == low * q + r / 2;
    ModOfSum(low, q, r / 2);
  }

  lemma ModOfSum(low: nat, q: nat, r: nat)
    requires r < low
    ensures (low * q + r) % low == r
  {
    var x := low * q + r;
    var d: int := x / low - q;
    assert x == low * (x / low) + x % low;
    assert low * d == r - x % low;
    Multiples(low, d);
  }

  lemma Multiples(low: nat, d: int)
    ensures d >= 1 ==> low * d >= low
    ensures d <= -1 ==> low * d + low <= 0
  {
  }

  // The low bits of a number are those of its remainder.
  lemma {:induction false} LowBitsKept(n: nat, m: nat, k: nat)
    requires k < m
    ensures Bit(n % Pow2(m), k) <==> Bit(n, k)
  {
    BitOfLow(n, Pow2(m - 1), k);
    if k > 0 {
      LowBitsKept(n / 2, m - 1, k - 1);
    }
  }

  // Mixing a byte in: bit k of the low byte is set exactly when the bits of the
  // word and of the byte differ, and the other three bytes of the word stay.
  lemma XorByteIsXor(word: Word32, b: Byte, k: nat)
    requires k < 8
    ensures Bit(XorByte(word, b), k) <==> Bit(word, k) != Bit(b, k)
    ensures XorByte(word, b) / 0x100 == word / 0x100
  {
    Pow2Of8();
    var x := XorBits(8, word % 0x100, b);
    XorBitsBits(8, word % 0x100, b, k);
    LowBitsKept(word, 8, k);
    var r := XorByte(word, b);
    assert r == word - word % 0x100 + x;
    assert r % 0x100 == x;
    LowBitsKept(r, 8, k);
  }

  // The published 32-bit FNV-1a values of the empty text and of "a".
  lemma FnvVectors()
    ensures Fnv([], 0) == 0x811C9DC5
    ensures Fnv([0x61], 1) == 0xE40C292C
  {
    XorValue();
    hide XorByte;
    FnvStart([0x61]);
    FnvStep([0x61], 0);
  }

  lemma XorStep(n: nat, a: nat, b: nat)
    ensures XorBits(0, a, b) == 0
    ensures XorBits(n + 1, a, b) == (if a % 2 == b % 2 then 0 else 1) + 2 * XorBits(n, a / 2, b / 2)
  {
  }

  lemma XorValue()
    ensures XorByte(0x811C9DC5, 0x61) == 0x811C9DA4
  {
    hide XorBits, Pow2;
    XorStep(0, 0x0, 0x0);
    XorStep(0, 0x1, 0x0);
    XorStep(1, 0x3, 0x1);
    XorStep(2, 0x6, 0x3);
    XorStep(3, 0xC, 0x6);
    XorStep(4, 0x18, 0xC);
    XorStep(5, 0x31, 0x18);
    XorStep(6, 0x62, 0x30);
    XorStep(7, 0xC5, 0x61);
    assert 0x811C9DC5 % 0x100 == 0xC5;
  }

  method ComputeChecksum(bytes: Page) returns (checksum: Word32)
    ensures checksum == Checksum(bytes)
  {
    hide XorByte, Fnv, FNV_PRIME;
    checksum := FNV_OFFSET_BASIS;
    FnvStart(bytes);
    for index := 0 to PAGE_SIZE
      invariant checksum == Fnv(bytes, index)
    {
      FnvStep(bytes, index);
      var value: Byte := if CHECKSUM_AT <= index < CHECKSUM_AT + 4 then 0 else bytes[index];
      checksum := XorByte(checksum, value);
      checksum := (checksum * FNV_PRIME) % 0x1_0000_0000;
    }
  }

  // ---- header ----

  function Stored(p: Page): Word32 {
    Capacities();
    EncodeDecode(p[CHECKSUM_AT..CHECKSUM_AT + 4]);
    Get(p, CHECKSUM_AT, 4)
  }

  // A page without its checksum: what two copies of one page must agree on.
  function Strip(p: Page): Page {
    Put(p, CHECKSUM_AT, 4, 0)
  }

  function Finalize(p: Page): Page {
    var zeroed := Put(p, CHECKSUM_AT, 4, 0);
    Put(zeroed, CHECKSUM_AT, 4, Checksum(zeroed))
  }

  // The header of a page that belongs at position id of a file.
  predicate HeaderOk(p: Page, id: Word64) {
    && Get(p, MAGIC_AT, 4) == PAGE_MAGIC
    && Get(p, VERSION_AT, 4) == FORMAT_VERSION
    && Get(p, HEADER_SIZE_AT, 2) == PAGE_HEADER_SIZE
    && DecodePageType(Get(p, TYPE_AT, 2)).Ok?
    && PageIdOf(p) == id
    && id != INVALID_ID
  }

  lemma HeaderId(p: Page, id: Word64)
    requires HeaderOk(p, id)
    ensures PageIdOf(p) == id
  {
  }

  function Deserialize(bytes: seq<Byte>, expected: Option<Word64>): Result<Page> {
    if |bytes| != PAGE_SIZE then Err(Corruption)
    else if Get(bytes, MAGIC_AT, 4) != PAGE_MAGIC then Err(Corruption)
    else if Get(bytes, VERSION_AT, 4) != FORMAT_VERSION then Err(Unsupported)
    else if Get(bytes, HEADER_SIZE_AT, 2) != PAGE_HEADER_SIZE then Err(Corruption)
    else if DecodePageType(Get(bytes, TYPE_AT, 2)).Err? then Err(Corruption)
    else if PageIdOf(bytes) == INVALID_ID then Err(Corruption)
    else if expected.Some? && PageIdOf(bytes) != expected.value then Err(Corruption)
    else if Stored(bytes) != Checksum(bytes) then Err(Corruption)
    else Ok(bytes)
  }

  // ---- what agreement up to the checksum preserves ----

  lemma StripOutside(p: Page, lo: nat, hi: nat)
    requires lo <= hi <= PAGE_SIZE && (hi <= CHECKSUM_AT || CHECKSUM_AT + 4 <= lo)
    ensures Strip(p)[lo..hi] == p[lo..hi]
  {
    SpliceOutside(p, CHECKSUM_AT, LittleEndian(4, 0), lo, hi);
  }

  lemma SameOutside(p: Page, q: Page, lo: nat, hi: nat)
    requires Strip(p) == Strip(q)
    requires lo <= hi <= PAGE_SIZE && (hi <= CHECKSUM_AT || CHECKSUM_AT + 4 <= lo)
    ensures p[lo..hi] == q[lo..hi]
  {
    StripOutside(p, lo, hi);
    StripOutside(q, lo, hi);
  }

  lemma SameHeader(p: Page, q: Page)
    requires Strip(p) == Strip(q)
    ensures PageIdOf(p) == PageIdOf(q) && TypeOf(p) == TypeOf(q)
    ensures forall id :: HeaderOk(p, id) <==> HeaderOk(q, id)
    ensures p[PAGE_HEADER_SIZE..] == q[PAGE_HEADER_SIZE..]
  {
    SameOutside(p, q, MAGIC_AT, MAGIC_AT + 4);
    SameOutside(p, q, VERSION_AT, VERSION_AT + 4);
    SameOutside(p, q, TYPE_AT, TYPE_AT + 2);
    SameOutside(p, q, HEADER_SIZE_AT, HEADER_SIZE_AT + 2);
    SameOutside(p, q, PAGE_ID_AT, PAGE_ID_AT + 8);
    SameOutside(p, q, PAGE_HEADER_SIZE, PAGE_SIZE);
    assert p[PAGE_HEADER_SIZE..PAGE_SIZE] == p[PAGE_HEADER_SIZE..];
    assert q[PAGE_HEADER_SIZE..PAGE_SIZE] == q[PAGE_HEADER_SIZE..];
  }

  lemma PutChecksumTwice(p: Page, a: nat, b: nat)
    ensures Put(Put(p, CHECKSUM_AT, 4, a), CHECKSUM_AT, 4, b) == Put(p, CHECKSUM_AT, 4, b)
  {
  }

  lemma StripIdempotent(p: Page)
    ensures Strip(Strip(p)) == Strip(p)
  {
    PutChecksumTwice(p, 0, 0);
  }

  lemma StripFinalize(p: Page)
    ensures Strip(Finalize(p)) == Strip(p)
  {
    PutChecksumTwice(Strip(p), Checksum(Strip(p)), 0);
    PutChecksumTwice(p, 0, 0);
  }

  lemma SameChecksum(p: Page, q: Page)
    requires Strip(p) == Strip(q)
    ensures Checksum(p) == Checksum(q)
  {
    SameOutside(p, q, 0, CHECKSUM_AT);
    SameOutside(p, q, CHECKSUM_AT + 4, PAGE_SIZE);
    forall j | 0 <= j < PAGE_SIZE ensures Masked(p, j) == Masked(q, j) {
      if j < CHECKSUM_AT {
        assert p[0..CHECKSUM_AT][j] == q[0..CHECKSUM_AT][j];
      } else if CHECKSUM_AT + 4 <= j {
        assert p[CHECKSUM_AT + 4..PAGE_SIZE][j - 32] == q[CHECKSUM_AT + 4..PAGE_SIZE][j - 32];
      }
    }
    FnvIgnoresChecksumField(p, q, PAGE_SIZE);
  }

  // Finalizing stores the page's own checksum.
  lemma FinalizeStores(p: Page)
    ensures Stored(Finalize(p)) == Checksum(Finalize(p)) == Checksum(p)
  {
    Capacities();
    GetPut(Strip(p), CHECKSUM_AT, 4, Checksum(Strip(p)));
    StripFinalize(p);
    StripIdempotent(p);
    SameChecksum(p, Strip(p));
    SameChecksum(p, Finalize(p));
  }

  // Every finalized page with a well-formed header is accepted.
  lemma FinalizedAccepted(p: Page, id: Word64)
    requires HeaderOk(p, id)
    ensures HeaderOk(Finalize(p), id)
    ensures Deserialize(Finalize(p), Some(id)) == Ok(Finalize(p))
  {
    StripFinalize(p);
    SameHeader(p, Finalize(p));
    FinalizeStores(p);
  }

  lemma ThreeParts(p: Page, q: Page, lo: nat, hi: nat)
    requires lo <= hi <= PAGE_SIZE
    requires p[0..lo] == q[0..lo] && p[lo..hi] == q[lo..hi] && p[hi..PAGE_SIZE] == q[hi..PAGE_SIZE]
    ensures p == q
  {
    assert p == p[0..lo] + p[lo..hi] + p[hi..PAGE_SIZE];
    assert q == q[0..lo] + q[lo..hi] + q[hi..PAGE_SIZE];
  }

  // A page whose checksum is right is a finalized page, and conversely.
  lemma StoredExactly(p: Page)
    ensures Stored(p) == Checksum(p) <==> Finalize(p) == p
  {
    FinalizeStores(p);
    if Stored(p) == Checksum(p) {
      StripFinalize(p);
      hide Checksum, Finalize;
      GetInjective(p, Finalize(p), CHECKSUM_AT, 4);
      SameOutside(p, Finalize(p), 0, CHECKSUM_AT);
      SameOutside(p, Finalize(p), CHECKSUM_AT + 4, PAGE_SIZE);
      ThreeParts(p, Finalize(p), CHECKSUM_AT, CHECKSUM_AT + 4);
    }
  }

  // Deserialize accepts exactly the finalized pages with a well-formed header.
  lemma AcceptedExactly(p: Page, id: Word64)
    ensures Deserialize(p, Some(id)).Ok? <==> HeaderOk(p, id) && Finalize(p) == p
    ensures Deserialize(p, Some(id)).Ok? ==> Deserialize(p, Some(id)).value == p
  {
    StoredExactly(p);
    hide Checksum, Finalize, PageIdOf, Stored;
  }

  // Changing any one byte of an accepted page, checksum field included, makes
  // the page unacceptable.
  lemma OneByteCorruptionRejected(p: Page, id: Word64, i: nat, x: Byte, expected: Option<Word64>)
    requires Deserialize(p, Some(id)).Ok? && i < PAGE_SIZE && x != p[i]
    ensures Deserialize(p[i := x], expected).Err?
  {
    var q: Page := p[i := x];
    if CHECKSUM_AT <= i < CHECKSUM_AT + 4 {
      FnvIgnoresChecksumField(p, q, PAGE_SIZE);
      assert p[CHECKSUM_AT..CHECKSUM_AT + 4][i - CHECKSUM_AT] == p[i];
      assert q[CHECKSUM_AT..CHECKSUM_AT + 4][i - CHECKSUM_AT] == x;
      if Stored(q) == Stored(p) {
        GetInjective(p, q, CHECKSUM_AT, 4);
      }
    } else {
      OneByteChangesFnv(p, q, i, PAGE_SIZE);
      assert q[CHECKSUM_AT..CHECKSUM_AT + 4] == p[CHECKSUM_AT..CHECKSUM_AT + 4];
    }
  }

  // The header fields that Create writes, before the checksum.
  function WithHeader(p: Page, magic: Word32, version: Word32, t: Word16, size: Word16, id: Word64): Page {
    var p1 := Put(p, MAGIC_AT, 4, magic);
    var p2 := Put(p1, VERSION_AT, 4, version);
    var p3 := Put(p2, TYPE_AT, 2, t);
    var p4 := Put(p3, HEADER_SIZE_AT, 2, size);
    Put(p4, PAGE_ID_AT, 8, id)
  }

  lemma FiveBlocks(p: Page, a: seq<Byte>, b: seq<Byte>, c: seq<Byte>, d: seq<Byte>, e: seq<Byte>)
    requires |a| == 4 && |b| == 4 && |c| == 2 && |d| == 2 && |e| == 8
    ensures var q := Splice(Splice(Splice(Splice(Splice(p, 0, a), 4, b), 8, c), 10, d), 12, e);
      && q[0..4] == a && q[4..8] == b && q[8..10] == c && q[10..12] == d && q[12..20] == e
      && q[20..] == p[20..]
  {
    var q1 := Splice(p, 0, a);
    var q2 := Splice(q1, 4, b);
    SpliceAdjacent(p, 0, a, b);
    SpliceAdjacent(p, 0, a + b, c);
    SpliceAdjacent(p, 0, a + b + c, d);
    SpliceAdjacent(p, 0, a + b + c + d, e);
    var h := a + b + c + d + e;
    var q := Splice(p, 0, h);
    assert q[0..4] == h[0..4] && q[4..8] == h[4..8] && q[8..10] == h[8..10];
    assert q[10..12] == h[10..12] && q[12..20] == h[12..20];
  }

  lemma WithHeaderReads(p: Page, magic: Word32, version: Word32, t: Word16, size: Word16, id: Word64)
    ensures var q := WithHeader(p, magic, version, t, size, id);
      && Get(q, MAGIC_AT, 4) == magic
      && Get(q, VERSION_AT, 4) == version
      && Get(q, TYPE_AT, 2) == t
      && Get(q, HEADER_SIZE_AT, 2) == size
      && PageIdOf(q) == id
      && q[20..] == p[20..]
  {
    Capacities();
    FiveBlocks(p, LittleEndian(4, magic), LittleEndian(4, version), LittleEndian(2, t),
      LittleEndian(2, size), LittleEndian(8, id));
    DecodeEncode(4, magic);
    DecodeEncode(4, version);
    DecodeEncode(2, t);
    DecodeEncode(2, size);
    DecodeEncode(8, id);
  }

  function Zeroes(): Page {
    seq(PAGE_SIZE, i => 0)
  }

  function RawPage(t: PageType, id: Word64): Page {
    WithHeader(Zeroes(), PAGE_MAGIC, FORMAT_VERSION, TypeCode(t), PAGE_HEADER_SIZE, id)
  }

  function Create(t: PageType, id: Word64): Result<Page> {
    if id == INVALID_ID then Err(InvalidArgument) else Ok(Finalize(RawPage(t, id)))
  }

  // Page::Create yields an acceptable page of the requested type at the
  // requested position, with an all-zero payload.
  lemma CreateWellFormed(t: PageType, id: Word64)
    requires id != INVALID_ID
    ensures var p := Create(t, id).value;
      && Deserialize(p, Some(id)) == Ok(p)
      && HeaderOk(p, id)
      && TypeOf(p) == t
      && forall i | PAGE_HEADER_SIZE <= i < PAGE_SIZE :: p[i] == 0
  {
    var raw := RawPage(t, id);
    WithHeaderReads(Zeroes(), PAGE_MAGIC, FORMAT_VERSION, TypeCode(t), PAGE_HEADER_SIZE, id);
    assert HeaderOk(raw, id) && TypeOf(raw) == t;
    FinalizedAccepted(raw, id);
    StripFinalize(raw);
    assert raw[20..] == Zeroes()[20..];
    hide *;
    SameHeader(raw, Finalize(raw));
    ZeroTail(Finalize(raw), raw);
  }

  lemma ZeroTail(p: Page, q: Page)
    requires p[PAGE_HEADER_SIZE..] == q[PAGE_HEADER_SIZE..] && q[20..] == Zeroes()[20..]
    ensures forall i | PAGE_HEADER_SIZE <= i < PAGE_SIZE :: p[i] == 0
  {
    forall i | PAGE_HEADER_SIZE <= i < PAGE_SIZE ensures p[i] == 0 {
      assert p[i] == p[PAGE_HEADER_SIZE..][i - PAGE_HEADER_SIZE] == q[i] == q[20..][i - 20];
    }
  }

  // Where everything is in a page: magic, version, type, header size, page id and
  // checksum at their offsets, and zeroes everywhere else.
  lemma CreatedLayout(t: PageType, id: Word64)
    requires id != INVALID_ID
    ensures var p := Create(t, id).value;
      && Get(p, 0, 4) == 0x4B504147 && Get(p, 4, 4) == 1
      && Get(p, 8, 2) == (match t case Catalog => 1 case Heap => 2 case Index => 3)
      && Get(p, 10, 2) == 40 && Get(p, 12, 8) == id
      && (forall i | 20 <= i < 28 || 32 <= i < 4096 :: p[i] == 0)
      && Get(p, 28, 4) == Fnv(p[..28] + [0, 0, 0, 0] + p[32..], 4096)
  {
    var raw := RawPage(t, id);
    var p := Finalize(raw);
    WithHeaderReads(Zeroes(), PAGE_MAGIC, FORMAT_VERSION, TypeCode(t), PAGE_HEADER_SIZE, id);
    hide RawPage, Finalize, Get, Zeroes, Fnv;
    StripFinalize(raw);
    HeaderFieldsKept(p, raw);
    LateZeroes(p, raw);
    FinalizeStores(raw);
    ZeroedChecksum(p);
  }

  lemma HeaderFieldsKept(p: Page, raw: Page)
    requires Strip(p) == Strip(raw)
    ensures Get(p, 0, 4) == Get(raw, 0, 4) && Get(p, 4, 4) == Get(raw, 4, 4) && Get(p, 8, 2) == Get(raw, 8, 2)
    ensures Get(p, 10, 2) == Get(raw, 10, 2) && Get(p, 12, 8) == Get(raw, 12, 8)
  {
    hide Strip;
    SameOutside(p, raw, 0, 4);
    SameOutside(p, raw, 4, 8);
    SameOutside(p, raw, 8, 10);
    SameOutside(p, raw, 10, 12);
    SameOutside(p, raw, 12, 20);
  }

  lemma LateZeroes(p: Page, raw: Page)
    requires Strip(p) == Strip(raw) && raw[20..] == Zeroes()[20..]
    ensures forall i | 20 <= i < 28 || 32 <= i < 4096 :: p[i] == 0
  {
    SameOutside(p, raw, 20, 28);
    SameOutside(p, raw, 32, 4096);
    hide Strip;
    forall i | 20 <= i < 28 || 32 <= i < 4096 ensures p[i] == 0 {
      assert raw[i] == raw[20..][i - 20] == Zeroes()[20..][i - 20] == 0;
      if i < 28 {
        assert p[i] == p[20..28][i - 20] == raw[20..28][i - 20];
      } else {
        assert p[i] == p[32..4096][i - 32] == raw[32..4096][i - 32];
      }
    }
  }

  lemma ZeroedChecksum(p: Page)
    ensures Checksum(p) == Fnv(p[..28] + [0, 0, 0, 0] + p[32..], 4096)
  {
    var z := p[..28] + [0, 0, 0, 0] + p[32..];
    hide Fnv;
    FnvIgnoresChecksumField(p, z, 4096);
  }

  // What a header must be, field by field.
  lemma HeaderExactly(p: Page, id: Word64)
    ensures HeaderOk(p, id) <==>
      && Get(p, 0, 4) == 0x4B504147 && Get(p, 4, 4) == 1 && Get(p, 10, 2) == 40
      && 1 <= Get(p, 8, 2) <= 3 && Get(p, 12, 8) == id && id < 0xFFFF_FFFF_FFFF_FFFF
  {
    hide Get;
  }
}
