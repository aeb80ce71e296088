// The stored form of index metadata.
module IndexCodec {
  import opened Results
  import opened ByteCodec
  import opened ByteStreams
  import opened Pages

  const INDEX_RECORD_VERSION: Word16 := 1
  const INDEX_HEADER_SIZE: nat := 36

  datatype IndexEntry = IndexEntry(id: Word64, name: seq<Byte>, table: Word64, column: Word64, root: Word64)

  // What a record of the catalog must satisfy to be written or read.
  predicate EntryOk(e: IndexEntry) {
    e.id != INVALID_ID && e.id != 0 && e.name != [] && e.table != INVALID_ID && e.root != INVALID_ID
  }

  function IndexHeader(e: IndexEntry, length: nat): (s: seq<Byte>)
    ensures |s| == INDEX_HEADER_SIZE
  {
    LittleEndian(2, INDEX_RECORD_VERSION) + LittleEndian(8, e.id) + LittleEndian(8, e.table) +
    LittleEndian(8, e.column) + LittleEndian(8, e.root) + LittleEndian(2, length)
  }

  function EncodeIndex(e: IndexEntry): Result<seq<Byte>> {
    if !EntryOk(e) then Err(InvalidArgument)
    else if |e.name| > 0xFFFF then Err(ResourceExhausted)
    else Ok(IndexHeader(e, |e.name|) + e.name)
  }

  function WordAt(s: seq<Byte>, offset: nat): Word64
    requires offset + 8 <= |s|
  {
    Capacities();
    EncodeDecode(s[offset..offset + 8]);
    Get(s, offset, 8)
  }

  function DecodeIndex(s: seq<Byte>): Result<IndexEntry> {
    if |s| < INDEX_HEADER_SIZE then Err(Corruption)
    else
      var e := IndexEntry(WordAt(s, 2), s[INDEX_HEADER_SIZE..], WordAt(s, 10), WordAt(s, 18), WordAt(s, 26));
      if Get(s, 0, 2) != INDEX_RECORD_VERSION || !EntryOk(e) || Get(s, 34, 2) != |e.name| then Err(Corruption)
      else Ok(e)
  }

  lemma SixParts(a: seq<Byte>, b: seq<Byte>, c: seq<Byte>, d: seq<Byte>, e: seq<Byte>, f: seq<Byte>, g: seq<Byte>)
    requires |a| == 2 && |b| == 8 && |c| == 8 && |d| == 8 && |e| == 8 && |f| == 2
    ensures var s := a + b + c + d + e + f + g;
      && s[0..2] == a && s[2..10] == b && s[10..18] == c && s[18..26] == d && s[26..34] == e && s[34..36] == f
      && s[36..] == g
  {
  }

  lemma HeaderReads(e: IndexEntry, length: Word16, rest: seq<Byte>)
    ensures var s := IndexHeader(e, length) + rest;
      && Get(s, 0, 2) == INDEX_RECORD_VERSION && Get(s, 34, 2) == length && s[INDEX_HEADER_SIZE..] == rest
      && WordAt(s, 2) == e.id && WordAt(s, 10) == e.table && WordAt(s, 18) == e.column && WordAt(s, 26) == e.root
  {
    Capacities();
    DecodeEncode(2, INDEX_RECORD_VERSION);
    DecodeEncode(8, e.id);
    DecodeEncode(8, e.table);
    DecodeEncode(8, e.column);
    DecodeEncode(8, e.root);
    DecodeEncode(2, length);
    hide LittleEndian, FromLittleEndian;
    SixParts(LittleEndian(2, INDEX_RECORD_VERSION), LittleEndian(8, e.id), LittleEndian(8, e.table),
      LittleEndian(8, e.column), LittleEndian(8, e.root), LittleEndian(2, length), rest);
  }

  // Decoding encoded metadata gives it back.
  lemma IndexRoundTrip(e: IndexEntry)
    requires EncodeIndex(e).Ok?
    ensures DecodeIndex(EncodeIndex(e).value) == Ok(e)
  {
    HeaderReads(e, |e.name|, e.name);
    hide IndexHeader, WordAt, Get;
  }

  // Where everything is in the record of an index.
  lemma IndexLayout(e: IndexEntry)
    requires EncodeIndex(e).Ok?
    ensures EncodeIndex(e).value ==
      [1, 0] + LittleEndian(8, e.id) + LittleEndian(8, e.table) + LittleEndian(8, e.column) + LittleEndian(8, e.root)
      + LittleEndian(2, |e.name|) + e.name
    ensures 0 < e.id < 0xFFFF_FFFF_FFFF_FFFF && e.table < 0xFFFF_FFFF_FFFF_FFFF && e.root < 0xFFFF_FFFF_FFFF_FFFF
    ensures 0 < |e.name| <= 0xFFFF
  {
    TwoBytes(1);
  }

  lemma JoinParts(s: seq<Byte>)
    requires |s| >= INDEX_HEADER_SIZE
    ensures s == s[0..2] + s[2..10] + s[10..18] + s[18..26] + s[26..34] + s[34..36] + s[36..]
  {
  }

  // Whatever decodes is the encoding of what it decodes to.
  lemma IndexCanonical(s: seq<Byte>)
    requires DecodeIndex(s).Ok?
    ensures EncodeIndex(DecodeIndex(s).value) == Ok(s)
  {
    Capacities();
    EncodeDecode(s[0..2]);
    EncodeDecode(s[2..10]);
    EncodeDecode(s[10..18]);
    EncodeDecode(s[18..26]);
    EncodeDecode(s[26..34]);
    EncodeDecode(s[34..36]);
    hide LittleEndian, FromLittleEndian;
    JoinParts(s);
  }

  method WriteIndex(e: IndexEntry) returns (r: Result<seq<Byte>>)
    ensures r == EncodeIndex(e)
  {
    hide LittleEndian;
    if e.id == INVALID_ID || e.id == 0 || e.name == [] || e.table == INVALID_ID || e.root == INVALID_ID {
      return Err(InvalidArgument);
    }
    if |e.name| > 0xFFFF {
      return Err(ResourceExhausted);
    }
    var writer := new ByteWriter();
    writer.WriteUInt(2, INDEX_RECORD_VERSION);
    writer.WriteUInt(8, e.id);
    writer.WriteUInt(8, e.table);
    writer.WriteUInt(8, e.column);
    writer.WriteUInt(8, e.root);
    writer.WriteUInt(2, |e.name|);
    assert writer.bytes == IndexHeader(e, |e.name|);
    writer.WriteBytes(e.name);
    return Ok(writer.bytes);
  }

  // The name is the rest of the record and not empty.
  method ReadName(reader: ByteReader, length: nat) returns (r: Result<seq<Byte>>)
    requires reader.Valid()
    modifies reader
    ensures var rest := old(reader.Rest());
      r == if rest != [] && |rest| == length then Ok(rest) else Err(Corruption)
  {
    ghost var rest := reader.Rest();
    var name := reader.Consume(length);
    var remaining := reader.Remaining();
    if name.Err? || name.value == [] || remaining != 0 {
      return Err(Corruption);
    }
    assert rest[..length] == rest;
    return name;
  }

  method ReadIndex(s: seq<Byte>) returns (r: Result<IndexEntry>)
    ensures r == DecodeIndex(s)
  {
    hide FromLittleEndian, Get, WordAt;
    var reader := new ByteReader(s);
    var version := reader.ReadUInt(2);
    var id := reader.ReadUInt(8);
    var table := reader.ReadUInt(8);
    var column := reader.ReadUInt(8);
    var root := reader.ReadUInt(8);
    var length := reader.ReadUInt(2);
    if version.Err? || id.Err? || table.Err? || column.Err? || root.Err? || length.Err? {
      return Err(Corruption);
    }
    SuffixReads(s);
    if version.value != INDEX_RECORD_VERSION || id.value == 0 || id.value == INVALID_ID
       || table.value == INVALID_ID || root.value == INVALID_ID {
      return Err(Corruption);
    }
    var name := ReadName(reader, length.value);
    if name.Err? {
      return Forward(name);
    }
    return Ok(IndexEntry(id.value, name.value, table.value, column.value, root.value));
  }

  lemma SuffixReads(s: seq<Byte>)
    requires |s| >= INDEX_HEADER_SIZE
    ensures FromLittleEndian(s[..2]) == Get(s, 0, 2)
    ensures FromLittleEndian(s[2..][..8]) == WordAt(s, 2)
    ensures FromLittleEndian(s[2..][8..][..8]) == WordAt(s, 10)
    ensures FromLittleEndian(s[2..][8..][8..][..8]) == WordAt(s, 18)
    ensures FromLittleEndian(s[2..][8..][8..][8..][..8]) == WordAt(s, 26)
    ensures FromLittleEndian(s[2..][8..][8..][8..][8..][..2]) == Get(s, 34, 2)
    ensures s[2..][8..][8..][8..][8..][2..] == s[36..]
  {
    hide FromLittleEndian;
    assert s[..2] == s[0..2] && s[2..][..8] == s[2..10] && s[2..][8..][..8] == s[10..18];
    assert s[2..][8..][8..][..8] == s[18..26] && s[2..][8..][8..][8..][..8] == s[26..34];
    assert s[2..][8..][8..][8..][8..][..2] == s[34..36];
  }
}
