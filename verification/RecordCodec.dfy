// Tuples as stored bytes: a version, the column count, and per column either
// eight bytes of an integer or a length and that many bytes of text.
module RecordCodec {
  import opened Results
  import opened ByteCodec
  import opened ByteStreams

  const RECORD_VERSION: Word16 := 1
  const MAX_TEXT: nat := 1024

  datatype ColumnType = IntType | TextType

  datatype Column = Column(name: seq<Byte>, kind: ColumnType)

  type Schema = seq<Column>

  datatype Value = IntValue(number: Int64) | TextValue(text: seq<Byte>)

  type Tuple = seq<Value>

  function KindOf(v: Value): ColumnType {
    if v.IntValue? then IntType else TextType
  }

  predicate Matches(schema: Schema, tuple: Tuple) {
    |schema| == |tuple| && forall i | 0 <= i < |schema| :: KindOf(tuple[i]) == schema[i].kind
  }

  // ---- encoding ----

  function EncodeValue(kind: ColumnType, v: Value): Result<seq<Byte>> {
    if KindOf(v) != kind then Err(TypeMismatch)
    else
      match v
      case IntValue(i) => Ok(LittleEndian(8, ToUnsigned(i)))
      case TextValue(t) =>
        if |t| > MAX_TEXT then Err(ResourceExhausted) else Ok(LittleEndian(4, |t|) + t)
  }

  // What was produced so far, put in front of the outcome of the rest.
  function Following<T>(front: seq<T>, rest: Result<seq<T>>): Result<seq<T>> {
    match rest
    case Err(e) => Err(e)
    case Ok(tail) => Ok(front + tail)
  }

  function EncodeColumns(schema: Schema, tuple: Tuple): Result<seq<Byte>>
    requires |schema| == |tuple|
  {
    if schema == [] then Ok([])
    else
      match EncodeValue(schema[0].kind, tuple[0])
      case Err(e) => Err(e)
      case Ok(front) => Following(front, EncodeColumns(schema[1..], tuple[1..]))
  }

  function RecordHeader(columns: nat): (s: seq<Byte>)
    ensures |s| == 4
  {
    LittleEndian(2, RECORD_VERSION) + LittleEndian(2, columns)
  }

  function EncodeRecord(schema: Schema, tuple: Tuple): Result<seq<Byte>> {
    if |schema| != |tuple| then Err(InvalidArgument)
    else if |schema| > 0xFFFF then Err(ResourceExhausted)
    else Following(RecordHeader(|schema|), EncodeColumns(schema, tuple))
  }

  // ---- decoding ----

  function DecodeValue(kind: ColumnType, s: seq<Byte>): Result<(Value, seq<Byte>)> {
    match kind
    case IntType =>
      if |s| < 8 then Err(OutOfRange)
      else
        Capacities();
        EncodeDecode(s[..8]);
        Ok((IntValue(ToSigned(FromLittleEndian(s[..8]))), s[8..]))
    case TextType =>
      if |s| < 4 then Err(OutOfRange)
      else
        var length := FromLittleEndian(s[..4]);
        if length > MAX_TEXT then Err(Corruption)
        else if |s| - 4 < length then Err(OutOfRange)
        else Ok((TextValue(s[4..4 + length]), s[4 + length..]))
  }

  function DecodeColumns(schema: Schema, s: seq<Byte>): Result<Tuple> {
    if schema == [] then (if s == [] then Ok([]) else Err(Corruption))
    else
      match DecodeValue(schema[0].kind, s)
      case Err(e) => Err(e)
      case Ok((v, rest)) => Following([v], DecodeColumns(schema[1..], rest))
  }

  function DecodeRecord(schema: Schema, s: seq<Byte>): Result<Tuple> {
    if |s| < 4 then Err(OutOfRange)
    else if FromLittleEndian(s[..2]) != RECORD_VERSION then Err(Unsupported)
    else if FromLittleEndian(s[2..4]) != |schema| then Err(Corruption)
    else DecodeColumns(schema, s[4..])
  }

  // ---- the laws ----

  lemma SignedBits(i: Int64)
    ensures ToSigned(ToUnsigned(i)) == i
  {
  }

  lemma ValueRoundTrip(kind: ColumnType, v: Value, rest: seq<Byte>)
    requires EncodeValue(kind, v).Ok?
    ensures DecodeValue(kind, EncodeValue(kind, v).value + rest) == Ok((v, rest))
  {
    Capacities();
    var front := EncodeValue(kind, v).value;
    var s := front + rest;
    match v
    case IntValue(i) =>
      DecodeEncode(8, ToUnsigned(i));
      SignedBits(i);
      assert s[..8] == front && s[8..] == rest;
    case TextValue(t) =>
      DecodeEncode(4, |t|);
      assert s[..4] == LittleEndian(4, |t|);
      assert s[4..4 + |t|] == t && s[4 + |t|..] == rest;
  }

  lemma {:induction false} ColumnsRoundTrip(schema: Schema, tuple: Tuple)
    requires |schema| == |tuple| && EncodeColumns(schema, tuple).Ok?
    ensures DecodeColumns(schema, EncodeColumns(schema, tuple).value) == Ok(tuple)
  {
    if schema != [] {
      ColumnsRoundTrip(schema[1..], tuple[1..]);
      ValueRoundTrip(schema[0].kind, tuple[0], EncodeColumns(schema[1..], tuple[1..]).value);
      assert [tuple[0]] + tuple[1..] == tuple;
    }
  }

  // Decoding an encoded tuple gives the tuple back.
  lemma RecordRoundTrip(schema: Schema, tuple: Tuple)
    requires EncodeRecord(schema, tuple).Ok?
    ensures DecodeRecord(schema, EncodeRecord(schema, tuple).value) == Ok(tuple)
  {
    Capacities();
    var n := |schema|;
    var body := EncodeColumns(schema, tuple).value;
    var s := RecordHeader(n) + body;
    DecodeEncode(2, RECORD_VERSION);
    DecodeEncode(2, n);
    assert s[..2] == LittleEndian(2, RECORD_VERSION) && s[2..4] == LittleEndian(2, n) && s[4..] == body;
    ColumnsRoundTrip(schema, tuple);
  }

  lemma ValueCanonical(kind: ColumnType, s: seq<Byte>)
    requires DecodeValue(kind, s).Ok?
    ensures var (v, rest) := DecodeValue(kind, s).value;
      EncodeValue(kind, v).Ok? && EncodeValue(kind, v).value + rest == s
  {
    Capacities();
    match kind
    case IntType =>
      EncodeDecode(s[..8]);
      assert s[..8] + s[8..] == s;
    case TextType =>
      EncodeDecode(s[..4]);
      var length := FromLittleEndian(s[..4]);
      assert s[..4] + s[4..4 + length] + s[4 + length..] == s;
  }

  lemma {:induction false} ColumnsCanonical(schema: Schema, s: seq<Byte>)
    requires DecodeColumns(schema, s).Ok?
    ensures var t := DecodeColumns(schema, s).value;
      |t| == |schema| && EncodeColumns(schema, t) == Ok(s)
  {
    if schema != [] {
      var (v, rest) := DecodeValue(schema[0].kind, s).value;
      ValueCanonical(schema[0].kind, s);
      ColumnsCanonical(schema[1..], rest);
      var t := DecodeColumns(schema, s).value;
      assert t[0] == v && t[1..] == DecodeColumns(schema[1..], rest).value;
    }
  }

  // Whatever decodes is the encoding of what it decodes to.
  lemma RecordCanonical(schema: Schema, s: seq<Byte>)
    requires DecodeRecord(schema, s).Ok?
    ensures EncodeRecord(schema, DecodeRecord(schema, s).value) == Ok(s)
  {
    Capacities();
    ColumnsCanonical(schema, s[4..]);
    EncodeDecode(s[..2]);
    EncodeDecode(s[2..4]);
    assert s[..2] + s[2..4] + s[4..] == s;
  }

  predicate TextsShort(tuple: Tuple) {
    forall i | 0 <= i < |tuple| :: tuple[i].TextValue? ==> |tuple[i].text| <= MAX_TEXT
  }

  lemma {:induction false} ColumnsEncodable(schema: Schema, tuple: Tuple)
    requires |schema| == |tuple|
    ensures EncodeColumns(schema, tuple).Ok? <==> Matches(schema, tuple) && TextsShort(tuple)
  {
    if schema != [] {
      var rest, values := schema[1..], tuple[1..];
      ColumnsEncodable(rest, values);
      forall i | 0 <= i < |rest| ensures rest[i] == schema[i + 1] && values[i] == tuple[i + 1] {}
      if Matches(rest, values) && TextsShort(values) {
        forall i | 1 <= i < |schema|
          ensures KindOf(tuple[i]) == schema[i].kind && (tuple[i].TextValue? ==> |tuple[i].text| <= MAX_TEXT)
        {
          assert KindOf(values[i - 1]) == rest[i - 1].kind;
          assert values[i - 1].TextValue? ==> |values[i - 1].text| <= MAX_TEXT;
        }
      }
    }
  }

  // What the encoder takes: a tuple of the schema's types with at most 65535
  // columns and no text longer than 1024 bytes.
  predicate Encodable(schema: Schema, tuple: Tuple) {
    |schema| <= 0xFFFF && Matches(schema, tuple) && TextsShort(tuple)
  }

  function ValueSize(v: Value): nat {
    if v.IntValue? then 8 else 4 + |v.text|
  }

  function ValuesSize(tuple: Tuple): nat {
    if tuple == [] then 0 else ValueSize(tuple[0]) + ValuesSize(tuple[1..])
  }

  // How many bytes the record of a tuple has.
  function RecordSize(tuple: Tuple): nat {
    4 + ValuesSize(tuple)
  }

  lemma {:induction false} ColumnsSize(schema: Schema, tuple: Tuple)
    requires |schema| == |tuple| && EncodeColumns(schema, tuple).Ok?
    ensures |EncodeColumns(schema, tuple).value| == ValuesSize(tuple)
  {
    if schema != [] {
      ColumnsSize(schema[1..], tuple[1..]);
    }
  }

  lemma {:induction false} ColumnsError(schema: Schema, tuple: Tuple)
    requires |schema| == |tuple| && Matches(schema, tuple) && EncodeColumns(schema, tuple).Err?
    ensures EncodeColumns(schema, tuple).error == ResourceExhausted
  {
    if schema != [] && EncodeValue(schema[0].kind, tuple[0]).Ok? {
      var rest, values := schema[1..], tuple[1..];
      forall i | 0 <= i < |rest| ensures KindOf(values[i]) == rest[i].kind {
        assert rest[i] == schema[i + 1] && values[i] == tuple[i + 1];
      }
      ColumnsError(rest, values);
    }
  }

  // A tuple has a record exactly when it is encodable, and the record's length
  // depends on the values alone. A tuple of the right types is refused for a
  // limit and nothing else.
  lemma EncodableExactly(schema: Schema, tuple: Tuple)
    ensures EncodeRecord(schema, tuple).Ok? <==> Encodable(schema, tuple)
    ensures Encodable(schema, tuple) ==> |EncodeRecord(schema, tuple).value| == RecordSize(tuple)
    ensures Matches(schema, tuple) && !Encodable(schema, tuple) ==> EncodeRecord(schema, tuple) == Err(ResourceExhausted)
  {
    if |schema| == |tuple| {
      ColumnsEncodable(schema, tuple);
      if EncodeColumns(schema, tuple).Ok? {
        ColumnsSize(schema, tuple);
      } else if Matches(schema, tuple) {
        ColumnsError(schema, tuple);
      }
    }
  }

  // Where everything is in a record: version, column count, then the columns.
  lemma RecordLayout(a: Column, b: Column, i: Int64, text: seq<Byte>)
    requires a.kind == IntType && b.kind == TextType && |text| <= 1024
    ensures EncodeRecord([a, b], [IntValue(i), TextValue(text)]) ==
      Ok([1, 0] + [2, 0] + LittleEndian(8, ToUnsigned(i)) + LittleEndian(4, |text|) + text)
  {
    hide LittleEndian, EncodeColumns, RecordHeader, ToUnsigned;
    HeaderBytes();
    TwoColumns(a, b, i, text);
    Join([1, 0] + [2, 0], LittleEndian(8, ToUnsigned(i)), LittleEndian(4, |text|), text);
  }

  lemma HeaderBytes()
    ensures RecordHeader(2) == [1, 0] + [2, 0]
  {
    TwoBytes(1);
    TwoBytes(2);
    hide LittleEndian;
  }

  lemma Join(a: seq<Byte>, b: seq<Byte>, c: seq<Byte>, d: seq<Byte>)
    ensures a + (b + (c + d)) == a + b + c + d
  {
  }

  lemma TwoColumns(a: Column, b: Column, i: Int64, text: seq<Byte>)
    requires a.kind == IntType && b.kind == TextType && |text| <= 1024
    ensures EncodeColumns([a, b], [IntValue(i), TextValue(text)]) ==
      Ok(LittleEndian(8, ToUnsigned(i)) + (LittleEndian(4, |text|) + text))
  {
    hide LittleEndian;
    var schema, tuple := [a, b], [IntValue(i), TextValue(text)];
    assert schema[1..] == [b] && tuple[1..] == [TextValue(text)];
    OneColumn(b, text);
  }

  lemma OneColumn(b: Column, text: seq<Byte>)
    requires b.kind == TextType && |text| <= 1024
    ensures EncodeColumns([b], [TextValue(text)]) == Ok(LittleEndian(4, |text|) + text)
  {
    hide LittleEndian;
    assert [b][1..] == [] && [TextValue(text)][1..] == [];
    assert LittleEndian(4, |text|) + text + [] == LittleEndian(4, |text|) + text;
  }

  // ---- the loops ----

  method WriteRecord(schema: Schema, tuple: Tuple) returns (r: Result<seq<Byte>>)
    ensures r == EncodeRecord(schema, tuple)
  {
    if |schema| != |tuple| {
      return Err(InvalidArgument);
    }
    if |schema| > 0xFFFF {
      return Err(ResourceExhausted);
    }
    hide LittleEndian;
    var writer := new ByteWriter();
    writer.WriteUInt(2, RECORD_VERSION);
    writer.WriteUInt(2, |schema|);
    assert writer.bytes == RecordHeader(|schema|);
    assert schema[0..] == schema && tuple[0..] == tuple;
    for index := 0 to |schema|
      invariant EncodeRecord(schema, tuple) == Following(writer.bytes, EncodeColumns(schema[index..], tuple[index..]))
    {
      ghost var was, rest := writer.bytes, EncodeColumns(schema[index + 1..], tuple[index + 1..]);
      assert schema[index..][1..] == schema[index + 1..] && tuple[index..][1..] == tuple[index + 1..];
      var value := tuple[index];
      if KindOf(value) != schema[index].kind {
        return Err(TypeMismatch);
      }
      if schema[index].kind == IntType {
        writer.WriteUInt(8, ToUnsigned(value.number));
        FollowingTwice(was, LittleEndian(8, ToUnsigned(value.number)), rest);
        continue;
      }
      if |value.text| > MAX_TEXT {
        return Err(ResourceExhausted);
      }
      writer.WriteUInt(4, |value.text|);
      writer.WriteBytes(value.text);
      assert writer.bytes == was + (LittleEndian(4, |value.text|) + value.text);
      FollowingTwice(was, LittleEndian(4, |value.text|) + value.text, rest);
    }
    assert EncodeColumns(schema[|schema|..], tuple[|schema|..]) == Ok([]);
    assert writer.bytes + [] == writer.bytes;
    return Ok(writer.bytes);
  }

  lemma FollowingTwice<T>(a: seq<T>, b: seq<T>, rest: Result<seq<T>>)
    ensures Following(a, Following(b, rest)) == Following(a + b, rest)
  {
    if rest.Ok? {
      assert a + (b + rest.value) == a + b + rest.value;
    }
  }

  // Reads one column.
  method ReadValue(reader: ByteReader, kind: ColumnType) returns (r: Result<Value>)
    requires reader.Valid()
    modifies reader
    ensures reader.Valid()
    ensures match DecodeValue(kind, old(reader.Rest()))
      case Err(e) => r == Err(e)
      case Ok((v, rest)) => r == Ok(v) && reader.Rest() == rest
  {
    hide FromLittleEndian;
    ghost var s := reader.Rest();
    if kind == IntType {
      var integer := reader.ReadUInt(8);
      if integer.Err? {
        return Forward(integer);
      }
      FitsWord(s[..8]);
      return Ok(IntValue(ToSigned(integer.value)));
    }
    var length := reader.ReadUInt(4);
    if length.Err? {
      return Forward(length);
    }
    if length.value > MAX_TEXT {
      return Err(Corruption);
    }
    var bytes := reader.Consume(length.value);
    if bytes.Err? {
      return Forward(bytes);
    }
    SuffixOfSuffix(s, 4, length.value);
    return Ok(TextValue(bytes.value));
  }

  method ReadTuple(schema: Schema, encoded: seq<Byte>) returns (r: Result<Tuple>)
    ensures r == DecodeRecord(schema, encoded)
  {
    hide FromLittleEndian, DecodeValue, DecodeColumns, Following;
    var reader := new ByteReader(encoded);
    var version := reader.ReadUInt(2);
    var columnCount := reader.ReadUInt(2);
    if version.Err? || columnCount.Err? {
      return Forward(columnCount);
    }
    SuffixOfSuffix(encoded, 2, 2);
    if version.value != RECORD_VERSION {
      return Err(Unsupported);
    }
    if columnCount.value != |schema| {
      return Err(Corruption);
    }
    r := ReadColumns(reader, schema);
  }

  method ReadColumns(reader: ByteReader, schema: Schema) returns (r: Result<Tuple>)
    requires reader.Valid()
    modifies reader
    ensures r == DecodeColumns(schema, old(reader.Rest()))
  {
    hide DecodeValue, DecodeColumns, Following;
    ghost var encoded := reader.Rest();
    var tuple: Tuple := [];
    assert schema[0..] == schema;
    FollowingNothing(DecodeColumns(schema, encoded));
    for index := 0 to |schema|
      invariant reader.Valid()
      invariant DecodeColumns(schema, encoded) == Following(tuple, DecodeColumns(schema[index..], reader.Rest()))
    {
      DecodeNext(schema, index, tuple, reader.Rest());
      var value := ReadValue(reader, schema[index].kind);
      if value.Err? {
        return Forward(value);
      }
      tuple := tuple + [value.value];
    }
    DecodeEnd(schema, tuple, reader.Rest());
    var remaining := reader.Remaining();
    if remaining != 0 {
      return Err(Corruption);
    }
    return Ok(tuple);
  }

  lemma DecodeNext(schema: Schema, index: nat, front: Tuple, s: seq<Byte>)
    requires index < |schema|
    ensures Following(front, DecodeColumns(schema[index..], s)) ==
      match DecodeValue(schema[index].kind, s)
      case Err(e) => Err(e)
      case Ok((v, rest)) => Following(front + [v], DecodeColumns(schema[index + 1..], rest))
  {
    hide DecodeValue;
    assert schema[index..][1..] == schema[index + 1..];
    var read := DecodeValue(schema[index].kind, s);
    if read.Ok? {
      FollowingTwice(front, [read.value.0], DecodeColumns(schema[index + 1..], read.value.1));
    }
  }

  lemma DecodeEnd(schema: Schema, front: Tuple, s: seq<Byte>)
    ensures Following(front, DecodeColumns(schema[|schema|..], s)) == if s == [] then Ok(front) else Err(Corruption)
  {
    assert front + [] == front;
  }

  lemma FollowingNothing<T>(r: Result<seq<T>>)
    ensures Following([], r) == r
  {
    if r.Ok? {
      assert [] + r.value == r.value;
    }
  }

  lemma FitsWord(s: seq<Byte>)
    requires |s| == 8
    ensures FromLittleEndian(s) < 0x1_0000_0000_0000_0000
  {
    Capacities();
    EncodeDecode(s);
  }

  lemma SuffixOfSuffix(s: seq<Byte>, a: nat, b: nat)
    requires a + b <= |s|
    ensures s[a..][..b] == s[a..a + b] && s[a..][b..] == s[a + b..]
  {
  }
}
