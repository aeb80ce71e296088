// The growing writer and the bounds-checked reader of encoded records.
module ByteStreams {
  import opened Results
  import opened ByteCodec

  class ByteWriter {
    var bytes: seq<Byte>

    constructor ()
      ensures bytes == []
    {
      bytes := [];
    }

    // Appends the n low bytes of a value, lowest first.
    method WriteUInt(n: nat, value: nat)
      modifies this
      ensures bytes == old(bytes) + LittleEndian(n, value)
    {
      ghost var block := LittleEndian(n, value);
      var rest := value;
      for index := 0 to n
        invariant LittleEndian(n - index, rest) == block[index..]
        invariant bytes == old(bytes) + block[..index]
      {
        assert block[index] == rest % 0x100;
        assert block[index..][1..] == block[index + 1..];
        bytes := bytes + [rest % 0x100];
        rest := rest / 0x100;
      }
      assert block[..n] == block;
    }

    method WriteBytes(block: seq<Byte>)
      modifies this
      ensures bytes == old(bytes) + block
    {
      bytes := bytes + block;
    }
  }

  class ByteReader {
    const bytes: seq<Byte>
    var offset: nat

    ghost predicate Valid()
      reads this
    {
      offset <= |bytes|
    }

    // The input that has not been read.
    ghost function Rest(): seq<Byte>
      requires Valid()
      reads this
    {
      bytes[offset..]
    }

    constructor (bytes: seq<Byte>)
      ensures Valid() && this.bytes == bytes && Rest() == bytes
    {
      this.bytes, offset := bytes, 0;
    }

    // Takes count bytes, or fails and takes none.
    method Consume(count: nat) returns (r: Result<seq<Byte>>)
      requires Valid()
      modifies this
      ensures Valid()
      ensures if count <= |old(Rest())| then
          r == Ok(old(Rest())[..count]) && Rest() == old(Rest())[count..]
        else r == Err(OutOfRange) && Rest() == old(Rest())
    {
      if count > |bytes| - offset {
        return Err(OutOfRange);
      }
      ghost var rest := Rest();
      r := Ok(bytes[offset..offset + count]);
      offset := offset + count;
      assert rest[..count] == r.value && rest[count..] == Rest();
    }

    method ReadUInt(n: nat) returns (r: Result<nat>)
      requires Valid()
      modifies this
      ensures Valid()
      ensures if n <= |old(Rest())| then
          r == Ok(FromLittleEndian(old(Rest())[..n])) && Rest() == old(Rest())[n..]
        else r == Err(OutOfRange) && Rest() == old(Rest())
    {
      var taken := Consume(n);
      if taken.Err? {
        return Forward(taken);
      }
      var value := ReadAt(taken.value, 0, n);
      assert taken.value[0..n] == taken.value;
      return Ok(value);
    }

    method Remaining() returns (n: nat)
      requires Valid()
      ensures n == |Rest()|
    {
      return |bytes| - offset;
    }
  }
}
