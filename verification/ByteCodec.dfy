// Little-endian integers inside byte sequences, as every persistent structure
// of the engine stores them.
module ByteCodec {
  type Byte = x: int | 0 <= x < 0x100
  type Word16 = x: int | 0 <= x < 0x1_0000
  type Word32 = x: int | 0 <= x < 0x1_0000_0000
  type Word64 = x: int | 0 <= x < 0x1_0000_0000_0000_0000
  type Int64 = x: int | -0x8000_0000_0000_0000 <= x < 0x8000_0000_0000_0000

  // The number of values that n bytes can hold.
  function Capacity(n: nat): (c: nat)
    ensures c > 0
  {
    if n == 0 then 1 else 0x100 * Capacity(n - 1)
  }

  lemma Capacities()
    ensures Capacity(1) == 0x100 && Capacity(2) == 0x1_0000
    ensures Capacity(4) == 0x1_0000_0000 && Capacity(8) == 0x1_0000_0000_0000_0000
  {
    assert Capacity(4) == 0x1_0000 * Capacity(2);
    assert Capacity(8) == 0x1_0000_0000 * Capacity(4);
  }

  function LittleEndian(n: nat, value: nat): (s: seq<Byte>)
    ensures |s| == n
  {
    if n == 0 then [] else [value % 0x100] + LittleEndian(n - 1, value / 0x100)
  }

  function FromLittleEndian(s: seq<Byte>): nat {
    if s == [] then 0 else s[0] + 0x100 * FromLittleEndian(s[1..])
  }

  lemma {:induction false} DecodeEncode(n: nat, value: nat)
    requires value < Capacity(n)
    ensures FromLittleEndian(LittleEndian(n, value)) == value
  {
    if n != 0 {
      DecodeEncode(n - 1, value / 0x100);
      assert LittleEndian(n, value)[1..] == LittleEndian(n - 1, value / 0x100);
    }
  }

  lemma {:induction false} EncodeDecode(s: seq<Byte>)
    ensures FromLittleEndian(s) < Capacity(|s|)
    ensures LittleEndian(|s|, FromLittleEndian(s)) == s
  {
    if s != [] {
      EncodeDecode(s[1..]);
      var v := FromLittleEndian(s);
      assert v % 0x100 == s[0] && v / 0x100 == FromLittleEndian(s[1..]);
    }
  }

  // Two's complement reinterpretation of a 64-bit word (std::bit_cast).
  function ToUnsigned(value: Int64): Word64 {
    if value < 0 then value + 0x1_0000_0000_0000_0000 else value
  }

  function ToSigned(value: Word64): Int64 {
    if value < 0x8000_0000_0000_0000 then value else value - 0x1_0000_0000_0000_0000
  }

  // ---- what the encodings are, apart from how they are computed ----

  // The lowest byte comes first.
  lemma TwoBytes(v: Word16)
    ensures LittleEndian(2, v) == [v % 0x100, v / 0x100]
  {
    assert LittleEndian(1, v / 0x100) == [v / 0x100] + LittleEndian(0, 0);
  }

  lemma FourBytes(v: Word32)
    ensures LittleEndian(4, v) == [v % 0x100, v / 0x100 % 0x100, v / 0x1_0000 % 0x100, v / 0x100_0000]
  {
    hide LittleEndian;
    BytesStep(3, v);
    BytesStep(2, v / 0x100);
    TwoBytes(v / 0x1_0000);
  }

  lemma EightBytes(v: Word64)
    ensures LittleEndian(8, v) ==
      [v % 0x100, v / 0x100 % 0x100, v / 0x1_0000 % 0x100, v / 0x100_0000 % 0x100,
       v / 0x1_0000_0000 % 0x100, v / 0x100_0000_0000 % 0x100, v / 0x1_0000_0000_0000 % 0x100,
       v / 0x100_0000_0000_0000]
  {
    hide LittleEndian;
    LowQuotients(v);
    HighQuotients(v / 0x1_0000_0000, v);
    BytesStep(7, v);
    BytesStep(6, v / 0x100);
    BytesStep(5, v / 0x1_0000);
    BytesStep(4, v / 0x100_0000);
    FourBytes(v / 0x1_0000_0000);
  }

  lemma LowQuotients(v: nat)
    ensures v / 0x100 / 0x100 == v / 0x1_0000
    ensures v / 0x1_0000 / 0x100 == v / 0x100_0000
    ensures v / 0x100_0000 / 0x100 == v / 0x1_0000_0000
  {
  }

  lemma HighQuotients(w: nat, v: nat)
    requires w == v / 0x1_0000_0000
    ensures w / 0x100 == v / 0x100_0000_0000
    ensures w / 0x1_0000 == v / 0x1_0000_0000_0000
    ensures w / 0x100_0000 == v / 0x100_0000_0000_0000
  {
  }

  lemma BytesStep(n: nat, v: nat)
    ensures LittleEndian(n + 1, v) == [v % 0x100] + LittleEndian(n, v / 0x100)
  {
  }

  // A signed number and its stored word differ by a multiple of 2^64, and -1 is
  // the word of all ones.
  lemma TwosComplement(v: Int64)
    ensures (ToUnsigned(v) - v) % 0x1_0000_0000_0000_0000 == 0
    ensures ToSigned(ToUnsigned(v)) == v
    ensures ToUnsigned(-1) == 0xFFFF_FFFF_FFFF_FFFF
  {
  }

  // Overwrites part of s with block.
  function Splice(s: seq<Byte>, offset: nat, block: seq<Byte>): (r: seq<Byte>)
    requires offset + |block| <= |s|
    ensures |r| == |s|
  {
    s[..offset] + block + s[offset + |block|..]
  }

  lemma SpliceInside(s: seq<Byte>, offset: nat, block: seq<Byte>)
    requires offset + |block| <= |s|
    ensures Splice(s, offset, block)[offset..offset + |block|] == block
  {
  }

  lemma SpliceOutside(s: seq<Byte>, offset: nat, block: seq<Byte>, lo: nat, hi: nat)
    requires offset + |block| <= |s| && lo <= hi <= |s|
    requires hi <= offset || offset + |block| <= lo
    ensures Splice(s, offset, block)[lo..hi] == s[lo..hi]
  {
  }

  // Adjacent overwrites are one overwrite.
  lemma SpliceAdjacent(s: seq<Byte>, offset: nat, a: seq<Byte>, b: seq<Byte>)
    requires offset + |a| + |b| <= |s|
    ensures Splice(Splice(s, offset, a), offset + |a|, b) == Splice(s, offset, a + b)
  {
    var left := Splice(Splice(s, offset, a), offset + |a|, b);
    var right := Splice(s, offset, a + b);
    forall i | 0 <= i < |s| ensures left[i] == right[i] {
    }
  }

  function Get(s: seq<Byte>, offset: nat, n: nat): nat
    requires offset + n <= |s|
  {
    FromLittleEndian(s[offset..offset + n])
  }

  function Put(s: seq<Byte>, offset: nat, n: nat, value: nat): (r: seq<Byte>)
    requires offset + n <= |s|
    ensures |r| == |s|
  {
    Splice(s, offset, LittleEndian(n, value))
  }

  lemma GetPut(s: seq<Byte>, offset: nat, n: nat, value: nat)
    requires offset + n <= |s| && value < Capacity(n)
    ensures Get(Put(s, offset, n, value), offset, n) == value
  {
    DecodeEncode(n, value);
    SpliceInside(s, offset, LittleEndian(n, value));
  }

  lemma GetPutElsewhere(s: seq<Byte>, offset: nat, n: nat, value: nat, other: nat, m: nat)
    requires offset + n <= |s| && other + m <= |s|
    requires other + m <= offset || offset + n <= other
    ensures Get(Put(s, offset, n, value), other, m) == Get(s, other, m)
  {
    SpliceOutside(s, offset, LittleEndian(n, value), other, other + m);
  }

  // A field determines its bytes.
  lemma GetInjective(s: seq<Byte>, t: seq<Byte>, offset: nat, n: nat)
    requires offset + n <= |s| && offset + n <= |t|
    requires Get(s, offset, n) == Get(t, offset, n)
    ensures s[offset..offset + n] == t[offset..offset + n]
  {
    EncodeDecode(s[offset..offset + n]);
    EncodeDecode(t[offset..offset + n]);
  }

  // The in-place store that the source writes byte by byte.
  method WriteAt(bytes: array<Byte>, offset: nat, n: nat, value: nat)
    requires offset + n <= bytes.Length
    modifies bytes
    ensures bytes[..] == Put(old(bytes[..]), offset, n, value)
  {
    ghost var block := LittleEndian(n, value);
    ghost var was := bytes[..];
    var rest := value;
    for i := 0 to n
      invariant LittleEndian(n - i, rest) == block[i..]
      invariant bytes[..] == Splice(was, offset, block[..i])
    {
      assert block[i] == rest % 0x100;
      assert block[i..][1..] == block[i + 1..];
      bytes[offset + i] := rest % 0x100;
      rest := rest / 0x100;
      assert bytes[..] == Splice(was, offset, block[..i + 1]);
    }
    assert block[..n] == block;
  }

  lemma {:induction false} FromLittleEndianSnoc(s: seq<Byte>, b: Byte)
    ensures FromLittleEndian(s + [b]) == FromLittleEndian(s) + Capacity(|s|) * b
  {
    if s == [] {
      assert s + [b] == [b] && [b][1..] == [];
    } else {
      FromLittleEndianSnoc(s[1..], b);
      assert (s + [b])[1..] == s[1..] + [b];
      assert 0x100 * (Capacity(|s| - 1) * b) == Capacity(|s|) * b;
    }
  }

  // The accumulating load that the source runs from the low byte up.
  method ReadAt(bytes: seq<Byte>, offset: nat, n: nat) returns (value: nat)
    requires offset + n <= |bytes|
    ensures value == Get(bytes, offset, n)
  {
    value := 0;
    var weight: nat := 1;
    for i := 0 to n
      invariant value == FromLittleEndian(bytes[offset..offset + i])
      invariant weight == Capacity(i)
    {
      FromLittleEndianSnoc(bytes[offset..offset + i], bytes[offset + i]);
      assert bytes[offset..offset + i] + [bytes[offset + i]] == bytes[offset..offset + i + 1];
      value := value + weight * bytes[offset + i];
      weight := 0x100 * weight;
    }
  }
}
