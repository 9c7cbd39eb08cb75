/** Big-endian byte helpers shared by the header codec: the read of src/utils.rs
    (repeated as a closure in `deserialize_header`) and the byte split that the
    serializers write. A Rust `u8` is a `bv8`, a `u16` a `bv16`. */
module ByteUtils {

  /** `(v >> 8) as u8`: the high-order byte of a 16-bit value. */
  function HighByte(v: bv16): bv8 {
    (v >> 8) as bv8
  }

  /** `v as u8`: Rust's cast keeps the low-order byte. */
  function LowByte(v: bv16): bv8 {
    (v & 0xFF) as bv8
  }

  /** As numbers, the two bytes are the quotient and the remainder of `v` by 256. */
  lemma SplitBytesValues(v: bv16)
    ensures HighByte(v) as int == v as int / 256
    ensures LowByte(v) as int == v as int % 256
  {
    ShiftIsDivision(v);
    MaskIsRemainder(v);
  }

  /** `double_u8_to_u16`: reads `bytes[i]` and `bytes[i + 1]` as one big-endian u16.
      Rust panics when `i + 1` is out of range; callers must rule that out. */
  function DoubleU8ToU16(bytes: seq<bv8>, i: nat): (r: bv16)
    requires i + 1 < |bytes|
    ensures r as int == bytes[i] as int * 256 + bytes[i + 1] as int
  {
    JoinIsBigEndian(bytes[i], bytes[i + 1]);
    ((bytes[i] as bv16) << 8) | bytes[i + 1] as bv16
  }

  /** The two bytes read are the high and the low byte of the result. */
  lemma DoubleU8ToU16Bytes(bytes: seq<bv8>, i: nat)
    requires i + 1 < |bytes|
    ensures HighByte(DoubleU8ToU16(bytes, i)) == bytes[i]
    ensures LowByte(DoubleU8ToU16(bytes, i)) == bytes[i + 1]
  {
  }

  /** Only `bytes[i]` and `bytes[i + 1]` influence the result. */
  lemma DoubleU8ToU16Local(a: seq<bv8>, b: seq<bv8>, i: nat)
    requires i + 1 < |a| && i + 1 < |b|
    requires a[i] == b[i] && a[i + 1] == b[i + 1]
    ensures DoubleU8ToU16(a, i) == DoubleU8ToU16(b, i)
  {
  }

  /** Reading back the split `(v >> 8, v as u8)` used when writing a u16 gives `v`. */
  lemma DoubleU8ToU16InvertsSplit(bytes: seq<bv8>, i: nat, v: bv16)
    requires i + 1 < |bytes|
    requires bytes[i] == HighByte(v) && bytes[i + 1] == LowByte(v)
    ensures DoubleU8ToU16(bytes, i) == v
  {
  }

  // Bridges between bit-vector operations and integer arithmetic.

  lemma ShiftIsDivision(v: bv16)
    ensures (v >> 8) as int == v as int / 256
  {
  }

  lemma SplitIsBigEndian(v: bv16)
    ensures v as int == (v >> 8) as int * 256 + (v & 0xFF) as int
  {
  }

  lemma MaskIsRemainder(v: bv16)
    ensures (v & 0xFF) as int == v as int % 256
  {
    ShiftIsDivision(v);
    SplitIsBigEndian(v);
  }

  lemma U16EqualFromInt(a: bv16, b: bv16)
    requires a as int == b as int
    ensures a == b
  {
    SplitBytesValues(a);
    SplitBytesValues(b);
    ByteEqualFromInt(HighByte(a), HighByte(b));
    ByteEqualFromInt(LowByte(a), LowByte(b));
    DoubleU8ToU16InvertsSplit([HighByte(a), LowByte(a)], 0, a);
    DoubleU8ToU16InvertsSplit([HighByte(b), LowByte(b)], 0, b);
    assert [HighByte(a), LowByte(a)] == [HighByte(b), LowByte(b)];
  }

  lemma ByteEqualFromInt(a: bv8, b: bv8)
    requires a as int == b as int
    ensures a == b
  {
  }

  lemma WidenKeepsValue(b: bv8)
    ensures (b as bv16) as int == b as int
  {
  }

  lemma JoinIsBigEndian(hi: bv8, lo: bv8)
    ensures (((hi as bv16) << 8) | lo as bv16) as int == hi as int * 256 + lo as int
  {
    var r := ((hi as bv16) << 8) | lo as bv16;
    assert r >> 8 == hi as bv16;
    assert r & 0xFF == lo as bv16;
    SplitIsBigEndian(r);
    WidenKeepsValue(hi);
    WidenKeepsValue(lo);
  }
}
