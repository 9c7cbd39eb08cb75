/** The 12-byte message header of section 4.1.1 of RFC 1035, as src/dns_header.rs
    packs and unpacks it. */
module DnsHeaderCodec {
  import opened ByteUtils

  /** `DnsHeader`: every field has the width of its Rust type, not of its wire field;
      `opCode`, `z` and `responseCode` are whole bytes that nothing masks. */
  datatype DnsHeader = DnsHeader(
    id: bv16,
    query: bool,
    opCode: bv8,
    aa: bool,
    tc: bool,
    rd: bool,
    ra: bool,
    z: bv8,
    responseCode: bv8,
    questionsCount: bv16,
    answersCount: bv16,
    authorityCount: bv16,
    additionalCount: bv16)

  /** Each bit-field fits the width RFC 1035 gives it (Opcode 4 bits, Z 3 bits, RCODE 4 bits). */
  predicate FieldsInRange(h: DnsHeader) {
    h.opCode < 16 && h.z < 8 && h.responseCode < 16
  }

  /** `b as u8` for a bool. */
  function Bit(b: bool): bv8 {
    if b then 1 else 0
  }

  /** Byte 2 as the encoder builds it: QR << 7 | Opcode << 3 | AA << 2 | TC << 1 | RD. */
  function FlagsByte(h: DnsHeader): bv8 {
    (Bit(h.query) << 7) | (h.opCode << 3) | (Bit(h.aa) << 2) | (Bit(h.tc) << 1) | Bit(h.rd)
  }

  /** Byte 3 as the encoder builds it: RA << 7 | Z << 4 | RCODE. */
  function CodesByte(h: DnsHeader): bv8 {
    (Bit(h.ra) << 7) | (h.z << 4) | h.responseCode
  }

  /** The header on the wire: id, flags, codes, then the four counts, every u16 big-endian. */
  function HeaderBytes(h: DnsHeader): seq<bv8> {
    [HighByte(h.id), LowByte(h.id), FlagsByte(h), CodesByte(h),
     HighByte(h.questionsCount), LowByte(h.questionsCount),
     HighByte(h.answersCount), LowByte(h.answersCount),
     HighByte(h.authorityCount), LowByte(h.authorityCount),
     HighByte(h.additionalCount), LowByte(h.additionalCount)]
  }

  /** The `u16_to_double_u8` closure: ORs the two big-endian bytes of `value` into
      `bytes[i]` and `bytes[i + 1]`. */
  method U16ToDoubleU8(bytes: array<bv8>, i: nat, value: bv16)
    requires i + 1 < bytes.Length
    modifies bytes
    ensures bytes[i] == old(bytes[i]) | HighByte(value)
    ensures bytes[i + 1] == old(bytes[i + 1]) | LowByte(value)
    ensures old(bytes[i]) == 0 ==> bytes[i] == HighByte(value)
    ensures old(bytes[i + 1]) == 0 ==> bytes[i + 1] == LowByte(value)
    ensures forall k | 0 <= k < bytes.Length && k != i && k != i + 1 :: bytes[k] == old(bytes[k])
  {
    bytes[i] := bytes[i] | HighByte(value);
    bytes[i + 1] := bytes[i + 1] | LowByte(value);
  }

  /** Lines 23-24 of `serialize_header`: the id's two bytes stored into bytes 0 and 1. */
  method WriteId(bytes: array<bv8>, id: bv16)
    requires bytes.Length == 12
    modifies bytes
    ensures bytes[0] == HighByte(id) && bytes[1] == LowByte(id)
    ensures forall k | 2 <= k < 12 :: bytes[k] == old(bytes[k])
  {
    bytes[0] := HighByte(id);
    bytes[1] := LowByte(id);
  }

  /** Lines 25-29 of `serialize_header`: QR, Opcode, AA, TC and RD ORed into byte 2,
      each shifted to its place and none of them masked. */
  method OrFlagsByte(bytes: array<bv8>, h: DnsHeader)
    requires bytes.Length == 12
    modifies bytes
    ensures bytes[2] == old(bytes[2]) | FlagsByte(h)
    ensures old(bytes[2]) == 0 ==> bytes[2] == FlagsByte(h)
    ensures forall k | 0 <= k < 12 && k != 2 :: bytes[k] == old(bytes[k])
  {
    bytes[2] := bytes[2] | (Bit(h.query) << 7);
    bytes[2] := bytes[2] | (h.opCode << 3);
    bytes[2] := bytes[2] | (Bit(h.aa) << 2);
    bytes[2] := bytes[2] | (Bit(h.tc) << 1);
    bytes[2] := bytes[2] | Bit(h.rd);
  }

  /** Lines 31-33 of `serialize_header`: RA, Z and RCODE ORed into byte 3, unmasked. */
  method OrCodesByte(bytes: array<bv8>, h: DnsHeader)
    requires bytes.Length == 12
    modifies bytes
    ensures bytes[3] == old(bytes[3]) | CodesByte(h)
    ensures old(bytes[3]) == 0 ==> bytes[3] == CodesByte(h)
    ensures forall k | 0 <= k < 12 && k != 3 :: bytes[k] == old(bytes[k])
  {
    bytes[3] := bytes[3] | (Bit(h.ra) << 7);
    bytes[3] := bytes[3] | (h.z << 4);
    bytes[3] := bytes[3] | h.responseCode;
  }

  /** `serialize_header`: starts from twelve zero bytes and ORs each field in place. */
  method SerializeHeader(h: DnsHeader) returns (r: seq<bv8>)
    ensures r == HeaderBytes(h)
  {
    var bytes := new bv8[12](_ => 0);
    WriteId(bytes, h.id);
    OrFlagsByte(bytes, h);
    OrCodesByte(bytes, h);
    U16ToDoubleU8(bytes, 4, h.questionsCount);
    U16ToDoubleU8(bytes, 6, h.answersCount);
    U16ToDoubleU8(bytes, 8, h.authorityCount);
    U16ToDoubleU8(bytes, 10, h.additionalCount);
    r := [bytes[0], bytes[1], bytes[2], bytes[3], bytes[4], bytes[5],
          bytes[6], bytes[7], bytes[8], bytes[9], bytes[10], bytes[11]];
  }

  /** `deserialize_header`, as written: Opcode and Z are masked in place and never
      shifted back down. Rust panics on fewer than 12 bytes; callers rule that out. */
  function DeserializeHeader(bytes: seq<bv8>): (h: DnsHeader)
    requires |bytes| >= 12
    ensures h.id as int == bytes[0] as int * 256 + bytes[1] as int
    ensures h.query == (bytes[2] >> 7 == 1) && h.ra == (bytes[3] >> 7 == 1)
    ensures h.aa == ((bytes[2] >> 2) % 2 == 1) && h.tc == ((bytes[2] >> 1) % 2 == 1) && h.rd == (bytes[2] % 2 == 1)
    ensures h.opCode == ((bytes[2] >> 3) % 16) << 3 && h.opCode & 0x87 == 0
    ensures h.z == ((bytes[3] >> 4) % 8) << 4 && h.z & 0x8F == 0
    ensures h.responseCode == bytes[3] % 16 && h.responseCode < 16
    ensures h.questionsCount as int == bytes[4] as int * 256 + bytes[5] as int
    ensures h.answersCount as int == bytes[6] as int * 256 + bytes[7] as int
    ensures h.authorityCount as int == bytes[8] as int * 256 + bytes[9] as int
    ensures h.additionalCount as int == bytes[10] as int * 256 + bytes[11] as int
  {
    JoinIsBigEndian(bytes[0], bytes[1]);
    DnsHeader(
      id := (bytes[1] as bv16) | ((bytes[0] as bv16) << 8),
      query := bytes[2] & 0x80 != 0,
      opCode := bytes[2] & 0x78,
      aa := bytes[2] & 0x04 != 0,
      tc := bytes[2] & 0x02 != 0,
      rd := bytes[2] & 0x01 != 0,
      ra := bytes[3] & 0x80 != 0,
      z := bytes[3] & 0x70,
      responseCode := bytes[3] & 0x0F,
      questionsCount := DoubleU8ToU16(bytes, 4),
      answersCount := DoubleU8ToU16(bytes, 6),
      authorityCount := DoubleU8ToU16(bytes, 8),
      additionalCount := DoubleU8ToU16(bytes, 10))
  }

  /** Where every field lands, for any header: the id and the counts big-endian; AA, TC
      and RD alone in bits 2, 1, 0 of byte 2; QR in bit 7 unless an oversized Opcode
      spills into it; RCODE's low nibble in bits 3-0 of byte 3. */
  lemma HeaderBytesLayout(h: DnsHeader)
    ensures |HeaderBytes(h)| == 12
    ensures var r := HeaderBytes(h);
      && r[0] as int * 256 + r[1] as int == h.id as int
      && (r[2] & 0x80 != 0) == (h.query || h.opCode & 0x10 != 0)
      && (r[2] & 0x04 != 0) == h.aa
      && (r[2] & 0x02 != 0) == h.tc
      && (r[2] & 0x01 != 0) == h.rd
      && (r[3] & 0x80 != 0) == (h.ra || h.z & 0x08 != 0 || h.responseCode & 0x80 != 0)
      && r[3] & 0x0F == h.responseCode & 0x0F
      && r[4] as int * 256 + r[5] as int == h.questionsCount as int
      && r[6] as int * 256 + r[7] as int == h.answersCount as int
      && r[8] as int * 256 + r[9] as int == h.authorityCount as int
      && r[10] as int * 256 + r[11] as int == h.additionalCount as int
  {
    var r := HeaderBytes(h);
    assert DeserializeHeader(r).id == h.id by {
      DoubleU8ToU16InvertsSplit(r, 0, h.id);
    }
  }

  /** When the bit-fields fit their widths, each occupies exactly its own bits. */
  lemma InRangeFieldsOwnTheirBits(h: DnsHeader)
    requires FieldsInRange(h)
    ensures var r := HeaderBytes(h);
      && (r[2] >> 7 == 1) == h.query
      && (r[2] >> 3) & 0x0F == h.opCode
      && (r[3] >> 7 == 1) == h.ra
      && (r[3] >> 4) & 0x07 == h.z
      && r[3] & 0x0F == h.responseCode
  {
  }

  /** What decoding an encoded header gives back, for every header: the id, AA, TC, RD
      and the counts unchanged; Opcode and Z left shifted by 3 and 4; QR, RA, Z and RCODE
      polluted by whatever bits an oversized Opcode, Z or RCODE spilled. */
  lemma DecodeOfEncode(h: DnsHeader)
    ensures var d := DeserializeHeader(HeaderBytes(h));
      && d.id == h.id
      && d.query == (h.query || h.opCode & 0x10 != 0)
      && d.opCode == (h.opCode << 3) & 0x78
      && d.aa == h.aa && d.tc == h.tc && d.rd == h.rd
      && d.ra == (h.ra || h.z & 0x08 != 0 || h.responseCode & 0x80 != 0)
      && d.z == ((h.z << 4) | h.responseCode) & 0x70
      && d.responseCode == h.responseCode & 0x0F
      && d.questionsCount == h.questionsCount
      && d.answersCount == h.answersCount
      && d.authorityCount == h.authorityCount
      && d.additionalCount == h.additionalCount
  {
    var r := HeaderBytes(h);
    DoubleU8ToU16InvertsSplit(r, 0, h.id);
    DoubleU8ToU16InvertsSplit(r, 4, h.questionsCount);
    DoubleU8ToU16InvertsSplit(r, 6, h.answersCount);
    DoubleU8ToU16InvertsSplit(r, 8, h.authorityCount);
    DoubleU8ToU16InvertsSplit(r, 10, h.additionalCount);
  }

  /** The round trip the tests exercise: exact when Opcode and Z are 0 and RCODE fits. */
  lemma RoundTripWhenOpCodeAndZAreZero(h: DnsHeader)
    requires h.opCode == 0 && h.z == 0 && h.responseCode < 16
    ensures DeserializeHeader(HeaderBytes(h)) == h
  {
    DecodeOfEncode(h);
  }

  /** For in-range fields the round trip returns Opcode times 8 and Z times 16. */
  lemma RoundTripScalesOpCodeAndZ(h: DnsHeader)
    requires FieldsInRange(h)
    ensures DeserializeHeader(HeaderBytes(h)) == h.(opCode := h.opCode * 8, z := h.z * 16)
  {
    DecodeOfEncode(h);
  }

  /** The two headers of the source's test: the first encodes to the expected bytes, and
      both come back unchanged. */
  lemma SerializeDeserializeExamples()
    ensures var h := DnsHeader(1234, true, 0, false, false, false, false, 0, 0, 0, 0, 0, 0);
      && HeaderBytes(h) == [0x04, 0xd2, 0x80, 0, 0, 0, 0, 0, 0, 0, 0, 0]
      && DeserializeHeader(HeaderBytes(h)) == h
    ensures var h := DnsHeader(1334, true, 0, false, true, false, false, 0, 1, 2, 1, 1, 1);
      DeserializeHeader(HeaderBytes(h)) == h
  {
    RoundTripWhenOpCodeAndZAreZero(DnsHeader(1234, true, 0, false, false, false, false, 0, 0, 0, 0, 0, 0));
    RoundTripWhenOpCodeAndZAreZero(DnsHeader(1334, true, 0, false, true, false, false, 0, 1, 2, 1, 1, 1));
  }

  /** A standard-width Opcode of 1 comes back as 8: the decoder does not shift it back. */
  lemma OpCodeNotShiftedBack()
    ensures var h := DnsHeader(1, false, 1, false, false, false, false, 0, 0, 0, 0, 0, 0);
      DeserializeHeader(HeaderBytes(h)).opCode == 8 != h.opCode
  {
    DecodeOfEncode(DnsHeader(1, false, 1, false, false, false, false, 0, 0, 0, 0, 0, 0));
  }

  /** The decoder as evidently intended: Opcode and Z shifted back to their own widths. */
  function DeserializeHeaderShifted(bytes: seq<bv8>): (h: DnsHeader)
    requires |bytes| >= 12
    ensures FieldsInRange(h)
    ensures h.opCode << 3 == DeserializeHeader(bytes).opCode && h.z << 4 == DeserializeHeader(bytes).z
  {
    var d := DeserializeHeader(bytes);
    d.(opCode := (bytes[2] & 0x78) >> 3, z := (bytes[3] & 0x70) >> 4)
  }

  /** The corrected decoder inverts the encoder on every in-range header. */
  lemma ShiftedRoundTrip(h: DnsHeader)
    requires FieldsInRange(h)
    ensures DeserializeHeaderShifted(HeaderBytes(h)) == h
  {
    DecodeOfEncode(h);
  }

  /** ... and the encoder inverts the corrected decoder on every 12 bytes, so the two are
      a bijection between in-range headers and 12-byte strings. */
  lemma ShiftedDecodeThenEncode(bytes: seq<bv8>)
    requires |bytes| == 12
    ensures HeaderBytes(DeserializeHeaderShifted(bytes)) == bytes
  {
    var h := DeserializeHeaderShifted(bytes);
    FlagsAndCodesComeBack(bytes);
    U16FieldsComeBack(bytes);
    assert HeaderBytes(h) == [bytes[0], bytes[1], bytes[2], bytes[3], bytes[4], bytes[5],
                              bytes[6], bytes[7], bytes[8], bytes[9], bytes[10], bytes[11]];
  }

  lemma FlagsAndCodesComeBack(bytes: seq<bv8>)
    requires |bytes| == 12
    ensures FlagsByte(DeserializeHeaderShifted(bytes)) == bytes[2]
    ensures CodesByte(DeserializeHeaderShifted(bytes)) == bytes[3]
  {
  }

  lemma U16FieldsComeBack(bytes: seq<bv8>)
    requires |bytes| == 12
    ensures var h := DeserializeHeaderShifted(bytes);
      && HighByte(h.id) == bytes[0] && LowByte(h.id) == bytes[1]
      && HighByte(h.questionsCount) == bytes[4] && LowByte(h.questionsCount) == bytes[5]
      && HighByte(h.answersCount) == bytes[6] && LowByte(h.answersCount) == bytes[7]
      && HighByte(h.authorityCount) == bytes[8] && LowByte(h.authorityCount) == bytes[9]
      && HighByte(h.additionalCount) == bytes[10] && LowByte(h.additionalCount) == bytes[11]
  {
    DoubleU8ToU16Bytes(bytes, 4);
    DoubleU8ToU16Bytes(bytes, 6);
    DoubleU8ToU16Bytes(bytes, 8);
    DoubleU8ToU16Bytes(bytes, 10);
  }
}
