/** The earlier header serializer of src/main.rs: the same bit layout as
    src/dns_header.rs, with a signed 16-bit transaction id. */
module ServerMain {
  import opened ByteUtils
  import opened DnsHeaderCodec

  /** Rust's `i16`, held as its 16-bit two's complement pattern; `Signed` gives the number. */
  type I16Bits = bv16

  /** The number an `i16` bit pattern stands for. */
  function Signed(x: I16Bits): int {
    if x < 0x8000 then x as int else x as int - 0x10000
  }

  /** `DsnMsg`: the header fields, with the id signed. */
  datatype DsnMsg = DsnMsg(
    id: I16Bits,
    query: bool,
    opCode: bv8,
    aa: bool,
    tc: bool,
    rd: bool,
    ra: bool,
    z: bv8,
    responseCode: bv8,
    questionsCount: bv16,
    answersCount: bv16,
    authorityCount: bv16,
    additionalCount: bv16)

  /** `x >> 8` on an `i16`: an arithmetic shift, which copies the sign bit into the
      eight vacated high bits. */
  function ArithmeticShiftRight8(x: I16Bits): (r: I16Bits)
    ensures Signed(r) == Signed(x) / 256
  {
    ShiftIsDivision(x);
    SignExtensionValue(x >> 8);
    if x & 0x8000 != 0 then (x >> 8) | 0xFF00 else x >> 8
  }

  /** Setting the eight high bits of a value below 256 adds 0xFF00 to it. */
  lemma SignExtensionValue(y: bv16)
    requires y < 0x100
    ensures (y | 0xFF00) as int == y as int + 0xFF00
  {
    assert y | 0xFF00 == y + 0xFF00;
  }

  /** `x as u8` on an `i16`: keeps the low 8 bits of the two's complement pattern. */
  function TruncateToU8(x: I16Bits): (r: bv8)
    ensures r as int == Signed(x) % 256
  {
    SplitBytesValues(x);
    SignedRemainder(x);
    LowByte(x)
  }

  /** Reading the pattern as signed does not change its remainder by 256. */
  lemma SignedRemainder(x: I16Bits)
    ensures Signed(x) % 256 == x as int % 256
  {
    var n := x as int;
    if x >= 0x8000 {
      assert n - 0x10000 == (n / 256 - 256) * 256 + n % 256;
    }
  }

  /** The same field values seen as a `DnsHeader`: the id's bits read as unsigned. */
  function AsHeader(msg: DsnMsg): DnsHeader {
    DnsHeader(msg.id, msg.query, msg.opCode, msg.aa, msg.tc, msg.rd,
              msg.ra, msg.z, msg.responseCode, msg.questionsCount, msg.answersCount,
              msg.authorityCount, msg.additionalCount)
  }

  /** The signed id's two bytes are those of its 16-bit pattern, high byte first: the
      bits the arithmetic shift copies in are cut off by the truncation. */
  lemma SignedIdBytes(id: I16Bits)
    ensures TruncateToU8(ArithmeticShiftRight8(id)) == HighByte(id)
    ensures TruncateToU8(id) == LowByte(id)
  {
  }

  /** Lines 26-27 of `serialize`: the signed id's two bytes stored into bytes 0 and 1. */
  method WriteSignedId(bytes: array<bv8>, id: I16Bits)
    requires bytes.Length == 12
    modifies bytes
    ensures bytes[0] == HighByte(id) && bytes[1] == LowByte(id)
    ensures forall k | 2 <= k < 12 :: bytes[k] == old(bytes[k])
  {
    bytes[0] := TruncateToU8(ArithmeticShiftRight8(id));
    bytes[1] := TruncateToU8(id);
    SignedIdBytes(id);
  }

  /** `serialize`: the same steps as `serialize_header`, the id's two bytes taken from the
      signed value; its bytes are those of `serialize_header` on the reinterpreted header. */
  method Serialize(msg: DsnMsg) returns (r: seq<bv8>)
    ensures r == HeaderBytes(AsHeader(msg))
  {
    var h := AsHeader(msg);
    var bytes := new bv8[12](_ => 0);
    WriteSignedId(bytes, msg.id);
    OrFlagsByte(bytes, h);
    OrCodesByte(bytes, h);
    U16ToDoubleU8(bytes, 4, msg.questionsCount);
    U16ToDoubleU8(bytes, 6, msg.answersCount);
    U16ToDoubleU8(bytes, 8, msg.authorityCount);
    U16ToDoubleU8(bytes, 10, msg.additionalCount);
    r := [bytes[0], bytes[1], bytes[2], bytes[3], bytes[4], bytes[5],
          bytes[6], bytes[7], bytes[8], bytes[9], bytes[10], bytes[11]];
  }

  /** Bytes 0-1, read back as a big-endian number, are the id modulo 2^16: the id itself
      when it is non-negative, the id plus 65536 when it is negative. */
  lemma IdBytesAreTwosComplement(msg: DsnMsg)
    ensures var r := HeaderBytes(AsHeader(msg));
      r[0] as int * 256 + r[1] as int == if Signed(msg.id) < 0 then Signed(msg.id) + 0x10000 else Signed(msg.id)
  {
    HeaderBytesLayout(AsHeader(msg));
  }

  /** For a non-negative id, `serialize` and `serialize_header` produce the same 12 bytes
      from the same field values. */
  lemma AgreesWithSerializeHeader(msg: DsnMsg, h: DnsHeader)
    requires Signed(msg.id) >= 0 && h.id as int == Signed(msg.id)
    requires h.query == msg.query && h.opCode == msg.opCode && h.aa == msg.aa
    requires h.tc == msg.tc && h.rd == msg.rd && h.ra == msg.ra && h.z == msg.z
    requires h.responseCode == msg.responseCode
    requires h.questionsCount == msg.questionsCount && h.answersCount == msg.answersCount
    requires h.authorityCount == msg.authorityCount && h.additionalCount == msg.additionalCount
    ensures HeaderBytes(AsHeader(msg)) == HeaderBytes(h)
  {
    U16EqualFromInt(msg.id, h.id);
    assert AsHeader(msg) == h;
  }

  /** Bytes 4-11 depend only on the four counts. */
  lemma CountBytesDependOnlyOnCounts(m1: DsnMsg, m2: DsnMsg)
    requires m1.questionsCount == m2.questionsCount && m1.answersCount == m2.answersCount
    requires m1.authorityCount == m2.authorityCount && m1.additionalCount == m2.additionalCount
    ensures HeaderBytes(AsHeader(m1))[4..] == HeaderBytes(AsHeader(m2))[4..]
  {
  }

  /** Bytes 2-3 depend only on the flag and code fields. */
  lemma FlagBytesDependOnlyOnFlags(m1: DsnMsg, m2: DsnMsg)
    requires m1.query == m2.query && m1.opCode == m2.opCode && m1.aa == m2.aa
    requires m1.tc == m2.tc && m1.rd == m2.rd
    requires m1.ra == m2.ra && m1.z == m2.z && m1.responseCode == m2.responseCode
    ensures HeaderBytes(AsHeader(m1))[2] == HeaderBytes(AsHeader(m2))[2]
    ensures HeaderBytes(AsHeader(m1))[3] == HeaderBytes(AsHeader(m2))[3]
  {
  }

  /** The header of the source's test serializes to the expected bytes. */
  lemma SerializeExample()
    ensures HeaderBytes(AsHeader(DsnMsg(1234, true, 0, false, false, false, false, 0, 0, 0, 0, 0, 0)))
      == [0x04, 0xd2, 0x80, 0, 0, 0, 0, 0, 0, 0, 0, 0]
  {
  }

  /** The id -1 (all sixteen bits set) goes out as two 0xFF bytes. */
  lemma SerializeNegativeIdExample()
    ensures Signed(0xFFFF) == -1
    ensures HeaderBytes(AsHeader(DsnMsg(0xFFFF, false, 0, false, false, false, false, 0, 0, 0, 0, 0, 0)))[..2]
      == [0xFF, 0xFF]
  {
  }
}
