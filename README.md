# DNS wire-format codec, modelled in Dafny

This project models the byte-level codec of a small Rust DNS server
(Build-Your-Own-DNS-server-Challenge). It covers four pieces:

- the 12-byte message header of section 4.1.1 of RFC 1035, as `serialize_header` packs it and
  `deserialize_header` unpacks it (`src/dns_header.rs`);
- the older header serializer `serialize` of `src/main.rs`, which takes a signed 16-bit id;
- the question-name decoder `deserialize_record` / `deserialize_label` (`src/dns_record.rs`).
  It walks the length-prefixed labels of a QNAME (section 3.1 and section 4.1.2 of RFC 1035),
  joins them with dots, and then slices the 2-byte type and the 2-byte class;
- the big-endian helper `double_u8_to_u16` (`src/utils.rs`).

Modules:

- `ByteUtils` (`utils.dfy`) holds the big-endian helper and the bridges between bit-vector and
  integer arithmetic.
- `DnsHeaderCodec` (`dns_header.dfy`) holds the header codec.
- `ServerMain` (`main.dfy`) holds `serialize`.
- `DnsRecordCodec` (`dns_record.dfy`) holds the name decoder.

How Rust values are represented:

- In the header, `u8` is `bv8` and `u16` is `bv16`, so shifts, masks and ORs are the source's own.
  Nothing masks an oversized field: as in Rust, an Opcode with bit 4 set also sets the QR bit, and
  its bits 5-7 are shifted out of the byte (`HeaderBytesLayout`).
- The `i16` id of `src/main.rs` is held as its 16-bit two's complement pattern. `Signed` gives the
  number it stands for.
- The serializers are methods over a local 12-byte array that starts at zero and is ORed into step
  by step, as in the source. Each one is proved to produce `HeaderBytes`, the wire layout written as
  a function.
- The name decoder only compares bytes and uses them as lengths, so its bytes are the integer
  newtype `Byte` (0..255).
- `deserialize_record` is a method with the source's `while begin != end` loop. It is proved equal
  to `DecodeQuestion`, a function built on `ParseLabels`, a recursive reader of the wire name.
- A Rust panic (an index or slice out of range) is `None`.

RFC 1035 defines compression pointers (section 4.1.4) and limits labels to 63 bytes (section 2.3.4);
the code implements neither, and the model follows the code: a length byte of 64 or more, a
pointer-like 0xC0 included, is read as a plain length.

## Model

| member | source | states |
|---|---|---|
| `ByteUtils.DoubleU8ToU16` | src/utils.rs:1-3 | the result is `bytes[i] * 256 + bytes[i+1]`, a big-endian read; the caller must keep `i + 1` in range |
| `ByteUtils.DoubleU8ToU16Bytes` | src/utils.rs:2 | the result's high byte is `bytes[i]` and its low byte `bytes[i+1]` |
| `ByteUtils.DoubleU8ToU16Local` | src/utils.rs:2 | only `bytes[i]` and `bytes[i+1]` influence the result |
| `ByteUtils.DoubleU8ToU16InvertsSplit` | src/utils.rs:1-3 | reading back the split `(v >> 8, v as u8)` that the serializers write gives `v` |
| `ByteUtils.SplitBytesValues` | src/dns_header.rs:23-24 | as numbers, `(v >> 8) as u8` and `v as u8` are the quotient and the remainder of `v` by 256 |
| `DnsHeaderCodec.U16ToDoubleU8` | src/dns_header.rs:35-38 | the closure ORs the high byte of `value` into `bytes[i]` and the low byte into `bytes[i+1]`, and changes no other byte |
| `DnsHeaderCodec.WriteId` | src/dns_header.rs:23-24 | bytes 0 and 1 receive the id's high and low byte; no other byte changes |
| `DnsHeaderCodec.OrFlagsByte` | src/dns_header.rs:25-29 | byte 2 is ORed with QR<<7, Opcode<<3, AA<<2, TC<<1 and RD, unmasked; no other byte changes |
| `DnsHeaderCodec.OrCodesByte` | src/dns_header.rs:31-33 | byte 3 is ORed with RA<<7, Z<<4 and RCODE, unmasked; no other byte changes |
| `DnsHeaderCodec.SerializeHeader` | src/dns_header.rs:20-46 | starting from twelve zero bytes, the in-place ORs produce exactly the 12-byte wire header `HeaderBytes(h)` |
| `DnsHeaderCodec.DeserializeHeader` | src/dns_header.rs:48-81 | id and counts are big-endian reads; QR and RA are bit 7, AA/TC/RD bits 2/1/0; Opcode is bits 6-3 left in place (its low 3 bits and bit 7 clear); Z is bits 6-4 left in place; RCODE is bits 3-0 and below 16 |
| `DnsHeaderCodec.HeaderBytesLayout` | src/dns_header.rs:20-46 | for every header: 12 bytes, id and counts big-endian, AA/TC/RD alone in bits 2/1/0 of byte 2, QR in bit 7 unless Opcode bit 4 also sets it (Opcode bits 5-7 are shifted out), RCODE's low nibble in byte 3 |
| `DnsHeaderCodec.InRangeFieldsOwnTheirBits` | src/dns_header.rs:25-33 | when Opcode, Z and RCODE fit 4, 3 and 4 bits, each field can be read back from its own bits |
| `DnsHeaderCodec.DecodeOfEncode` | src/dns_header.rs:20-81 | decoding an encoded header, for every header: id, AA, TC, RD and counts come back unchanged; Opcode and Z come back shifted left and masked; QR, RA, Z and RCODE carry whatever oversized fields spilled |
| `DnsHeaderCodec.RoundTripWhenOpCodeAndZAreZero` | src/dns_header.rs:83-132 | with Opcode 0, Z 0 and RCODE below 16, decoding the encoded header gives the header back |
| `DnsHeaderCodec.RoundTripScalesOpCodeAndZ` | src/dns_header.rs:51-56 | with in-range fields, the round trip returns Opcode times 8 and Z times 16, everything else unchanged |
| `DnsHeaderCodec.SerializeDeserializeExamples` | src/dns_header.rs:83-132 | the test headers: id 1234 with QR set encodes to `04 d2 80 00 ...`, and both test headers survive the round trip |
| `DnsHeaderCodec.OpCodeNotShiftedBack` | src/dns_header.rs:51 | a header with Opcode 1 decodes with Opcode 8 |
| `DnsHeaderCodec.DeserializeHeaderShifted` | src/dns_header.rs:48-81 | the corrected decoder yields in-range fields whose Opcode and Z, shifted back up, are the source decoder's |
| `DnsHeaderCodec.ShiftedRoundTrip` | src/dns_header.rs:20-81 | the corrected decoder inverts the encoder on every in-range header |
| `DnsHeaderCodec.ShiftedDecodeThenEncode` | src/dns_header.rs:20-81 | the encoder inverts the corrected decoder on every 12-byte string |
| `ServerMain.ArithmeticShiftRight8` | src/main.rs:26 | `id >> 8` on an `i16` is floor division by 256 of the signed value |
| `ServerMain.TruncateToU8` | src/main.rs:27 | `id as u8` is the signed value modulo 256 |
| `ServerMain.SignedIdBytes` | src/main.rs:26-27 | the truncated arithmetic shift and the truncation are the high and low byte of the id's 16-bit pattern |
| `ServerMain.WriteSignedId` | src/main.rs:26-27 | bytes 0 and 1 receive the high and low byte of the id's 16-bit pattern; no other byte changes |
| `ServerMain.Serialize` | src/main.rs:23-52 | the in-place ORs produce `HeaderBytes` of the same fields, the id read as an unsigned 16-bit pattern |
| `ServerMain.IdBytesAreTwosComplement` | src/main.rs:26-27 | bytes 0-1, read big-endian, are the id when it is non-negative and the id plus 65536 when it is negative |
| `ServerMain.AgreesWithSerializeHeader` | src/main.rs:23-52 | for a non-negative id, `serialize` and `serialize_header` produce the same 12 bytes from the same field values |
| `ServerMain.CountBytesDependOnlyOnCounts` | src/main.rs:39-49 | bytes 4-11 depend only on the four counts |
| `ServerMain.FlagBytesDependOnlyOnFlags` | src/main.rs:28-36 | bytes 2 and 3 depend only on the flag and code fields |
| `ServerMain.SerializeExample` | src/main.rs:94-116 | the test message serializes to `04 d2 80 00 00 00 00 00 00 00 00 00` |
| `ServerMain.SerializeNegativeIdExample` | src/main.rs:26-27 | the id -1 is sent as `ff ff` |
| `DnsRecordCodec.DeserializeLabel` | src/dns_record.rs:69-76 | `deserialize_label` succeeds exactly where Rust neither slices nor indexes out of range (`begin <= end < len`); it yields the bytes `begin..end` and moves the bounds past them to the label whose length byte is at `end` |
| `DnsRecordCodec.DeserializeLabelReadsNextLabel` | src/dns_record.rs:69-76 | called on the bounds of a nonzero length byte at `p` where the label reader succeeds, `deserialize_label` returns exactly the next wire label the reader yields, and leaves `begin - 1` on the length byte where the reader resumes with the remaining labels |
| `DnsRecordCodec.ParseLabels` | src/dns_record.rs:49-53 | reading labels from a length byte stops strictly after it and inside the buffer |
| `DnsRecordCodec.DeserializeRecord` | src/dns_record.rs:46-67 | the label loop, which ends when a zero length byte makes `begin == end`, followed by the two 2-byte slices, returns exactly `DecodeQuestion(bytes)`, and `None` wherever Rust would panic |
| `DnsRecordCodec.FinishStep` | src/dns_record.rs:49-53 | one loop iteration: a nonzero length byte moves the decode past that label and appends `.` plus the label to the name, or fails when the next length byte is out of range |
| `DnsRecordCodec.ParseEncodedName` | src/dns_record.rs:49-53 | an encoded name is read back as its labels, and reading stops just past its zero byte, whatever follows |
| `DnsRecordCodec.ParsedNameIsEncoded` | src/dns_record.rs:49-53 | whatever the label reader accepts is an encoded name of labels of length 1 to 255 ending in a zero byte |
| `DnsRecordCodec.FixedRoundTrip` | src/dns_record.rs:46-67 | the corrected decoder decodes every encoded name followed by 4 or more bytes, the root name included, to its labels joined by dots |
| `DnsRecordCodec.FixedAgreesOffRoot` | src/dns_record.rs:47-53 | when the first length byte is not zero, the source's decoder gives the same result as the corrected one |
| `DnsRecordCodec.DecodeEncodedQuestion` | src/dns_record.rs:46-67 | a nonempty encoded name followed by at least the 4 type and class bytes decodes to its labels joined by single dots, with no leading or trailing dot |
| `DnsRecordCodec.DecodedQuestionIsEncoded` | src/dns_record.rs:46-67 | conversely, when the first length byte is not zero, a successful decode means that the input starts with a nonempty encoded name followed by at least 4 bytes, and that the decoded name is its labels joined by dots |
| `DnsRecordCodec.DecodedRecordIsAlwaysAIn` | src/dns_record.rs:55-66 | a decoded record is always A / IN / ttl 0 / no data, and the input held the first label's full length (even a pointer-like byte of 0xC0 or more), a zero and 4 more bytes |
| `DnsRecordCodec.ZeroFirstLengthGivesLeadingDot` | src/dns_record.rs:47 | a zero first length byte is not taken as the end of the name: `00 03 "com" 00 ...` decodes to ".com" |
| `DnsRecordCodec.CodecraftersExample` | src/dns_record.rs:78-87 | the test bytes decode to the name "codecrafters.io" |
| `DnsRecordCodec.RootQuestionWithExtraByte` | src/dns_record.rs:47-57 | with one more trailing byte, `00 00 01 00 01 07` decodes to the empty name only by accident: byte 1 is read as a second length and type and class are read one byte late |
| `DnsRecordCodec.RootQuestionRejected` | src/dns_record.rs:47-57 | the root question `00 00 01 00 01` fails: byte 1 is read as a second length, and the class slice runs past the end |
| `DnsRecordCodec.FixedAcceptsRoot` | src/dns_record.rs:47 | the corrected decoder reads the root question as the empty name |

## Left out

- `main()` (src/main.rs:54-92): the UDP socket, the receive/send loop and the 512-byte buffer are I/O.
- Logging with `println!` and `eprintln!`: it has no effect on any result.
- `String::from_utf8_lossy`: names and labels are byte sequences joined with byte 46 (`.`). No UTF-8
  decoding or replacement characters are modelled.
- The decoder's type and class slices are bounds-checked only. The source reads them and discards
  them; no code maps wire codes to `DnsType` or `DnsClass`, so none is invented.
- The `double_u8_to_u16` closure inside `deserialize_header` (src/dns_header.rs:59) is the same
  expression as `src/utils.rs`, so both are modelled by `ByteUtils.DoubleU8ToU16`.
- `usize` overflow in `end + 1 + bytes[end]` is not modelled: the cursor is an unbounded `nat`, and
  the sums cannot come near `usize::MAX` for any buffer that fits in memory.
- `DeserializeHeader` requires at least 12 bytes and `DoubleU8ToU16` requires `i + 1 < len`. Rust
  panics otherwise, and these callers never pass shorter input.
- `Serialize` and `SerializeHeader` return the array's twelve bytes as a sequence rather than the
  `[u8; 12]` value itself.

## Findings

| source | as written | input that shows it | evidently intended | confidence | as-written member | corrected member |
|---|---|---|---|---|---|---|
| src/dns_header.rs:51 | `op_code` is `msg_bytes[2] & 0b01111000`, and `z` (line 56) is `msg_bytes[3] & 0b01110000`; neither is shifted back, though `serialize_header` shifts them up by 3 and 4; for every in-range header the round trip returns Opcode times 8 and Z times 16 (`DnsHeaderCodec.RoundTripScalesOpCodeAndZ`) | a header with `op_code` 1: byte 2 is `0x08`, decoded `op_code` is 8 | shift the masked bits back down, so that decoding inverts encoding for every in-range header | not executed; high | `DnsHeaderCodec.OpCodeNotShiftedBack` | `DnsHeaderCodec.ShiftedRoundTrip` |
| src/dns_record.rs:47 | the first length byte is never tested for zero: the loop starts from the length byte that follows the first label, so the root name is not recognised; with one more trailing byte the empty name comes out only by accident, type and class read one byte late (`DnsRecordCodec.RootQuestionWithExtraByte`) | the root question `00 00 01 00 01`: byte 1 is read as a second length, and the class slice `bytes[4..6]` runs past the end (panic) | a zero first length byte ends the name, giving the empty name; the corrected decoder inverts the encoder for every name, the root included | not executed; high | `DnsRecordCodec.RootQuestionRejected` | `DnsRecordCodec.FixedRoundTrip` |
