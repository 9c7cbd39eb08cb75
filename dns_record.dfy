/** The question-name decoder of src/dns_record.rs: a QNAME (section 3.1 and section
    4.1.2 of RFC 1035) read as length-prefixed labels up to a zero length byte, followed
    by the 2-byte QTYPE and the 2-byte QCLASS. Names are byte strings; a Rust panic is
    `None`. */
module DnsRecordCodec {

  datatype Option<T> = None | Some(value: T)

  /** Rust's `u8`. The decoder only compares bytes and uses them as lengths, so a byte is
      held as a number here. */
  newtype Byte = x: int | 0 <= x < 256

  /** `DnsType`: declared by the source; the decoder always answers `A`. */
  datatype DnsType = A | NS | MD | MF | Cname | Soa | MB | MG | MR | Null | Wks | Ptr
                   | Hinfo | Minfo | MX | Axfr | Mailb | Maila | AllRecords

  /** `DnsClass`: declared by the source; the decoder always answers `IN`. */
  datatype DnsClass = IN | CS | CH | HS | AnyClass

  /** Rust's `i32`. */
  newtype Int32 = x: int | -0x8000_0000 <= x < 0x8000_0000

  /** `DnsRecord`; `name` and `rdData` are the bytes the source turns into `String`s. */
  datatype DnsRecord = DnsRecord(
    name: seq<Byte>,
    dnsType: DnsType,
    dnsClass: DnsClass,
    timeToLive: Int32,
    rdLength: bv16,
    rdData: seq<Byte>)

  type Label = seq<Byte>

  /** The byte `.` that separates labels in the decoded name. */
  const Dot: Byte := 46

  /** A label as it can appear on the wire: its length fits the length byte and is not
      the zero that ends the name. */
  predicate ValidLabel(l: Label) {
    0 < |l| < 256
  }

  predicate ValidLabels(ls: seq<Label>) {
    forall i | 0 <= i < |ls| :: ValidLabel(ls[i])
  }

  /** A name on the wire: each label preceded by its length byte, then a zero byte. */
  function EncodeName(ls: seq<Label>): (r: seq<Byte>)
    requires ValidLabels(ls)
    ensures |r| > 0 && r[|r| - 1] == 0
    ensures ls != [] ==> r[0] as int == |ls[0]| && r[0] != 0
  {
    if ls == [] then [0]
    else [|ls[0]| as Byte] + ls[0] + EncodeName(ls[1..])
  }

  /** Every label prefixed with a dot, all concatenated. */
  function Dotted(ls: seq<Label>): seq<Byte> {
    if ls == [] then [] else [Dot] + ls[0] + Dotted(ls[1..])
  }

  /** The labels joined by single dots, with no leading or trailing dot. */
  function Join(ls: seq<Label>): seq<Byte> {
    if ls == [] then [] else ls[0] + Dotted(ls[1..])
  }

  /** The record every successful decode yields: only the name comes from the wire. */
  function QuestionRecord(name: seq<Byte>): DnsRecord {
    DnsRecord(name, A, IN, 0, 0, [])
  }

  /** `deserialize_label`: the label `bytes[begin..end]`, and the bounds of the next one,
      whose length is the byte at `end`. Rust panics (`None`) unless
      `begin <= end < |bytes|`. */
  function DeserializeLabel(bytes: seq<Byte>, begin: nat, end: nat): (r: Option<(nat, nat, Label)>)
    ensures r.Some? <==> begin <= end < |bytes|
    ensures r.Some? ==> r.value.2 == bytes[begin..end] && r.value.0 == end + 1
    ensures r.Some? ==> r.value.1 == r.value.0 + bytes[end] as int
  {
    if begin <= end < |bytes| then
      Some((end + 1, end + 1 + bytes[end] as nat, bytes[begin..end]))
    else
      None
  }

  /** Reading a wire name whose length byte is at `pos`: the labels, and the index just
      past the terminating zero. `None` where the source would index out of range. */
  function ParseLabels(bytes: seq<Byte>, pos: nat): (r: Option<(seq<Label>, nat)>)
    decreases |bytes| - pos
    ensures r.Some? ==> pos < r.value.1 <= |bytes|
  {
    if pos >= |bytes| then None
    else if bytes[pos] == 0 then Some(([], pos + 1))
    else
      var e := pos + 1 + bytes[pos] as nat;
      if e >= |bytes| then None
      else
        match ParseLabels(bytes, e)
        case None => None
        case Some((ls, next)) =>
          Some(([bytes[pos + 1..e]] + ls, next))
  }

  /** The rest of the decode once the length byte at `p` is reached with `name` read so
      far: every further label is appended after a dot, and the 2-byte type and the 2-byte
      class must follow the terminating zero. */
  function Finish(bytes: seq<Byte>, name: seq<Byte>, p: nat): Option<DnsRecord> {
    match ParseLabels(bytes, p)
    case None => None
    case Some((ls, next)) =>
      if next + 4 <= |bytes| then Some(QuestionRecord(name + Dotted(ls))) else None
  }

  /** One call of `deserialize_label` on the bounds of a nonzero length byte at `p` reads
      exactly the next label of the wire name, and the length byte it leaves behind, at the
      new `begin - 1`, is where the reader resumes with the remaining labels. */
  lemma DeserializeLabelReadsNextLabel(bytes: seq<Byte>, p: nat)
    requires p < |bytes| && bytes[p] != 0 && ParseLabels(bytes, p).Some?
    ensures var e := p + 1 + bytes[p] as nat;
      var (ls, next) := ParseLabels(bytes, p).value;
      && e < |bytes| && ls != []
      && var step: (nat, nat, Label) := (e + 1, e + 1 + bytes[e] as nat, ls[0]);
      && DeserializeLabel(bytes, p + 1, e) == Some(step)
      && ParseLabels(bytes, e) == Some((ls[1..], next))
  {
    var e := p + 1 + bytes[p] as nat;
    var (rest, next) := ParseLabels(bytes, e).value;
    var l := bytes[p + 1..e];
    assert ParseLabels(bytes, p) == Some(([l] + rest, next));
    assert ([l] + rest)[0] == l && ([l] + rest)[1..] == rest;
  }

  /** What `deserialize_record` computes: the first label's length is read from byte 0,
      whatever its value, and the loop continues from the byte after that label. */
  function DecodeQuestion(bytes: seq<Byte>): Option<DnsRecord> {
    if |bytes| == 0 then None
    else
      var end0 := 1 + bytes[0] as nat;
      if end0 >= |bytes| then None
      else Finish(bytes, bytes[1..end0], end0)
  }

  /** `deserialize_record`: reads the first label, loops over `deserialize_label` until a
      zero length byte makes `begin == end`, then slices the type and the class. */
  method DeserializeRecord(bytes: seq<Byte>) returns (r: Option<DnsRecord>)
    ensures r == DecodeQuestion(bytes)
  {
    if |bytes| == 0 {
      return None;
    }
    var first := DeserializeLabel(bytes, 1, bytes[0] as nat + 1);
    if first.None? {
      return None;
    }
    var begin, end, name := first.value.0, first.value.1, first.value.2;
    ghost var p: nat := bytes[0] as nat + 1;
    while begin != end
      invariant p < |bytes| && begin == p + 1 && end == begin + bytes[p] as nat
      invariant DecodeQuestion(bytes) == Finish(bytes, name, p)
      decreases |bytes| - begin
    {
      var step := DeserializeLabel(bytes, begin, end);
      if step.None? {
        return None;
      }
      var part;
      FinishStep(bytes, name, p);
      begin, end, part := step.value.0, step.value.1, step.value.2;
      name := name + [Dot] + part;
      p := begin - 1;
    }
    assert ParseLabels(bytes, p) == Some(([], end));
    assert name + Dotted([]) == name;
    if |bytes| < end + 2 {
      return None;
    }
    end := end + 2;
    if |bytes| < end + 2 {
      return None;
    }
    r := Some(QuestionRecord(name));
  }

  /** One loop step: a nonzero length byte at `p` followed by a readable next length byte
      moves the decode on by that label, appended after a dot. */
  lemma FinishStep(bytes: seq<Byte>, name: seq<Byte>, p: nat)
    requires p < |bytes| && bytes[p] != 0
    ensures var e := p + 1 + bytes[p] as nat;
      e < |bytes| ==> Finish(bytes, name, p) == Finish(bytes, name + [Dot] + bytes[p + 1..e], e)
    ensures p + 1 + bytes[p] as nat >= |bytes| ==> Finish(bytes, name, p) == None
  {
    var e := p + 1 + bytes[p] as nat;
    if e < |bytes| {
      var l := bytes[p + 1..e];
      match ParseLabels(bytes, e)
      case None =>
        assert ParseLabels(bytes, p) == None;
      case Some((ls, next)) =>
        assert ParseLabels(bytes, p) == Some(([l] + ls, next));
        assert ([l] + ls)[0] == l && ([l] + ls)[1..] == ls;
        assert name + Dotted([l] + ls) == name + [Dot] + l + Dotted(ls);
    }
  }

  /** Reading an encoded name gives back its labels and stops right after its zero byte;
      what follows the name does not matter. */
  lemma {:induction false} ParseEncodedName(bytes: seq<Byte>, pos: nat, ls: seq<Label>)
    requires ValidLabels(ls)
    requires pos + |EncodeName(ls)| <= |bytes|
    requires bytes[pos..pos + |EncodeName(ls)|] == EncodeName(ls)
    ensures ParseLabels(bytes, pos) == Some((ls, pos + |EncodeName(ls)|))
    decreases |ls|
  {
    var enc := EncodeName(ls);
    assert bytes[pos] == enc[0];
    if ls != [] {
      var l := ls[0];
      var e := pos + 1 + |l|;
      var rest := EncodeName(ls[1..]);
      assert enc == [|l| as Byte] + l + rest;
      SplitEncodedLabel(bytes, pos, l, rest);
      assert ValidLabels(ls[1..]) by {
        forall i | 0 <= i < |ls[1..]|
          ensures ValidLabel(ls[1..][i])
        {
          assert ls[1..][i] == ls[i + 1];
        }
      }
      ParseEncodedName(bytes, e, ls[1..]);
      assert [l] + ls[1..] == ls;
    }
  }

  /** Conversely, whatever the reader accepts is an encoded name of valid labels. */
  lemma {:induction false} ParsedNameIsEncoded(bytes: seq<Byte>, pos: nat)
    requires ParseLabels(bytes, pos).Some?
    ensures var (ls, next) := ParseLabels(bytes, pos).value;
      ValidLabels(ls) && bytes[pos..next] == EncodeName(ls)
    decreases |bytes| - pos
  {
    if bytes[pos] != 0 {
      var e := pos + 1 + bytes[pos] as nat;
      var (ls, next) := ParseLabels(bytes, e).value;
      ParsedNameIsEncoded(bytes, e);
      var l := bytes[pos + 1..e];
      assert ([l] + ls)[0] == l && ([l] + ls)[1..] == ls;
      assert ValidLabels([l] + ls) by {
        forall i | 0 <= i < |[l] + ls|
          ensures ValidLabel(([l] + ls)[i])
        {
          if i > 0 {
            assert ([l] + ls)[i] == ls[i - 1];
          }
        }
      }
      assert bytes[pos..next] == [bytes[pos]] + l + bytes[e..next];
    }
  }

  /** The pieces of a length byte, a label and what follows, found inside `bytes`. */
  lemma SplitEncodedLabel(bytes: seq<Byte>, pos: nat, l: Label, rest: seq<Byte>)
    requires 0 < |l| < 256
    requires pos + 1 + |l| + |rest| <= |bytes|
    requires bytes[pos..pos + 1 + |l| + |rest|] == [|l| as Byte] + l + rest
    ensures bytes[pos + 1..pos + 1 + |l|] == l
    ensures bytes[pos + 1 + |l|..pos + 1 + |l| + |rest|] == rest
  {
    var whole := bytes[pos..pos + 1 + |l| + |rest|];
    forall i | 0 <= i < |l|
      ensures bytes[pos + 1 + i] == l[i]
    {
      assert bytes[pos + 1 + i] == whole[1 + i];
    }
    forall i | 0 <= i < |rest|
      ensures bytes[pos + 1 + |l| + i] == rest[i]
    {
      assert bytes[pos + 1 + |l| + i] == whole[1 + |l| + i];
    }
  }

  /** The decoder as evidently intended: the first length byte is read like every other,
      so the root name decodes to the empty name. */
  function DecodeQuestionFixed(bytes: seq<Byte>): Option<DnsRecord> {
    match ParseLabels(bytes, 0)
    case None => None
    case Some((ls, next)) => if next + 4 <= |bytes| then Some(QuestionRecord(Join(ls))) else None
  }

  /** The corrected decoder inverts the encoder for every list of labels, the empty
      (root) name included, whatever follows the 4 type and class bytes. */
  lemma FixedRoundTrip(ls: seq<Label>, tail: seq<Byte>)
    requires ValidLabels(ls) && |tail| >= 4
    ensures DecodeQuestionFixed(EncodeName(ls) + tail) == Some(QuestionRecord(Join(ls)))
  {
    var bytes := EncodeName(ls) + tail;
    assert bytes[0..|EncodeName(ls)|] == EncodeName(ls);
    ParseEncodedName(bytes, 0, ls);
  }

  /** The source's decoder agrees with the corrected one whenever the first length byte
      is not zero: it reads exactly the wire name at byte 0, joins its labels with dots,
      and needs the type and the class (4 bytes) right after the terminating zero. */
  lemma FixedAgreesOffRoot(bytes: seq<Byte>)
    requires |bytes| > 0 && bytes[0] != 0
    ensures DecodeQuestion(bytes) == DecodeQuestionFixed(bytes)
  {
    var end0 := 1 + bytes[0] as nat;
    if end0 < |bytes| {
      var l := bytes[1..end0];
      match ParseLabels(bytes, end0)
      case None =>
        assert ParseLabels(bytes, 0) == None;
      case Some((ls, next)) =>
        assert ParseLabels(bytes, 0) == Some(([l] + ls, next));
        assert ([l] + ls)[0] == l && ([l] + ls)[1..] == ls;
    }
  }

  /** The round trip for the source's decoder: a nonempty wire name followed by at least
      the 4 type and class bytes decodes to its labels joined by dots. */
  lemma DecodeEncodedQuestion(ls: seq<Label>, tail: seq<Byte>)
    requires ls != [] && ValidLabels(ls) && |tail| >= 4
    ensures DecodeQuestion(EncodeName(ls) + tail) == Some(QuestionRecord(Join(ls)))
  {
    FixedRoundTrip(ls, tail);
    FixedAgreesOffRoot(EncodeName(ls) + tail);
  }

  /** The converse: whenever the first length byte is not zero and the decode succeeds,
      the input is a nonempty wire name followed by at least 4 bytes, and the name is its
      labels joined by dots. */
  lemma DecodedQuestionIsEncoded(bytes: seq<Byte>)
    requires |bytes| > 0 && bytes[0] != 0 && DecodeQuestion(bytes).Some?
    ensures ParseLabels(bytes, 0).Some?
    ensures var (ls, next) := ParseLabels(bytes, 0).value;
      && ls != [] && ValidLabels(ls)
      && bytes[..next] == EncodeName(ls) && next + 4 <= |bytes|
      && DecodeQuestion(bytes).value.name == Join(ls)
  {
    FixedAgreesOffRoot(bytes);
    ParsedNameIsEncoded(bytes, 0);
    var (ls, next) := ParseLabels(bytes, 0).value;
    assert bytes[..next] == bytes[0..next];
  }

  /** Whatever the type and class bytes hold, a decoded record is type A, class IN, with
      time to live 0 and no data. The first length byte is always a plain length, even
      one of 0xC0 or more that RFC 1035 reserves for a compression pointer: the input must
      hold that many label bytes, a zero and the 4 type and class bytes. */
  lemma DecodedRecordIsAlwaysAIn(bytes: seq<Byte>)
    requires DecodeQuestion(bytes).Some?
    ensures var rec := DecodeQuestion(bytes).value;
      rec.dnsType == A && rec.dnsClass == IN && rec.timeToLive == 0 && rec.rdLength == 0 && rec.rdData == []
    ensures |bytes| >= bytes[0] as int + 6
  {
    var end0 := 1 + bytes[0] as nat;
    var (ls, next) := ParseLabels(bytes, end0).value;
  }

  /** A zero first length byte is not read as the root name: the next byte is taken as a
      length too, so a name `0, 3 "com", 0` decodes to ".com" with a leading dot. */
  lemma ZeroFirstLengthGivesLeadingDot()
    ensures DecodeQuestion([0, 3, 99, 111, 109, 0, 0, 1, 0, 1]) == Some(QuestionRecord([Dot, 99, 111, 109]))
  {
    var bytes: seq<Byte> := [0, 3, 99, 111, 109, 0, 0, 1, 0, 1];
    var ls: seq<Label> := [[99, 111, 109]];
    assert EncodeName(ls) == [3, 99, 111, 109, 0];
    assert bytes[1..1 + |EncodeName(ls)|] == EncodeName(ls);
    ParseEncodedName(bytes, 1, ls);
    assert bytes[1..1] == [];
    assert [] + Dotted(ls) == [Dot, 99, 111, 109];
  }

  /** The source's test: `12 "codecrafters" 2 "io" 0`, type 1, class 1 decodes to the
      name "codecrafters.io". */
  lemma CodecraftersExample()
    ensures DecodeQuestion([12, 99, 111, 100, 101, 99, 114, 97, 102, 116, 101, 114, 115,
                            2, 105, 111, 0, 0, 1, 0, 1])
      == Some(QuestionRecord([99, 111, 100, 101, 99, 114, 97, 102, 116, 101, 114, 115,
                              46, 105, 111]))
  {
    var ls: seq<Label> := [[99, 111, 100, 101, 99, 114, 97, 102, 116, 101, 114, 115], [105, 111]];
    assert EncodeName(ls) == [12, 99, 111, 100, 101, 99, 114, 97, 102, 116, 101, 114, 115,
                              2, 105, 111, 0];
    assert Join(ls) == [99, 111, 100, 101, 99, 114, 97, 102, 116, 101, 114, 115, 46, 105, 111];
    assert EncodeName(ls) + [0, 1, 0, 1] == [12, 99, 111, 100, 101, 99, 114, 97, 102, 116, 101,
                                             114, 115, 2, 105, 111, 0, 0, 1, 0, 1];
    DecodeEncodedQuestion(ls, [0, 1, 0, 1]);
  }

  /** The root name (a lone zero byte) followed by type A and class IN: the decoder as
      written fails on it, reading the type's first byte as a second length. */
  lemma RootQuestionRejected()
    ensures DecodeQuestion([0, 0, 1, 0, 1]) == None
  {
  }

  /** With one more byte after the root question, the decoder as written yields the empty
      name only by accident: byte 1 is read as a second length, and the type and the class
      are sliced one byte late. */
  lemma RootQuestionWithExtraByte()
    ensures DecodeQuestion([0, 0, 1, 0, 1, 7]) == Some(QuestionRecord([]))
  {
    var bytes: seq<Byte> := [0, 0, 1, 0, 1, 7];
    assert bytes[1..1] == [];
    assert ParseLabels(bytes, 1) == Some(([], 2));
    assert [] + Dotted([]) == [];
  }

  /** The root question the source rejects decodes to the empty name. */
  lemma FixedAcceptsRoot()
    ensures DecodeQuestionFixed([0, 0, 1, 0, 1]) == Some(QuestionRecord([]))
  {
    FixedRoundTrip([], [0, 1, 0, 1]);
  }
}
