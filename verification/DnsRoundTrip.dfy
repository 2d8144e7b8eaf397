/**
 A response written by a compressing server is parsed back to exactly its records: the
 question is the one `build_query` wrote, names in answers are labels with or without a final
 pointer to any place in the packet, and anything may follow in the other sections.
 */
module DnsRoundTrip {
  import opened Wrappers
  import opened Bytes
  import opened Text
  import opened DomainName
  import opened DnsMessage

  // ----- the server's side -----

  /** A name as written: labels, then a pointer or the zero byte. */
  datatype WireName = WireName(labels: seq<seq<byte>>, target: Option<nat>)

  datatype RecordBody =
    | V4(octets: seq<byte>)
    | V6(octets: seq<byte>)
    | Target(name: WireName)
    | Other(bytes: seq<byte>)

  datatype Record = Record(owner: WireName, recordType: nat, recordClass: nat, ttl: nat, body: RecordBody)

  predicate WireLabels(labels: seq<seq<byte>>) {
    forall i :: 0 <= i < |labels| ==> 0 < |labels[i]| <= 63 && ValidUtf8(labels[i])
  }

  predicate ValidName(n: WireName) { WireLabels(n.labels) && (n.target.Some? ==> n.target.value < 0x4000) }

  /** The bytes behind the labels: a pointer is the 16 bits 0xc000 + target. */
  function LastBytes(target: Option<nat>): seq<byte>
    requires target.Some? ==> target.value < 0x4000
  {
    if target.Some? then U16(0xc000 + target.value) else [0]
  }

  function NameBytes(n: WireName): seq<byte>
    requires ValidName(n)
  {
    EncodeLabels(n.labels) + LastBytes(n.target)
  }

  predicate ValidBody(body: RecordBody) { body.Target? ==> ValidName(body.name) }

  function BodyBytes(body: RecordBody): seq<byte>
    requires ValidBody(body)
  {
    match body
    case V4(octets) => octets
    case V6(octets) => octets
    case Target(name) => NameBytes(name)
    case Other(bytes) => bytes
  }

  predicate NamesHost(recordType: nat) { recordType == 2 || recordType == 5 || recordType == 12 }

  /** The record type says what the body is; sizes fit their 16- and 32-bit fields. */
  predicate ValidRecord(r: Record) {
    && ValidName(r.owner) && ValidBody(r.body)
    && r.recordType < 0x1_0000 && r.recordClass < 0x1_0000 && r.ttl < 0x1_0000_0000
    && |BodyBytes(r.body)| < 0x1_0000
    && match r.body
       case V4(octets) => r.recordType == 1 && |octets| == 4
       case V6(octets) => r.recordType == 28 && |octets| == 16
       case Target(_) => NamesHost(r.recordType)
       case Other(bytes) =>
         && !NamesHost(r.recordType) && !(r.recordType == 1 && |bytes| == 4) && !(r.recordType == 28 && |bytes| == 16)
  }

  /** The fields behind the owner, in wire order. */
  function FieldBytes(recordType: nat, recordClass: nat, ttl: nat, body: seq<byte>): seq<byte>
    requires recordType < 0x1_0000 && recordClass < 0x1_0000 && ttl < 0x1_0000_0000 && |body| < 0x1_0000
  {
    U16(recordType) + (U16(recordClass) + (U32(ttl) + (U16(|body|) + body)))
  }

  function EncodeRecord(r: Record): seq<byte>
    requires ValidRecord(r)
  {
    NameBytes(r.owner) + FieldBytes(r.recordType, r.recordClass, r.ttl, BodyBytes(r.body))
  }

  predicate ValidRecords(records: seq<Record>) { forall i :: 0 <= i < |records| ==> ValidRecord(records[i]) }

  function Encodings(records: seq<Record>): (chunks: seq<seq<byte>>)
    requires ValidRecords(records)
    ensures |chunks| == |records|
  {
    seq(|records|, i requires 0 <= i < |records| => EncodeRecord(records[i]))
  }

  function Concat(chunks: seq<seq<byte>>): seq<byte> {
    if chunks == [] then [] else Concat(chunks[..|chunks| - 1]) + chunks[|chunks| - 1]
  }

  function EncodeRecords(records: seq<Record>): seq<byte>
    requires ValidRecords(records)
  {
    Concat(Encodings(records))
  }

  /** The six header fields; the question count is 1. */
  function Header(id: nat, flags: nat, answers: nat, authority: nat, additional: nat): (h: seq<byte>)
    requires id < 0x1_0000 && flags < 0x1_0000 && answers < 0x1_0000
    requires authority < 0x1_0000 && additional < 0x1_0000
    ensures |h| == HEADER_LENGTH
  {
    U16(id) + (U16(flags) + (U16(1) + (U16(answers) + (U16(authority) + U16(additional)))))
  }

  /** The flags of a response (section 4.1.1 of RFC 1035), from the QR bit down. */
  datatype Flags = Flags(opcode: nat, authoritative: bool, truncated: bool, recursionDesired: bool,
                         recursionAvailable: bool, reserved: nat, rcode: nat)
  {
    predicate Valid() { opcode < 16 && reserved < 8 && rcode < 16 }

    function Word(): (w: nat)
      requires Valid()
      ensures 0x8000 <= w < 0x1_0000
    {
      0x8000 + opcode * 0x800 + (if authoritative then 0x400 else 0) + (if truncated then 0x200 else 0)
      + (if recursionDesired then 0x100 else 0) + (if recursionAvailable then 0x80 else 0) + reserved * 16 + rcode
    }
  }

  /** A response; `asked` is the question name as the server spells it. */
  function ResponsePacket(id: nat, flags: Flags, asked: seq<byte>, queryType: QueryType, records: seq<Record>,
                          authority: nat, additional: nat, rest: seq<byte>): seq<byte>
    requires id < 0x1_0000 && flags.Valid() && authority < 0x1_0000 && additional < 0x1_0000
    requires |records| < 0x1_0000 && ValidRecords(records)
  {
    Header(id, flags.Word(), |records|, authority, additional)
    + (Question(asked, queryType) + (EncodeRecords(records) + rest))
  }

  // ----- what the client must read -----

  /** What a name as written stands for in a packet: its labels, then the name at its target. */
  ghost function Denoted(packet: seq<byte>, n: WireName): Result<seq<byte>, NameError> {
    if n.target.None? then Ok(Join(n.labels, DOT))
    else
      match NameAt(packet, n.target.value)
      case Err(error) => Err(error)
      case Ok(base) => Ok(Join(n.labels + (if base == [] then [] else [base]), DOT))
  }

  /** The pointers of a record lead to names. */
  ghost predicate Readable(packet: seq<byte>, r: Record) {
    Denoted(packet, r.owner).Ok? && (r.body.Target? ==> Denoted(packet, r.body.name).Ok?)
  }

  ghost function ExpectedData(packet: seq<byte>, body: RecordBody): RecordData
    requires body.Target? ==> Denoted(packet, body.name).Ok?
  {
    match body
    case V4(octets) => Address4(octets)
    case V6(octets) => Address6(octets)
    case Target(name) => Name(Denoted(packet, name).value)
    case Other(bytes) => Raw(bytes)
  }

  ghost function ExpectedAnswer(packet: seq<byte>, r: Record): Answer
    requires Readable(packet, r)
  {
    Answer(Denoted(packet, r.owner).value, r.recordType, r.recordClass, r.ttl, ExpectedData(packet, r.body))
  }

  ghost predicate AllReadable(packet: seq<byte>, records: seq<Record>) {
    forall i :: 0 <= i < |records| ==> Readable(packet, records[i])
  }

  ghost function ExpectedAnswers(packet: seq<byte>, records: seq<Record>): seq<Answer>
    requires AllReadable(packet, records)
  {
    seq(|records|, i requires 0 <= i < |records| => ExpectedAnswer(packet, records[i]))
  }

  // ----- bytes at a position -----

  ghost predicate Holds(packet: seq<byte>, at: nat, bytes: seq<byte>) {
    at + |bytes| <= |packet| && packet[at..at + |bytes|] == bytes
  }

  lemma HoldsParts(packet: seq<byte>, at: nat, a: seq<byte>, b: seq<byte>)
    requires Holds(packet, at, a + b)
    ensures Holds(packet, at, a) && Holds(packet, at + |a|, b)
  {
    var both := packet[at..at + |a + b|];
    assert packet[at..at + |a|] == both[..|a|];
    assert packet[at + |a|..at + |a| + |b|] == both[|a|..];
  }

  lemma HoldsByte(packet: seq<byte>, at: nat, b: byte, rest: seq<byte>)
    requires Holds(packet, at, [b] + rest)
    ensures at < |packet| && packet[at] == b && Holds(packet, at + 1, rest)
  {
    HoldsParts(packet, at, [b], rest);
    assert packet[at] == packet[at..at + 1][0];
  }

  lemma HoldsSections(packet: seq<byte>, a: seq<byte>, b: seq<byte>, c: seq<byte>, d: seq<byte>)
    requires packet == a + (b + (c + d))
    ensures Holds(packet, 0, a) && Holds(packet, |a|, b) && Holds(packet, |a| + |b|, c)
  {
    assert packet[0..|packet|] == packet;
    HoldsParts(packet, 0, a, b + (c + d));
    HoldsParts(packet, |a|, b, c + d);
    HoldsParts(packet, |a| + |b|, c, d);
  }

  // ----- names on the wire -----

  lemma LengthThenText(packet: seq<byte>, at: nat, whole: seq<byte>, first: seq<byte>, rest: seq<byte>)
    requires |first| < 256 && whole == [|first|] + (first + rest) && Holds(packet, at, whole)
    ensures at < |packet| && packet[at] == |first| && Holds(packet, at + 1, first)
    ensures Holds(packet, at + 1 + |first|, rest) && |whole| == 1 + |first| + |rest|
  {
    HoldsByte(packet, at, |first|, first + rest);
    HoldsParts(packet, at + 1, first, rest);
  }

  lemma EncodedFirst(labels: seq<seq<byte>>)
    requires labels != [] && |labels[0]| < 256
    ensures EncodeLabels(labels) == [|labels[0]|] + (labels[0] + EncodeLabels(labels[1..]))
  {
    Regroup([|labels[0]|], labels[0], EncodeLabels(labels[1..]));
  }

  /** A label of 1 to 63 bytes, behind its length. */
  predicate LabelAt(packet: seq<byte>, at: nat, text: seq<byte>) {
    && 0 < |text| <= 63 && ValidUtf8(text) && at + 1 + |text| <= |packet|
    && packet[at] == |text| && packet[at + 1..at + 1 + |text|] == text
  }

  /** `names` and `ends` take a label off a name. */
  ghost predicate TakesLabels(packet: seq<byte>, names: nat -> Result<seq<byte>, NameError>, ends: nat -> nat) {
    forall at: nat, text :: LabelAt(packet, at, text) ==>
      names(at) == Above(text, names(at + 1 + |text|)) && ends(at) == ends(at + 1 + |text|)
  }

  ghost function Names(packet: seq<byte>): nat -> Result<seq<byte>, NameError> { (at: nat) => NameAt(packet, at) }

  ghost function Ends(packet: seq<byte>): nat -> nat { (at: nat) => WireEnd(packet, at) }

  lemma LabelTaken(packet: seq<byte>, at: nat, text: seq<byte>)
    requires LabelAt(packet, at, text)
    ensures NameAt(packet, at) == Above(text, NameAt(packet, at + 1 + |text|))
    ensures WireEnd(packet, at) == WireEnd(packet, at + 1 + |text|)
  {
    NameByBytes(packet, at, 0);
  }

  lemma NamesTakeLabels(packet: seq<byte>)
    ensures TakesLabels(packet, Names(packet), Ends(packet))
  {
    forall at: nat, text | LabelAt(packet, at, text)
      ensures Names(packet)(at) == Above(text, Names(packet)(at + 1 + |text|))
        && Ends(packet)(at) == Ends(packet)(at + 1 + |text|)
    {
      LabelTaken(packet, at, text);
    }
  }

  function AboveAll(labels: seq<seq<byte>>, rest: Result<seq<byte>, NameError>): Result<seq<byte>, NameError> {
    if labels == [] then rest else Above(labels[0], AboveAll(labels[1..], rest))
  }

  /** Where the labels written at `at` end. */
  function LabelsEnd(at: nat, labels: seq<seq<byte>>): nat
    decreases labels
  {
    if labels == [] then at else LabelsEnd(at + 1 + |labels[0]|, labels[1..])
  }

  predicate LabelsAt(packet: seq<byte>, at: nat, labels: seq<seq<byte>>)
    decreases labels
  {
    labels == [] || (LabelAt(packet, at, labels[0]) && LabelsAt(packet, at + 1 + |labels[0]|, labels[1..]))
  }

  lemma {:induction false} EncodedLabelsAt(packet: seq<byte>, at: nat, labels: seq<seq<byte>>, bytes: seq<byte>)
    requires WireLabels(labels) && bytes == EncodeLabels(labels) && Holds(packet, at, bytes)
    ensures LabelsAt(packet, at, labels) && LabelsEnd(at, labels) == at + |bytes|
    decreases labels
  {
    if labels != [] {
      var first, tail := labels[0], EncodeLabels(labels[1..]);
      EncodedFirst(labels);
      LengthThenText(packet, at, bytes, first, tail);
      EncodedLabelsAt(packet, at + 1 + |first|, labels[1..], tail);
    }
  }

  lemma {:induction false} LabelsAreRead(packet: seq<byte>, names: nat -> Result<seq<byte>, NameError>,
                                         ends: nat -> nat, at: nat, labels: seq<seq<byte>>)
    requires TakesLabels(packet, names, ends) && LabelsAt(packet, at, labels)
    ensures names(at) == AboveAll(labels, names(LabelsEnd(at, labels))) && ends(at) == ends(LabelsEnd(at, labels))
    decreases labels
  {
    if labels != [] {
      LabelsAreRead(packet, names, ends, at + 1 + |labels[0]|, labels[1..]);
    }
  }

  /** Labels above a name are joined with it. */
  lemma {:induction false} AboveAllJoins(labels: seq<seq<byte>>, base: seq<byte>)
    requires WireLabels(labels)
    ensures AboveAll(labels, Ok(base)) == Ok(Join(labels + (if base == [] then [] else [base]), DOT))
    decreases labels
  {
    var tail := if base == [] then [] else [base];
    if labels == [] {
      assert labels + tail == tail;
    } else {
      AboveAllJoins(labels[1..], base);
      assert (labels + tail)[1..] == labels[1..] + tail;
      assert labels[1..] + tail != [] ==> Join(labels[1..] + tail, DOT) != [];
    }
  }

  lemma {:induction false} AboveError(labels: seq<seq<byte>>, error: NameError)
    ensures AboveAll(labels, Err(error)) == Err(error)
    decreases labels
  {
    if labels != [] {
      AboveError(labels[1..], error);
    }
  }

  lemma LastBytesAreRead(packet: seq<byte>, at: nat, target: Option<nat>)
    requires target.Some? ==> target.value < 0x4000
    requires Holds(packet, at, LastBytes(target))
    ensures NameAt(packet, at) == if target.Some? then NameAt(packet, target.value) else Ok([])
    ensures WireEnd(packet, at) == at + if target.Some? then 2 else 1
  {
    if target.Some? {
      NameByBytes(packet, at, target.value);
    } else {
      assert packet[at] == packet[at..at + 1][0];
      NameByBytes(packet, at, 0);
    }
  }

  /** Labels in front of the last bytes of a name, joined with what these denote. */
  lemma Joined(labels: seq<seq<byte>>, last: Result<seq<byte>, NameError>)
    requires WireLabels(labels)
    ensures AboveAll(labels, last)
      == if last.Err? then last else Ok(Join(labels + (if last.value == [] then [] else [last.value]), DOT))
  {
    if last.Ok? { AboveAllJoins(labels, last.value); } else { AboveError(labels, last.error); }
  }

  lemma LabelsLead(packet: seq<byte>, at: nat, labels: seq<seq<byte>>, end: nat)
    requires LabelsAt(packet, at, labels) && end == LabelsEnd(at, labels)
    ensures NameAt(packet, at) == AboveAll(labels, NameAt(packet, end))
    ensures WireEnd(packet, at) == WireEnd(packet, end)
  {
    NamesTakeLabels(packet);
    LabelsAreRead(packet, Names(packet), Ends(packet), at, labels);
  }

  lemma WrittenParts(packet: seq<byte>, at: nat, n: WireName) returns (end: nat)
    requires ValidName(n) && Holds(packet, at, NameBytes(n))
    ensures LabelsAt(packet, at, n.labels) && end == LabelsEnd(at, n.labels)
    ensures Holds(packet, end, LastBytes(n.target)) && end + |LastBytes(n.target)| == at + |NameBytes(n)|
  {
    var front := EncodeLabels(n.labels);
    end := at + |front|;
    HoldsParts(packet, at, front, LastBytes(n.target));
    EncodedLabelsAt(packet, at, n.labels, front);
  }

  lemma JoinsTarget(packet: seq<byte>, n: WireName)
    requires ValidName(n)
    ensures Denoted(packet, n)
      == AboveAll(n.labels, if n.target.Some? then NameAt(packet, n.target.value) else Ok([]))
  {
    Joined(n.labels, if n.target.Some? then NameAt(packet, n.target.value) else Ok([]));
    assert n.labels + [] == n.labels;
  }

  /** A name is read back from any position of any packet: labels, and behind them the name a
      pointer to any target below 0x4000 leads to. */
  lemma NameIsRead(packet: seq<byte>, at: nat, n: WireName)
    requires ValidName(n) && Holds(packet, at, NameBytes(n))
    ensures NameAt(packet, at) == Denoted(packet, n) && WireEnd(packet, at) == at + |NameBytes(n)|
  {
    var end := WrittenParts(packet, at, n);
    LabelsLead(packet, at, n.labels, end);
    LastBytesAreRead(packet, end, n.target);
    JoinsTarget(packet, n);
  }

  // ----- records -----

  lemma FieldsAt(packet: seq<byte>, at: nat, recordType: nat, recordClass: nat, ttl: nat, body: seq<byte>)
    requires recordType < 0x1_0000 && recordClass < 0x1_0000 && ttl < 0x1_0000_0000 && |body| < 0x1_0000
    requires Holds(packet, at, FieldBytes(recordType, recordClass, ttl, body))
    ensures at + 10 + |body| <= |packet| && |FieldBytes(recordType, recordClass, ttl, body)| == 10 + |body|
    ensures ReadU16(packet, at) == Some(recordType) && ReadU16(packet, at + 2) == Some(recordClass)
    ensures ReadU32(packet, at + 4) == Some(ttl) && ReadU16(packet, at + 8) == Some(|body|)
    ensures Holds(packet, at + 10, body)
  {
    var e4 := U16(|body|) + body;
    var e3 := U32(ttl) + e4;
    var e2 := U16(recordClass) + e3;
    HoldsParts(packet, at, U16(recordType), e2);
    HoldsParts(packet, at + 2, U16(recordClass), e3);
    HoldsParts(packet, at + 4, U32(ttl), e4);
    HoldsParts(packet, at + 8, U16(|body|), body);
    ReadU16Back(packet, at, recordType);
    ReadU16Back(packet, at + 2, recordClass);
    ReadU32Back(packet, at + 4, ttl);
    ReadU16Back(packet, at + 8, |body|);
  }

  lemma DataIsRead(packet: seq<byte>, at: nat, r: Record)
    requires ValidRecord(r) && Readable(packet, r) && Holds(packet, at, BodyBytes(r.body))
    ensures at + |BodyBytes(r.body)| <= |packet|
    ensures DataAt(packet, at, |BodyBytes(r.body)|, r.recordType) == Ok(ExpectedData(packet, r.body))
  {
    if r.body.Target? {
      NameIsRead(packet, at, r.body.name);
    }
  }

  /** The parts of a record put together. */
  lemma AnswerOfParts(packet: seq<byte>, offset: nat, at: nat, answer: Answer, length: nat)
    requires NameAt(packet, offset) == Ok(answer.name) && WireEnd(packet, offset) == at
    requires ReadU16(packet, at) == Some(answer.recordType) && ReadU16(packet, at + 2) == Some(answer.recordClass)
    requires ReadU32(packet, at + 4) == Some(answer.ttl) && ReadU16(packet, at + 8) == Some(length)
    requires at + 10 + length <= |packet| && DataAt(packet, at + 10, length, answer.recordType) == Ok(answer.data)
    ensures AnswerAt(packet, offset) == Ok((answer, at + 10 + length))
  {
  }

  /** The fields of a record lie at `at`, up to `end`. */
  ghost predicate FieldsHeld(packet: seq<byte>, at: nat, r: Record, end: nat)
    requires ValidRecord(r)
  {
    && ReadU16(packet, at) == Some(r.recordType) && ReadU16(packet, at + 2) == Some(r.recordClass)
    && ReadU32(packet, at + 4) == Some(r.ttl) && ReadU16(packet, at + 8) == Some(|BodyBytes(r.body)|)
    && Holds(packet, at + 10, BodyBytes(r.body)) && end == at + 10 + |BodyBytes(r.body)|
  }

  lemma RecordHeld(packet: seq<byte>, at: nat, r: Record) returns (fields: nat, end: nat)
    requires ValidRecord(r) && Holds(packet, at, EncodeRecord(r))
    ensures Holds(packet, at, NameBytes(r.owner)) && fields == at + |NameBytes(r.owner)|
    ensures FieldsHeld(packet, fields, r, end) && end == at + |EncodeRecord(r)|
  {
    var name, body := NameBytes(r.owner), BodyBytes(r.body);
    fields, end := at + |name|, at + |name| + 10 + |body|;
    HoldsParts(packet, at, name, FieldBytes(r.recordType, r.recordClass, r.ttl, body));
    FieldsAt(packet, fields, r.recordType, r.recordClass, r.ttl, body);
  }

  /** A record's fields behind its owner, whatever the owner. */
  lemma FieldsAreRead(packet: seq<byte>, offset: nat, at: nat, owner: seq<byte>, r: Record, end: nat)
    requires ValidRecord(r) && Readable(packet, r) && FieldsHeld(packet, at, r, end)
    requires NameAt(packet, offset) == Ok(owner) && WireEnd(packet, offset) == at
    ensures AnswerReader(packet)(offset)
      == Ok((Answer(owner, r.recordType, r.recordClass, r.ttl, ExpectedData(packet, r.body)), end))
  {
    DataIsRead(packet, at + 10, r);
    AnswerOfParts(packet, offset, at,
                  Answer(owner, r.recordType, r.recordClass, r.ttl, ExpectedData(packet, r.body)),
                  |BodyBytes(r.body)|);
  }

  /** A record is read back, and the next one begins right behind it. */
  lemma RecordIsRead(packet: seq<byte>, at: nat, r: Record, next: nat)
    requires ValidRecord(r) && Readable(packet, r)
    requires Holds(packet, at, EncodeRecord(r)) && next == at + |EncodeRecord(r)|
    ensures AnswerReader(packet)(at) == Ok((ExpectedAnswer(packet, r), next))
  {
    var fields, end := RecordHeld(packet, at, r);
    NameIsRead(packet, at, r.owner);
    FieldsAreRead(packet, at, fields, Denoted(packet, r.owner).value, r, end);
  }

  /** Where chunk `k` of chunks written at `at` begins. */
  function ChunkOffset(at: nat, chunks: seq<seq<byte>>, k: nat): nat
    requires k <= |chunks|
  {
    at + |Concat(chunks[..k])|
  }

  lemma NextChunk(at: nat, chunks: seq<seq<byte>>, k: nat)
    requires k < |chunks|
    ensures ChunkOffset(at, chunks, k + 1) == ChunkOffset(at, chunks, k) + |chunks[k]|
  {
    assert chunks[..k + 1][..k] == chunks[..k];
  }

  /** Every chunk is found at its offset. */
  lemma {:induction false} ChunkHeld(packet: seq<byte>, at: nat, chunks: seq<seq<byte>>, k: nat)
    requires k < |chunks| && Holds(packet, at, Concat(chunks))
    ensures Holds(packet, ChunkOffset(at, chunks, k), chunks[k])
    decreases |chunks|
  {
    var front, last := chunks[..|chunks| - 1], chunks[|chunks| - 1];
    HoldsParts(packet, at, Concat(front), last);
    if k < |front| {
      ChunkHeld(packet, at, front, k);
      assert front[..k] == chunks[..k];
    } else {
      assert chunks[..k] == front;
    }
  }

  /** Records read one after another are what reading many gives. */
  lemma {:induction false} ManyRead(read: nat -> Result<(Answer, nat), DnsError>, offsets: seq<nat>,
                                    answers: seq<Answer>)
    requires |offsets| == |answers| + 1
    requires forall k :: 0 <= k < |answers| ==> read(offsets[k]) == Ok((answers[k], offsets[k + 1]))
    ensures ReadMany(read, offsets[0], |answers|) == Ok(answers)
    decreases answers
  {
    if answers != [] {
      var rest := offsets[1..];
      forall k | 0 <= k < |answers| - 1 ensures read(rest[k]) == Ok((answers[1..][k], rest[k + 1])) {
        assert rest[k] == offsets[k + 1] && rest[k + 1] == offsets[k + 2];
      }
      ManyRead(read, rest, answers[1..]);
      assert [answers[0]] + answers[1..] == answers;
    }
  }

  /** Each record is read where its chunk begins, up to where the next begins. */
  lemma ChunkRead(packet: seq<byte>, at: nat, r: Record, chunks: seq<seq<byte>>, k: nat)
    requires k < |chunks| && ValidRecord(r) && chunks[k] == EncodeRecord(r)
    requires Holds(packet, at, Concat(chunks)) && Readable(packet, r)
    ensures AnswerReader(packet)(ChunkOffset(at, chunks, k))
      == Ok((ExpectedAnswer(packet, r), ChunkOffset(at, chunks, k + 1)))
  {
    var offset, end := ChunkOffset(at, chunks, k), ChunkOffset(at, chunks, k + 1);
    assert Holds(packet, offset, chunks[k]) by { ChunkHeld(packet, at, chunks, k); }
    assert end == offset + |chunks[k]| by { NextChunk(at, chunks, k); }
    RecordIsRead(packet, offset, r, end);
  }

  lemma ChunksRead(at: nat, answers: seq<Answer>, chunks: seq<seq<byte>>,
                   read: nat -> Result<(Answer, nat), DnsError>)
    requires |answers| == |chunks|
    requires forall k :: 0 <= k < |answers| ==>
      read(ChunkOffset(at, chunks, k)) == Ok((answers[k], ChunkOffset(at, chunks, k + 1)))
    ensures ReadMany(read, at, |answers|) == Ok(answers)
  {
    var n := |answers|;
    var offsets := seq(n + 1, k requires 0 <= k <= n => ChunkOffset(at, chunks, k));
    forall k | 0 <= k < n ensures read(offsets[k]) == Ok((answers[k], offsets[k + 1])) {
      assert offsets[k] == ChunkOffset(at, chunks, k) && offsets[k + 1] == ChunkOffset(at, chunks, k + 1);
    }
    assert chunks[..0] == [] && offsets[0] == at;
    ManyRead(read, offsets, answers);
  }

  /** Any list of records is read back in order. */
  lemma RecordsAreRead(packet: seq<byte>, at: nat, records: seq<Record>)
    requires ValidRecords(records) && AllReadable(packet, records) && Holds(packet, at, EncodeRecords(records))
    ensures AnswersAt(packet, at, |records|) == Ok(ExpectedAnswers(packet, records))
  {
    var chunks, read, answers := Encodings(records), AnswerReader(packet), ExpectedAnswers(packet, records);
    forall k | 0 <= k < |records|
      ensures read(ChunkOffset(at, chunks, k)) == Ok((answers[k], ChunkOffset(at, chunks, k + 1)))
    {
      ChunkRead(packet, at, records[k], chunks, k);
    }
    ChunksRead(at, answers, chunks, read);
  }

  // ----- the round trip -----

  /** Servers may change the case of the letters of the name they were asked for. */
  ghost predicate Spelled(asked: seq<byte>, name: seq<byte>) { CanonicalName(name) && Lower(asked) == name }

  lemma LowerFirst(b: byte, rest: seq<byte>)
    ensures Lower([b] + rest) == [LowerByte(b)] + Lower(rest)
  {
  }

  lemma LowerAllFirst(first: seq<byte>, rest: seq<seq<byte>>)
    ensures LowerAll([first] + rest) == [Lower(first)] + LowerAll(rest)
  {
  }

  lemma {:induction false} SplitLower(s: seq<byte>)
    ensures Split(Lower(s), DOT) == LowerAll(Split(s, DOT))
  {
    if s == [] {
      assert Lower(s) == [] && LowerAll([[]]) == [[]];
    } else {
      var rest := Split(s[1..], DOT);
      SplitLower(s[1..]);
      assert s == [s[0]] + s[1..];
      LowerFirst(s[0], s[1..]);
      assert Lower(s)[1..] == Lower(s[1..]);
      if s[0] == DOT {
        LowerAllFirst([], rest);
        assert Lower([]) == [];
      } else {
        LowerFirst(s[0], rest[0]);
        LowerAllFirst([s[0]] + rest[0], rest[1..]);
        assert LowerAll(rest)[1..] == LowerAll(rest[1..]);
      }
    }
  }

  lemma SpelledLabels(asked: seq<byte>, name: seq<byte>)
    requires Spelled(asked, name)
    ensures WireLabels(Split(asked, DOT)) && |asked| == |name|
  {
    CanonicalNameFacts(name);
    SplitLower(asked);
    var labels, lower := Split(asked, DOT), Split(name, DOT);
    forall i | 0 <= i < |labels| ensures 0 < |labels[i]| <= 63 && ValidUtf8(labels[i]) {
      assert QueryLabel(lower[i]) && lower[i] == Lower(labels[i]);
      forall k | 0 <= k < |labels[i]| ensures labels[i][k] < 128 {
        assert NameByte(lower[i][k]) && lower[i][k] == LowerByte(labels[i][k]);
      }
      AsciiIsUtf8(labels[i]);
    }
  }

  lemma HeaderIsRead(packet: seq<byte>, id: nat, flags: nat, answers: nat, authority: nat, additional: nat)
    requires id < 0x1_0000 && flags < 0x1_0000 && answers < 0x1_0000
    requires authority < 0x1_0000 && additional < 0x1_0000
    requires Holds(packet, 0, Header(id, flags, answers, authority, additional))
    ensures |packet| >= HEADER_LENGTH
    ensures ReadU16(packet, 0) == Some(id) && ReadU16(packet, 2) == Some(flags)
    ensures ReadU16(packet, 4) == Some(1) && ReadU16(packet, 6) == Some(answers)
  {
    var e4 := U16(authority) + U16(additional);
    var e3 := U16(answers) + e4;
    var e2 := U16(1) + e3;
    var e1 := U16(flags) + e2;
    HoldsParts(packet, 0, U16(id), e1);
    HoldsParts(packet, 2, U16(flags), e2);
    HoldsParts(packet, 4, U16(1), e3);
    HoldsParts(packet, 6, U16(answers), e4);
    ReadU16Back(packet, 0, id);
    ReadU16Back(packet, 2, flags);
    ReadU16Back(packet, 4, 1);
    ReadU16Back(packet, 6, answers);
  }

  lemma QuestionTailIsRead(packet: seq<byte>, at: nat, code: nat)
    requires code < 0x1_0000 && Holds(packet, at, U16(code) + U16(CLASS_IN))
    ensures at + 4 <= |packet|
    ensures ReadU16(packet, at) == Some(code) && ReadU16(packet, at + 2) == Some(CLASS_IN)
  {
    HoldsParts(packet, at, U16(code), U16(CLASS_IN));
    ReadU16Back(packet, at, code);
    ReadU16Back(packet, at + 2, CLASS_IN);
  }

  lemma QuestionNameIsRead(packet: seq<byte>, asked: seq<byte>, name: seq<byte>)
    requires Spelled(asked, name) && Holds(packet, 12, EncodeName(Split(asked, DOT)))
    ensures NameAt(packet, 12) == Ok(asked) && WireEnd(packet, 12) == 12 + |EncodeName(Split(asked, DOT))|
  {
    SpelledLabels(asked, name);
    NameIsRead(packet, 12, WireName(Split(asked, DOT), None));
    JoinSplit(asked, DOT);
  }

  /** The layout of a response packet: header, question, records, and whatever follows. */
  lemma SectionsAreRead(packet: seq<byte>, id: nat, flags: nat, answers: nat, authority: nat, additional: nat,
                        question: seq<byte>, records: seq<byte>, rest: seq<byte>)
    requires id < 0x1_0000 && flags < 0x1_0000 && answers < 0x1_0000
    requires authority < 0x1_0000 && additional < 0x1_0000
    requires packet == Header(id, flags, answers, authority, additional) + (question + (records + rest))
    ensures |packet| >= HEADER_LENGTH
    ensures ReadU16(packet, 0) == Some(id) && ReadU16(packet, 2) == Some(flags)
    ensures ReadU16(packet, 4) == Some(1) && ReadU16(packet, 6) == Some(answers)
    ensures Holds(packet, 12, question) && Holds(packet, 12 + |question|, records)
  {
    var header := Header(id, flags, answers, authority, additional);
    HoldsSections(packet, header, question, records, rest);
    HeaderIsRead(packet, id, flags, answers, authority, additional);
  }

  lemma ResponseIsRead(packet: seq<byte>, id: nat, flags: nat, asked: seq<byte>, name: seq<byte>,
                       queryType: QueryType, count: nat, answers: seq<Answer>)
    requires |packet| >= 12 && Lower(asked) == name && FlagSet(flags, 0x8000)
    requires ReadU16(packet, 0) == Some(id) && ReadU16(packet, 2) == Some(flags)
    requires ReadU16(packet, 4) == Some(1) && ReadU16(packet, 6) == Some(count)
    requires NameAt(packet, 12) == Ok(asked) && WireEnd(packet, 12) + 4 <= |packet|
    requires ReadU16(packet, WireEnd(packet, 12)) == Some(queryType.Code())
    requires ReadU16(packet, WireEnd(packet, 12) + 2) == Some(CLASS_IN)
    requires AnswersAt(packet, WireEnd(packet, 12) + 4, count) == Ok(answers)
    ensures ResponseOf(packet, id, name, queryType)
      == Ok(QueryResponse(name, queryType, flags % 16, FlagSet(flags, 0x0400), FlagSet(flags, 0x0200), answers))
  {
  }

  lemma QuestionParts(packet: seq<byte>, encoded: seq<byte>, code: nat)
    requires code < 0x1_0000 && Holds(packet, 12, encoded + (U16(code) + U16(CLASS_IN)))
    ensures Holds(packet, 12, encoded) && 12 + |encoded| + 4 <= |packet|
    ensures ReadU16(packet, 12 + |encoded|) == Some(code) && ReadU16(packet, 12 + |encoded| + 2) == Some(CLASS_IN)
  {
    HoldsParts(packet, 12, encoded, U16(code) + U16(CLASS_IN));
    QuestionTailIsRead(packet, 12 + |encoded|, code);
  }

  /** The question of a response, cut at the end of its name. */
  lemma QuestionCut(packet: seq<byte>, name: seq<byte>, queryType: QueryType, encoded: seq<byte>)
    requires encoded == EncodeName(Split(name, DOT)) && Holds(packet, 12, Question(name, queryType))
    ensures Holds(packet, 12, encoded + (U16(queryType.Code()) + U16(CLASS_IN)))
    ensures |Question(name, queryType)| == |encoded| + 4
  {
    assert Question(name, queryType) == encoded + (U16(queryType.Code()) + U16(CLASS_IN));
  }

  /** The question of a response, up to its end. */
  lemma QuestionIsRead(packet: seq<byte>, asked: seq<byte>, name: seq<byte>, queryType: QueryType)
    returns (end: nat)
    requires Spelled(asked, name) && Holds(packet, 12, Question(asked, queryType))
    ensures NameAt(packet, 12) == Ok(asked) && WireEnd(packet, 12) == end
    ensures end == |asked| + 14 && end + 4 <= |packet| && end + 4 == 12 + |Question(asked, queryType)|
    ensures ReadU16(packet, end) == Some(queryType.Code()) && ReadU16(packet, end + 2) == Some(CLASS_IN)
  {
    var encoded := EncodeName(Split(asked, DOT));
    end := 12 + |encoded|;
    QuestionCut(packet, asked, queryType, encoded);
    QuestionParts(packet, encoded, queryType.Code());
    QuestionNameIsRead(packet, asked, name);
    EncodedLength(Split(asked, DOT));
    JoinSplit(asked, DOT);
  }

  lemma WordIsRead(f: Flags)
    requires f.Valid()
    ensures FlagSet(f.Word(), 0x8000) && f.Word() % 16 == f.rcode
    ensures FlagSet(f.Word(), 0x0400) == f.authoritative && FlagSet(f.Word(), 0x0200) == f.truncated
  {
    var low := (if f.recursionDesired then 2 else 0) + (if f.recursionAvailable then 1 else 0);
    var w, tail := f.Word(), low * 0x80 + f.reserved * 16 + f.rcode;
    assert w == (16 + f.opcode) * 0x800 + (if f.authoritative then 0x400 else 0) + (if f.truncated then 0x200 else 0)
      + tail && tail < 0x200;
    assert w / 0x200 == (16 + f.opcode) * 4 + (if f.authoritative then 2 else 0) + (if f.truncated then 1 else 0);
    assert w / 0x400 == (16 + f.opcode) * 2 + (if f.authoritative then 1 else 0);
    assert w / 0x8000 == 1;
  }

  /** Every 16-bit word with the QR bit is the flags of some response. */
  lemma FlagsOfWord(w: nat) returns (f: Flags)
    requires 0x8000 <= w < 0x1_0000
    ensures f.Valid() && f.Word() == w
  {
    var q := w / 16;
    var r := q / 8;
    var d := r / 2;
    var t := d / 2;
    var a := t / 2;
    var o := a / 2;
    assert 0x800 <= q < 0x1000 && 0x100 <= r < 0x200 && 0x80 <= d < 0x100;
    assert 0x40 <= t < 0x80 && 0x20 <= a < 0x40 && 16 <= o < 32;
    f := Flags(o - 16, a % 2 == 1, t % 2 == 1, d % 2 == 1, r % 2 == 1, q % 8, w % 16);
  }

  /** The parts of a response are found where they were put. */
  lemma PartsFound(packet: seq<byte>, id: nat, flags: nat, asked: seq<byte>, name: seq<byte>, queryType: QueryType,
                   count: nat, records: seq<byte>, authority: nat, additional: nat, rest: seq<byte>)
    requires id < 0x1_0000 && flags < 0x1_0000 && count < 0x1_0000 && authority < 0x1_0000 && additional < 0x1_0000
    requires Spelled(asked, name)
    requires packet == Header(id, flags, count, authority, additional) + (Question(asked, queryType) + (records + rest))
    ensures |packet| >= 12 && NameAt(packet, 12) == Ok(asked) && WireEnd(packet, 12) == |asked| + 14
    ensures ReadU16(packet, 0) == Some(id) && ReadU16(packet, 2) == Some(flags)
    ensures ReadU16(packet, 4) == Some(1) && ReadU16(packet, 6) == Some(count)
    ensures |asked| + 18 <= |packet| && ReadU16(packet, |asked| + 14) == Some(queryType.Code())
    ensures ReadU16(packet, |asked| + 16) == Some(CLASS_IN)
    ensures Holds(packet, |asked| + 18, records)
  {
    SectionsAreRead(packet, id, flags, count, authority, additional, Question(asked, queryType), records, rest);
    var end := QuestionIsRead(packet, asked, name, queryType);
  }

  /** Where the answers of a response begin, and that the question name is at offset 12. */
  lemma AnswersBegin(id: nat, flags: Flags, asked: seq<byte>, name: seq<byte>, queryType: QueryType,
                     records: seq<Record>, authority: nat, additional: nat, rest: seq<byte>)
    requires id < 0x1_0000 && flags.Valid() && authority < 0x1_0000 && additional < 0x1_0000
    requires |records| < 0x1_0000 && ValidRecords(records) && Spelled(asked, name)
    ensures
      var packet := ResponsePacket(id, flags, asked, queryType, records, authority, additional, rest);
      NameAt(packet, 12) == Ok(asked) && Holds(packet, |asked| + 18, EncodeRecords(records))
  {
    PartsFound(ResponsePacket(id, flags, asked, queryType, records, authority, additional, rest), id, flags.Word(),
               asked, name, queryType, |records|, EncodeRecords(records), authority, additional, rest);
  }

  /** Every response to a valid query comes back as its records, in order, with the response
      code, the AA and the TC flag of its header, in whatever case the question is spelled. The
      owners of records and the names in NS, CNAME and PTR data are labels with or without a pointer
      to any name in the packet. */
  lemma ResponseRoundTrip(id: nat, flags: Flags, asked: seq<byte>, name: seq<byte>, queryType: QueryType,
                          records: seq<Record>, authority: nat, additional: nat, rest: seq<byte>)
    requires id < 0x1_0000 && flags.Valid() && authority < 0x1_0000 && additional < 0x1_0000
    requires |records| < 0x1_0000 && ValidRecords(records) && Spelled(asked, name)
    requires AllReadable(ResponsePacket(id, flags, asked, queryType, records, authority, additional, rest), records)
    ensures
      var packet := ResponsePacket(id, flags, asked, queryType, records, authority, additional, rest);
      && NameAt(packet, 12) == Ok(asked)
      && ResponseOf(packet, id, name, queryType)
         == Ok(QueryResponse(name, queryType, flags.rcode, flags.authoritative, flags.truncated,
                             ExpectedAnswers(packet, records)))
  {
    var packet := ResponsePacket(id, flags, asked, queryType, records, authority, additional, rest);
    PartsFound(packet, id, flags.Word(), asked, name, queryType, |records|, EncodeRecords(records), authority,
               additional, rest);
    RecordsAreRead(packet, |asked| + 18, records);
    WordIsRead(flags);
    ResponseIsRead(packet, id, flags.Word(), asked, name, queryType, |records|, ExpectedAnswers(packet, records));
  }

  /** The query itself is read by the same rules: its one question is the name asked for. */
  lemma QueryIsReadable(id: nat, name: seq<byte>, queryType: QueryType)
    requires id < 0x1_0000 && CanonicalName(name)
    ensures
      var packet := QueryPacket(id, name, queryType);
      NameAt(packet, 12) == Ok(name) && WireEnd(packet, 12) + 4 == |packet|
  {
    var packet, question := QueryPacket(id, name, queryType), Question(name, queryType);
    QueryBytes(id, name, queryType);
    assert Holds(packet, 12, question);
    CanonicalNameFacts(name);
    var end := QuestionIsRead(packet, name, name, queryType);
  }

  // ----- a chain of two answers -----

  /** The name's CNAME, and the address of the host it names; the second owner is a pointer to
      the first record's data. */
  function AliasRecords(alias: seq<seq<byte>>, octets: seq<byte>, ttl: nat, at: nat): seq<Record> {
    [Record(WireName([], Some(12)), 5, 1, ttl, Target(WireName(alias, None))),
     Record(WireName([], Some(at)), 1, 1, ttl, V4(octets))]
  }

  lemma FirstRecordData(packet: seq<byte>, at: nat, r: Record, records: seq<byte>)
    requires ValidRecord(r) && r.owner == WireName([], Some(12)) && Holds(packet, at, EncodeRecord(r) + records)
    ensures Holds(packet, at + 12, BodyBytes(r.body))
  {
    HoldsParts(packet, at, EncodeRecord(r), records);
    var fields, end := RecordHeld(packet, at, r);
    assert NameBytes(r.owner) == U16(0xc00c);
  }

  lemma PairConcat(a: seq<byte>, b: seq<byte>)
    ensures Concat([a, b]) == a + b
  {
    assert [a, b][..1] == [a] && [a][..0] == [];
    assert Concat([a]) == a;
  }

  lemma TwoRecords(first: Record, second: Record)
    requires ValidRecord(first) && ValidRecord(second)
    ensures ValidRecords([first, second])
    ensures EncodeRecords([first, second]) == EncodeRecord(first) + EncodeRecord(second)
  {
    assert Encodings([first, second]) == [EncodeRecord(first), EncodeRecord(second)];
    PairConcat(EncodeRecord(first), EncodeRecord(second));
  }

  lemma AliasRecordsValid(alias: seq<seq<byte>>, octets: seq<byte>, ttl: nat, at: nat)
    requires WireLabels(alias) && |EncodeLabels(alias)| < 0xffff && |octets| == 4 && ttl < 0x1_0000_0000 && at < 0x4000
    ensures ValidRecords(AliasRecords(alias, octets, ttl, at))
  {
    var records := AliasRecords(alias, octets, ttl, at);
    assert ValidRecord(records[0]) && ValidRecord(records[1]);
  }

  lemma AliasTargets(packet: seq<byte>, start: nat, name: seq<byte>, alias: seq<seq<byte>>, octets: seq<byte>, ttl: nat)
    requires WireLabels(alias) && |EncodeLabels(alias)| < 0xffff && |octets| == 4 && ttl < 0x1_0000_0000
    requires start + 12 < 0x4000 && NameAt(packet, 12) == Ok(name) && name != []
    requires ValidRecords(AliasRecords(alias, octets, ttl, start + 12))
    requires Holds(packet, start, EncodeRecords(AliasRecords(alias, octets, ttl, start + 12)))
    ensures Denoted(packet, WireName([], Some(12))) == Ok(name)
    ensures Denoted(packet, WireName([], Some(start + 12))) == Ok(Join(alias, DOT))
  {
    var records := AliasRecords(alias, octets, ttl, start + 12);
    TwoRecords(records[0], records[1]);
    FirstRecordData(packet, start, records[0], EncodeRecord(records[1]));
    NameIsRead(packet, start + 12, WireName(alias, None));
    assert [] + [name] == [name] && [] + [Join(alias, DOT)] == [Join(alias, DOT)];
  }

  function AliasAnswers(name: seq<byte>, alias: seq<byte>, octets: seq<byte>, ttl: nat): seq<Answer> {
    [Answer(name, 5, 1, ttl, Name(alias)), Answer(alias, 1, 1, ttl, Address4(octets))]
  }

  lemma AliasAnswered(packet: seq<byte>, name: seq<byte>, alias: seq<seq<byte>>, octets: seq<byte>, ttl: nat, at: nat)
    requires Denoted(packet, WireName([], Some(12))) == Ok(name)
    requires Denoted(packet, WireName([], Some(at))) == Ok(Join(alias, DOT))
    ensures AllReadable(packet, AliasRecords(alias, octets, ttl, at))
    ensures ExpectedAnswers(packet, AliasRecords(alias, octets, ttl, at))
      == AliasAnswers(name, Join(alias, DOT), octets, ttl)
  {
    var records := AliasRecords(alias, octets, ttl, at);
    assert Readable(packet, records[0]) && Readable(packet, records[1]);
  }

  /** An alias and its address, the second owner being a pointer into the first record: the
      client reads the name's alias, and the address under the alias. */
  lemma AliasChainIsRead(id: nat, flags: Flags, asked: seq<byte>, name: seq<byte>, queryType: QueryType,
                         alias: seq<seq<byte>>, octets: seq<byte>, ttl: nat, authority: nat, additional: nat,
                         rest: seq<byte>)
    requires id < 0x1_0000 && flags.Valid() && authority < 0x1_0000 && additional < 0x1_0000 && Spelled(asked, name)
    requires WireLabels(alias) && |EncodeLabels(alias)| < 0xffff && |octets| == 4 && ttl < 0x1_0000_0000
    ensures
      var at := |asked| + 30;
      && at < 0x4000 && ValidRecords(AliasRecords(alias, octets, ttl, at))
      && ResponseOf(ResponsePacket(id, flags, asked, queryType, AliasRecords(alias, octets, ttl, at), authority,
                                   additional, rest), id, name, queryType)
         == Ok(QueryResponse(name, queryType, flags.rcode, flags.authoritative, flags.truncated,
                             AliasAnswers(asked, Join(alias, DOT), octets, ttl)))
  {
    var at := |asked| + 30;
    CanonicalNameFacts(name);
    SpelledLabels(asked, name);
    AliasRecordsValid(alias, octets, ttl, at);
    var records := AliasRecords(alias, octets, ttl, at);
    var packet := ResponsePacket(id, flags, asked, queryType, records, authority, additional, rest);
    AnswersBegin(id, flags, asked, name, queryType, records, authority, additional, rest);
    AliasTargets(packet, |asked| + 18, asked, alias, octets, ttl);
    AliasAnswered(packet, asked, alias, octets, ttl, at);
    ResponseRoundTrip(id, flags, asked, name, queryType, records, authority, additional, rest);
  }
}
