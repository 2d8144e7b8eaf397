/**
 The DNS client's wire format (sections 4.1.1 to 4.1.4 of RFC 1035): `validate_query_name`,
 `build_query`, `parse_response` and `decode_record_data`. Rust strings are their UTF-8 bytes.
 */
module DnsMessage {
  import opened Wrappers
  import opened Bytes
  import opened Text
  import opened DomainName

  const HEADER_LENGTH := 12
  const CLASS_IN := 1

  datatype QueryType = A | Aaaa | Ptr {
    function Code(): (code: nat)
      ensures code < 0x1_0000
    {
      match this case A => 1 case Aaaa => 28 case Ptr => 12
    }
  }

  /** Record data as values; their textual rendering is the standard library's. */
  datatype RecordData =
    | Address4(octets: seq<byte>)
    | Address6(octets: seq<byte>)
    | Name(name: seq<byte>)
    | Raw(bytes: seq<byte>)

  datatype Answer = Answer(name: seq<byte>, recordType: nat, recordClass: nat, ttl: nat, data: RecordData)

  datatype QueryResponse = QueryResponse(
    name: seq<byte>, queryType: QueryType, rcode: nat, authoritative: bool, truncated: bool, answers: seq<Answer>)

  datatype DnsError =
    | InvalidName
    | ShortHeader | IdMismatch | NotAResponse | QuestionCount | QuestionMismatch
    | BadName(name: NameError)
    | TruncatedType | TruncatedClass | TruncatedTtl | TruncatedLength | TruncatedResponse | TruncatedData

  // ----- names -----

  function TrimEnd(s: seq<byte>, b: byte): seq<byte> {
    if s != [] && s[|s| - 1] == b then TrimEnd(s[..|s| - 1], b) else s
  }

  predicate NameByte(b: byte) {
    48 <= b <= 57 || 65 <= b <= 90 || 97 <= b <= 122 || b == 45 || b == 95
  }

  predicate QueryLabel(part: seq<byte>) {
    0 < |part| <= 63 && forall i :: 0 <= i < |part| ==> NameByte(part[i])
  }

  /** `validate_query_name`. */
  function ValidateQueryName(name: seq<byte>): Result<seq<byte>, DnsError> {
    var canonical := Lower(TrimEnd(name, DOT));
    var labels := Split(canonical, DOT);
    if canonical != [] && |canonical| <= 253 && (forall i :: 0 <= i < |labels| ==> QueryLabel(labels[i]))
    then Ok(canonical) else Err(InvalidName)
  }

  /** What `build_query` may be given: the results of `ValidateQueryName`. */
  ghost predicate CanonicalName(name: seq<byte>) {
    exists raw :: ValidateQueryName(raw) == Ok(name)
  }

  lemma LowerIsIdempotent(s: seq<byte>)
    ensures Lower(Lower(s)) == Lower(s)
  {
  }

  lemma CanonicalNameFacts(name: seq<byte>)
    requires CanonicalName(name)
    ensures 0 < |name| <= 253 && Lower(name) == name
    ensures forall i :: 0 <= i < |Split(name, DOT)| ==> QueryLabel(Split(name, DOT)[i])
  {
    var raw :| ValidateQueryName(raw) == Ok(name);
    LowerIsIdempotent(TrimEnd(raw, DOT));
  }

  function Dots(n: nat): seq<byte> { seq(n, _ => DOT) }

  lemma {:induction false} TrimDots(s: seq<byte>, n: nat)
    requires s != [] && s[|s| - 1] != DOT
    ensures TrimEnd(s + Dots(n), DOT) == s
  {
    var t := s + Dots(n);
    if n == 0 {
      assert t == s;
    } else {
      assert t[|t| - 1] == DOT && t[..|t| - 1] == s + Dots(n - 1);
      TrimDots(s, n - 1);
    }
  }

  function LowerAll(labels: seq<seq<byte>>): seq<seq<byte>> {
    seq(|labels|, i requires 0 <= i < |labels| => Lower(labels[i]))
  }

  lemma {:induction false} LowerJoin(labels: seq<seq<byte>>)
    ensures Lower(Join(labels, DOT)) == Join(LowerAll(labels), DOT)
  {
    if |labels| > 1 {
      LowerJoin(labels[1..]);
      assert LowerAll(labels)[1..] == LowerAll(labels[1..]);
      assert Lower(Join(labels, DOT)) == Lower(labels[0]) + [DOT] + Lower(Join(labels[1..], DOT));
    }
  }

  lemma {:induction false} JoinEnds(labels: seq<seq<byte>>)
    requires labels != [] && forall i :: 0 <= i < |labels| ==> labels[i] != []
    ensures Join(labels, DOT) != []
    ensures
      var last := labels[|labels| - 1];
      Join(labels, DOT)[|Join(labels, DOT)| - 1] == last[|last| - 1]
  {
    if |labels| > 1 {
      JoinEnds(labels[1..]);
    }
  }

  /** Labels of 1 to 63 letters, digits, hyphens and underscores, at most 253 bytes in all, are
      accepted in lower case, however many dots follow. */
  lemma ValidNameIsAccepted(labels: seq<seq<byte>>, dots: nat)
    requires labels != [] && |Join(labels, DOT)| <= 253
    requires forall i :: 0 <= i < |labels| ==> 0 < |labels[i]| <= 63
    requires forall i, k :: 0 <= i < |labels| && 0 <= k < |labels[i]| ==>
      var c := labels[i][k] as char;
      'a' <= c <= 'z' || 'A' <= c <= 'Z' || '0' <= c <= '9' || c == '-' || c == '_'
    ensures ValidateQueryName(Join(labels, DOT) + Dots(dots)) == Ok(Lower(Join(labels, DOT)))
  {
    JoinEnds(labels);
    TrimDots(Join(labels, DOT), dots);
    LowerJoin(labels);
    var lower := LowerAll(labels);
    forall i | 0 <= i < |lower| ensures QueryLabel(lower[i]) && DOT !in lower[i] {
      forall k | 0 <= k < |lower[i]| ensures NameByte(lower[i][k]) && lower[i][k] != DOT {
        assert lower[i][k] == LowerByte(labels[i][k]);
      }
    }
    SplitJoin(lower, DOT);
  }

  // ----- queries -----

  /** Length-prefixed labels; `label.len() as u8` truncates. */
  function EncodeLabels(labels: seq<seq<byte>>): seq<byte> {
    if labels == [] then [] else [|labels[0]| % 256] + labels[0] + EncodeLabels(labels[1..])
  }

  function EncodeName(labels: seq<seq<byte>>): seq<byte> { EncodeLabels(labels) + [0] }

  function Question(name: seq<byte>, queryType: QueryType): seq<byte> {
    EncodeName(Split(name, DOT)) + U16(queryType.Code()) + U16(CLASS_IN)
  }

  function QueryPacket(id: nat, name: seq<byte>, queryType: QueryType): seq<byte>
    requires id < 0x1_0000
  {
    U16(id) + U16(0x0100) + U16(1) + U16(0) + U16(0) + U16(0) + Question(name, queryType)
  }

  lemma {:induction false} EncodeLabelsAppend(front: seq<seq<byte>>, part: seq<byte>)
    ensures EncodeLabels(front + [part]) == EncodeLabels(front) + [|part| % 256] + part
  {
    if front == [] {
      assert front + [part] == [part];
    } else {
      assert (front + [part])[1..] == front[1..] + [part];
      EncodeLabelsAppend(front[1..], part);
    }
  }

  /** `build_query` appends the header, the labels one by one, and the question's tail. */
  method BuildQuery(id: nat, name: seq<byte>, queryType: QueryType) returns (packet: seq<byte>)
    requires id < 0x1_0000
    ensures packet == QueryPacket(id, name, queryType)
  {
    packet := U16(id) + U16(0x0100) + U16(1) + U16(0) + U16(0) + U16(0);
    ghost var header := packet;
    var labels := Split(name, DOT);
    for i := 0 to |labels|
      invariant packet == header + EncodeLabels(labels[..i])
    {
      assert labels[..i + 1] == labels[..i] + [labels[i]];
      EncodeLabelsAppend(labels[..i], labels[i]);
      packet := packet + [|labels[i]| % 256] + labels[i];
    }
    assert labels[..|labels|] == labels;
    packet := packet + [0] + U16(queryType.Code()) + U16(CLASS_IN);
  }

  lemma {:induction false} EncodedLength(labels: seq<seq<byte>>)
    requires |labels| >= 1
    ensures |EncodeName(labels)| == |Join(labels, DOT)| + 2
  {
    if |labels| > 1 {
      EncodedLength(labels[1..]);
    } else {
      assert EncodeLabels(labels[1..]) == [];
    }
  }

  /** The QNAME of a valid name stays within 255 octets (section 2.3.4 of RFC 1035) and the
      whole query is the name's length plus 18 bytes. */
  lemma QueryLength(id: nat, name: seq<byte>, queryType: QueryType)
    requires id < 0x1_0000 && CanonicalName(name)
    ensures |EncodeName(Split(name, DOT))| <= 255
    ensures |QueryPacket(id, name, queryType)| == |name| + 18
  {
    CanonicalNameFacts(name);
    EncodedLength(Split(name, DOT));
    JoinSplit(name, DOT);
  }

  /** The query byte by byte (section 4.1 of RFC 1035): one question, recursion desired, type A,
      AAAA or PTR, class IN. */
  lemma QueryBytes(id: nat, name: seq<byte>, queryType: QueryType)
    requires id < 0x1_0000
    ensures
      var code := match queryType case A => 1 case Aaaa => 28 case Ptr => 12;
      QueryPacket(id, name, queryType)
        == [id / 256, id % 256, 1, 0, 0, 1, 0, 0, 0, 0, 0, 0] + EncodeLabels(Split(name, DOT)) + [0, 0, code, 0, 1]
  {
  }

  // ----- responses -----

  /** `decode_record_data` on a range that lies in the packet. */
  ghost function DataAt(packet: seq<byte>, offset: nat, length: nat, recordType: nat): Result<RecordData, DnsError>
  {
    if offset + length > |packet| then Err(TruncatedData)
    else
      var bytes := packet[offset..offset + length];
      if recordType == 1 && length == 4 then Ok(Address4(bytes))
      else if recordType == 28 && length == 16 then Ok(Address6(bytes))
      else if recordType == 2 || recordType == 5 || recordType == 12 then
        match NameAt(packet, offset)
        case Ok(name) => Ok(Name(name))
        case Err(error) => Err(BadName(error))
      else Ok(Raw(bytes))
  }

  /** One answer record and the offset behind it. */
  ghost function AnswerAt(packet: seq<byte>, offset: nat): (r: Result<(Answer, nat), DnsError>)
    ensures r.Ok? ==> offset <= r.value.1 <= |packet|
  {
    match NameAt(packet, offset)
    case Err(error) => Err(BadName(error))
    case Ok(name) =>
      var at := WireEnd(packet, offset);
      if at + 2 > |packet| then Err(TruncatedType)
      else if at + 4 > |packet| then Err(TruncatedClass)
      else if at + 8 > |packet| then Err(TruncatedTtl)
      else if at + 10 > |packet| then Err(TruncatedLength)
      else
        var recordType, length := ReadU16(packet, at).value, ReadU16(packet, at + 8).value;
        if at + 10 + length > |packet| then Err(TruncatedResponse)
        else
          match DataAt(packet, at + 10, length, recordType)
          case Err(error) => Err(error)
          case Ok(data) =>
            Ok((Answer(name, recordType, ReadU16(packet, at + 2).value, ReadU32(packet, at + 4).value, data),
                at + 10 + length))
  }

  /** Consecutive records, each read by `read` where the one before ends. */
  ghost function ReadMany(read: nat -> Result<(Answer, nat), DnsError>, offset: nat, count: nat)
    : (r: Result<seq<Answer>, DnsError>)
    ensures r.Ok? ==> |r.value| == count
    decreases count
  {
    if count == 0 then Ok([])
    else
      var (answer, next) :- read(offset);
      var rest :- ReadMany(read, next, count - 1);
      Ok([answer] + rest)
  }

  ghost function AnswerReader(packet: seq<byte>): nat -> Result<(Answer, nat), DnsError> {
    (offset: nat) => AnswerAt(packet, offset)
  }

  ghost function AnswersAt(packet: seq<byte>, offset: nat, count: nat): Result<seq<Answer>, DnsError> {
    ReadMany(AnswerReader(packet), offset, count)
  }

  predicate FlagSet(flags: nat, bit: nat)
    requires bit > 0
  {
    flags / bit % 2 == 1
  }

  /** The meaning of a response packet for the query (id, name, queryType). */
  ghost function ResponseOf(packet: seq<byte>, id: nat, name: seq<byte>, queryType: QueryType)
    : Result<QueryResponse, DnsError>
  {
    if |packet| < HEADER_LENGTH then Err(ShortHeader)
    else if ReadU16(packet, 0).value != id then Err(IdMismatch)
    else
      var flags := ReadU16(packet, 2).value;
      if !FlagSet(flags, 0x8000) then Err(NotAResponse)
      else if ReadU16(packet, 4).value != 1 then Err(QuestionCount)
      else
        match NameAt(packet, HEADER_LENGTH)
        case Err(error) => Err(BadName(error))
        case Ok(questionName) =>
          var at := WireEnd(packet, HEADER_LENGTH);
          if at + 2 > |packet| then Err(TruncatedType)
          else if at + 4 > |packet| then Err(TruncatedClass)
          else if Lower(questionName) != name || ReadU16(packet, at).value != queryType.Code()
            || ReadU16(packet, at + 2).value != CLASS_IN then Err(QuestionMismatch)
          else
            var answers :- AnswersAt(packet, at + 4, ReadU16(packet, 6).value);
            Ok(QueryResponse(name, queryType, flags % 16, FlagSet(flags, 0x0400), FlagSet(flags, 0x0200), answers))
  }

  /** The header checks on the bytes of a packet, in the order of the code. */
  lemma HeaderChecks(packet: seq<byte>, id: nat, name: seq<byte>, queryType: QueryType)
    ensures |packet| < 12 ==> ResponseOf(packet, id, name, queryType) == Err(ShortHeader)
    ensures |packet| >= 12 ==>
      var idMatches, response := packet[0] as int * 256 + packet[1] as int == id, packet[2] >= 128;
      var oneQuestion, answer := packet[4] == 0 && packet[5] == 1, ResponseOf(packet, id, name, queryType);
      && (!idMatches ==> answer == Err(IdMismatch))
      && (idMatches && !response ==> answer == Err(NotAResponse))
      && (idMatches && response && !oneQuestion ==> answer == Err(QuestionCount))
      && (idMatches && response && oneQuestion && NameAt(packet, 12).Err? ==>
            answer == Err(BadName(NameAt(packet, 12).error)))
  {
  }

  /** The bytes begin as a response with this ID and one question whose name can be read. */
  ghost predicate AnswersId(packet: seq<byte>, id: nat) {
    && |packet| >= 12 && packet[0] as int * 256 + packet[1] as int == id && packet[2] >= 128
    && packet[4] == 0 && packet[5] == 1 && NameAt(packet, 12).Ok?
  }

  /** The bytes at `at`, behind a question's name, ask for this type, class IN. */
  predicate AsksAt(packet: seq<byte>, at: nat, queryType: QueryType) {
    && at + 4 <= |packet|
    && packet[at] == 0 && packet[at + 1] == (match queryType case A => 1 case Aaaa => 28 case Ptr => 12)
    && packet[at + 2] == 0 && packet[at + 3] == 1
  }

  lemma AsksAtWords(packet: seq<byte>, at: nat, queryType: QueryType)
    ensures AsksAt(packet, at, queryType)
      <==> ReadU16(packet, at) == Some(queryType.Code()) && ReadU16(packet, at + 2) == Some(CLASS_IN)
  {
  }

  lemma AnswersIdWords(packet: seq<byte>, id: nat)
    requires AnswersId(packet, id)
    ensures ReadU16(packet, 0) == Some(id) && FlagSet(ReadU16(packet, 2).value, 0x8000)
    ensures ReadU16(packet, 4) == Some(1)
    ensures ReadU16(packet, 6) == Some(packet[6] as int * 256 + packet[7] as int)
  {
    var high: nat, low: nat := packet[2], packet[3];
    assert (high * 256 + low) / 0x8000 == 1;
  }

  /** The outcome of a response whose question's name ends at `at`. */
  ghost predicate Concludes(packet: seq<byte>, at: nat, asked: bool, count: nat,
                            outcome: Result<QueryResponse, DnsError>) {
    if |packet| < at + 2 then outcome == Err(TruncatedType)
    else if |packet| < at + 4 then outcome == Err(TruncatedClass)
    else if !asked then outcome == Err(QuestionMismatch)
    else
      match AnswersAt(packet, at + 4, count)
      case Ok(answers) => outcome.Ok? && outcome.value.answers == answers
      case Err(error) => outcome == Err(error)
  }

  lemma QuestionWords(packet: seq<byte>, id: nat, name: seq<byte>, queryType: QueryType)
    requires ReadU16(packet, 0) == Some(id) && NameAt(packet, 12).Ok? && |packet| >= 12
    requires FlagSet(ReadU16(packet, 2).value, 0x8000) && ReadU16(packet, 4) == Some(1)
    ensures
      var at := WireEnd(packet, 12);
      var asked := Lower(NameAt(packet, 12).value) == name && ReadU16(packet, at) == Some(queryType.Code())
                   && ReadU16(packet, at + 2) == Some(CLASS_IN);
      Concludes(packet, at, asked, ReadU16(packet, 6).value, ResponseOf(packet, id, name, queryType))
  {
  }

  /** What follows the header checks: the question must be the one asked, in any case of its
      letters, and the answers announced must be readable. */
  lemma QuestionChecks(packet: seq<byte>, id: nat, name: seq<byte>, queryType: QueryType)
    requires AnswersId(packet, id)
    ensures
      var at := WireEnd(packet, 12);
      var asked := Lower(NameAt(packet, 12).value) == name && AsksAt(packet, at, queryType);
      Concludes(packet, at, asked, packet[6] as int * 256 + packet[7] as int, ResponseOf(packet, id, name, queryType))
  {
    AnswersIdWords(packet, id);
    QuestionWords(packet, id, name, queryType);
    AsksAtWords(packet, WireEnd(packet, 12), queryType);
  }

  /** The owner of a record can be read, and the ten bytes of type, class, TTL and length behind it
      are there, and the data that the length announces. */
  ghost predicate RecordFits(packet: seq<byte>, offset: nat) {
    && NameAt(packet, offset).Ok?
    && var at := WireEnd(packet, offset);
    at + 10 <= |packet| && at + 10 + packet[at + 8] as int * 256 + packet[at + 9] as int <= |packet|
  }

  /** A record that is cut off fails with the first part that is missing. */
  lemma RecordIsCutOff(packet: seq<byte>, offset: nat)
    requires !RecordFits(packet, offset)
    ensures
      var at := WireEnd(packet, offset);
      AnswerAt(packet, offset)
        == if NameAt(packet, offset).Err? then Err(BadName(NameAt(packet, offset).error))
           else if |packet| < at + 2 then Err(TruncatedType)
           else if |packet| < at + 4 then Err(TruncatedClass)
           else if |packet| < at + 8 then Err(TruncatedTtl)
           else if |packet| < at + 10 then Err(TruncatedLength)
           else Err(TruncatedResponse)
  {
  }

  /** What the data of a record mean: 4 bytes of type A, 16 of type AAAA, a name for NS, CNAME and
      PTR, whatever its length, and bytes otherwise. */
  lemma RecordMeans(packet: seq<byte>, offset: nat)
    requires RecordFits(packet, offset)
    ensures
      var at := WireEnd(packet, offset);
      var end := at + 10 + packet[at + 8] as int * 256 + packet[at + 9] as int;
      var bytes, recordType := packet[at + 10..end], packet[at] as int * 256 + packet[at + 1] as int;
      if recordType in {2, 5, 12} && NameAt(packet, at + 10).Err? then
        AnswerAt(packet, offset) == Err(BadName(NameAt(packet, at + 10).error))
      else
        && AnswerAt(packet, offset).Ok? && AnswerAt(packet, offset).value.1 == end
        && var answer := AnswerAt(packet, offset).value.0;
        && answer.name == NameAt(packet, offset).value && answer.recordType == recordType
        && answer.recordClass == packet[at + 2] as int * 256 + packet[at + 3] as int
        && answer.ttl == packet[at + 4] as int * 0x100_0000 + packet[at + 5] as int * 0x1_0000
                         + packet[at + 6] as int * 0x100 + packet[at + 7] as int
        && answer.data == (if recordType in {2, 5, 12} then Name(NameAt(packet, at + 10).value)
                           else if recordType == 1 && |bytes| == 4 then Address4(bytes)
                           else if recordType == 28 && |bytes| == 16 then Address6(bytes)
                           else Raw(bytes))
  {
    AnswerOfData(packet, offset);
  }

  lemma AnswerOfData(packet: seq<byte>, offset: nat)
    requires RecordFits(packet, offset)
    ensures
      var at := WireEnd(packet, offset);
      var recordType, length := packet[at] as int * 256 + packet[at + 1] as int,
                                packet[at + 8] as int * 256 + packet[at + 9] as int;
      var recordClass := packet[at + 2] as int * 256 + packet[at + 3] as int;
      var ttl := packet[at + 4] as int * 0x100_0000 + packet[at + 5] as int * 0x1_0000
                 + packet[at + 6] as int * 0x100 + packet[at + 7] as int;
      AnswerAt(packet, offset)
        == match DataAt(packet, at + 10, length, recordType)
           case Err(error) => Err(error)
           case Ok(data) =>
             Ok((Answer(NameAt(packet, offset).value, recordType, recordClass, ttl, data), at + 10 + length))
  {
  }

  /** What an accepted response says, in 16-bit words. */
  lemma AcceptedWords(packet: seq<byte>, id: nat, name: seq<byte>, queryType: QueryType)
    requires ResponseOf(packet, id, name, queryType).Ok?
    ensures
      var r, at := ResponseOf(packet, id, name, queryType).value, WireEnd(packet, 12);
      && |packet| >= at + 4 && NameAt(packet, 12).Ok? && Lower(NameAt(packet, 12).value) == name
      && ReadU16(packet, at) == Some(queryType.Code()) && ReadU16(packet, at + 2) == Some(CLASS_IN)
      && r.name == name && r.queryType == queryType && |r.answers| == ReadU16(packet, 6).value
      && var flags := ReadU16(packet, 2).value;
      && r.rcode == flags % 16 && (r.authoritative <==> FlagSet(flags, 0x0400))
      && (r.truncated <==> FlagSet(flags, 0x0200))
  {
  }

  lemma WordBytes(packet: seq<byte>, at: nat, high: byte, low: byte)
    requires at + 2 <= |packet| && ReadU16(packet, at) == Some(high as int * 256 + low as int)
    ensures packet[at] == high && packet[at + 1] == low
  {
  }

  lemma FlagBytes(high: byte, low: byte)
    ensures
      var flags := high as int * 256 + low as int;
      && flags % 16 == low % 16 && flags / 0x0400 == high / 4 && flags / 0x0200 == high / 2
  {
  }

  lemma WordsAsBytes(packet: seq<byte>, at: nat, queryType: QueryType)
    requires |packet| >= at + 4 && |packet| >= 12
    requires ReadU16(packet, at) == Some(queryType.Code()) && ReadU16(packet, at + 2) == Some(CLASS_IN)
    ensures packet[at] == 0 && packet[at + 1] == match queryType case A => 1 case Aaaa => 28 case Ptr => 12
    ensures packet[at + 2] == 0 && packet[at + 3] == 1
    ensures
      var flags := ReadU16(packet, 2).value;
      && flags % 16 == packet[3] % 16 && (FlagSet(flags, 0x0400) <==> packet[2] / 4 % 2 == 1)
      && (FlagSet(flags, 0x0200) <==> packet[2] / 2 % 2 == 1)
    ensures ReadU16(packet, 6).value == packet[6] as int * 256 + packet[7] as int
  {
    WordBytes(packet, at, 0, match queryType case A => 1 case Aaaa => 28 case Ptr => 12);
    WordBytes(packet, at + 2, 0, 1);
    FlagBytes(packet[2], packet[3]);
  }

  /** What an accepted response says, read off its bytes: the question asked, as many answers as
      announced, the response code and the AA and TC bits. */
  lemma AcceptedResponse(packet: seq<byte>, id: nat, name: seq<byte>, queryType: QueryType)
    requires ResponseOf(packet, id, name, queryType).Ok?
    ensures
      var r, at := ResponseOf(packet, id, name, queryType).value, WireEnd(packet, 12);
      && |packet| >= at + 4 && NameAt(packet, 12).Ok? && Lower(NameAt(packet, 12).value) == name
      && packet[at] == 0 && packet[at + 1] == (match queryType case A => 1 case Aaaa => 28 case Ptr => 12)
      && packet[at + 2] == 0 && packet[at + 3] == 1
      && r.name == name && r.queryType == queryType
      && |r.answers| == packet[6] as int * 256 + packet[7] as int && r.rcode == packet[3] % 16
      && (r.authoritative <==> packet[2] / 4 % 2 == 1) && (r.truncated <==> packet[2] / 2 % 2 == 1)
  {
    AcceptedWords(packet, id, name, queryType);
    WordsAsBytes(packet, WireEnd(packet, 12), queryType);
  }

  method DecodeRecordData(packet: seq<byte>, offset: nat, length: nat, recordType: nat)
    returns (result: Result<RecordData, DnsError>)
    ensures result == DataAt(packet, offset, length, recordType)
  {
    if offset + length > |packet| { return Err(TruncatedData); }
    var bytes := packet[offset..offset + length];
    if recordType == 1 && length == 4 {
      result := Ok(Address4(bytes));
    } else if recordType == 28 && length == 16 {
      result := Ok(Address6(bytes));
    } else if recordType == 2 || recordType == 5 || recordType == 12 {
      var name, _ := DecodeName(packet, offset);
      result := if name.Ok? then Ok(Name(name.value)) else Err(BadName(name.error));
    } else {
      result := Ok(Raw(bytes));
    }
  }

  /** One turn of the answer loop: the record and the advanced offset. */
  method ParseAnswer(packet: seq<byte>, offset: nat) returns (result: Result<(Answer, nat), DnsError>)
    ensures result == AnswerAt(packet, offset)
  {
    var name, at := DecodeName(packet, offset);
    if name.Err? { return Err(BadName(name.error)); }
    var recordType := ReadU16(packet, at);
    if recordType.None? { return Err(TruncatedType); }
    var recordClass := ReadU16(packet, at + 2);
    if recordClass.None? { return Err(TruncatedClass); }
    var ttl := ReadU32(packet, at + 4);
    if ttl.None? { return Err(TruncatedTtl); }
    var length := ReadU16(packet, at + 8);
    if length.None? { return Err(TruncatedLength); }
    var dataAt := at + 10;
    if dataAt + length.value > |packet| { return Err(TruncatedResponse); }
    var data := DecodeRecordData(packet, dataAt, length.value, recordType.value);
    if data.Err? { return Err(data.error); }
    var answer := Answer(name.value, recordType.value, recordClass.value, ttl.value, data.value);
    result := Ok((answer, dataAt + length.value));
  }

  ghost function After(read: seq<Answer>, rest: Result<seq<Answer>, DnsError>): Result<seq<Answer>, DnsError> {
    if rest.Ok? then Ok(read + rest.value) else rest
  }

  /** What reading the remaining records makes of those already read. */
  ghost predicate Yields(read: nat -> Result<(Answer, nat), DnsError>, offset: nat, remaining: nat,
                         answers: seq<Answer>, whole: Result<seq<Answer>, DnsError>) {
    whole == After(answers, ReadMany(read, offset, remaining))
  }

  lemma YieldsStep(read: nat -> Result<(Answer, nat), DnsError>, offset: nat, remaining: nat,
                   answers: seq<Answer>, whole: Result<seq<Answer>, DnsError>)
    requires remaining > 0 && Yields(read, offset, remaining, answers, whole)
    ensures
      match read(offset)
      case Err(error) => whole == Err(error)
      case Ok((answer, next)) => Yields(read, next, remaining - 1, answers + [answer], whole)
  {
    var first := read(offset);
    if first.Ok? {
      var rest := ReadMany(read, first.value.1, remaining - 1);
      assert rest.Ok? ==> answers + ([first.value.0] + rest.value) == (answers + [first.value.0]) + rest.value;
    }
  }

  lemma YieldsAll(read: nat -> Result<(Answer, nat), DnsError>, offset: nat, count: nat, answers: seq<Answer>,
                  whole: Result<seq<Answer>, DnsError>)
    ensures Yields(read, offset, 0, answers, whole) ==> whole == Ok(answers)
    ensures Yields(read, offset, count, [], ReadMany(read, offset, count))
  {
    assert answers + [] == answers;
    var all := ReadMany(read, offset, count);
    assert all.Ok? ==> [] + all.value == all.value;
  }

  /** One turn of the answer loop, related to all that is left to read. */
  method NextAnswer(packet: seq<byte>, offset: nat, ghost remaining: nat, ghost answers: seq<Answer>,
                    ghost whole: Result<seq<Answer>, DnsError>)
    returns (answer: Result<(Answer, nat), DnsError>)
    requires remaining > 0 && Yields(AnswerReader(packet), offset, remaining, answers, whole)
    ensures answer.Err? ==> whole == Err(answer.error)
    ensures answer.Ok? ==>
      Yields(AnswerReader(packet), answer.value.1, remaining - 1, answers + [answer.value.0], whole)
  {
    answer := ParseAnswer(packet, offset);
    YieldsStep(AnswerReader(packet), offset, remaining, answers, whole);
  }

  /** The loop of `parse_response` over the records, through a moving offset. */
  method ParseAnswers(packet: seq<byte>, start: nat, count: nat) returns (result: Result<seq<Answer>, DnsError>)
    ensures result == AnswersAt(packet, start, count)
  {
    ghost var read := AnswerReader(packet);
    ghost var whole := ReadMany(read, start, count);
    var answers: seq<Answer> := [];
    var offset, remaining := start, count;
    YieldsAll(read, start, count, [], whole);
    while remaining > 0
      invariant Yields(read, offset, remaining, answers, whole)
    {
      var answer := NextAnswer(packet, offset, remaining, answers, whole);
      if answer.Err? { return Err(answer.error); }
      answers, offset, remaining := answers + [answer.value.0], answer.value.1, remaining - 1;
    }
    YieldsAll(read, offset, 0, answers, whole);
    result := Ok(answers);
  }

  method ParseResponse(packet: seq<byte>, id: nat, name: seq<byte>, queryType: QueryType)
    returns (result: Result<QueryResponse, DnsError>)
    ensures result == ResponseOf(packet, id, name, queryType)
  {
    if |packet| < HEADER_LENGTH { return Err(ShortHeader); }
    if ReadU16(packet, 0) != Some(id) { return Err(IdMismatch); }
    var flags := ReadU16(packet, 2).value;
    if !FlagSet(flags, 0x8000) { return Err(NotAResponse); }
    var questionCount, answerCount := ReadU16(packet, 4).value, ReadU16(packet, 6).value;
    if questionCount != 1 { return Err(QuestionCount); }
    var questionName, offset := DecodeName(packet, HEADER_LENGTH);
    if questionName.Err? { return Err(BadName(questionName.error)); }
    var questionType, questionClass := ReadU16(packet, offset), ReadU16(packet, offset + 2);
    if questionType.None? { return Err(TruncatedType); }
    if questionClass.None? { return Err(TruncatedClass); }
    offset := offset + 4;
    if Lower(questionName.value) != name || questionType.value != queryType.Code() || questionClass.value != CLASS_IN {
      return Err(QuestionMismatch);
    }
    var answers := ParseAnswers(packet, offset, answerCount);
    if answers.Err? { return Err(answers.error); }
    result := Ok(QueryResponse(
      name, queryType, flags % 16, FlagSet(flags, 0x0400), FlagSet(flags, 0x0200), answers.value));
  }
}
