/** The DNS message (`DnsPacket`): the twelve-byte header of RFC 1035
    section 4.1.1, then the questions and the answers. */
module Packet {
  import opened Wire
  import opened Codes
  import opened NameCodec
  import opened QuestionCodec
  import opened RecordCodec

  datatype DnsPacket = DnsPacket(
    id: uint16,
    queryOrResponse: QueryOrResponse,
    opcode: Opcode,
    authoritativeAnswer: bool,
    truncated: bool,
    recursionDesired: bool,
    recursionAvailable: bool,
    responseCode: ResponseCode,
    questions: seq<Question>,
    answers: seq<ResourceRecord>)

  /** The header fields, as they stand in the first twelve bytes: the flag
      bits unpacked, and the question and answer counts. The name-server
      and additional-record counts are always written as zero and never
      read. */
  datatype Header = Header(
    id: uint16,
    queryOrResponse: QueryOrResponse,
    opcode: Opcode,
    authoritativeAnswer: bool,
    truncated: bool,
    recursionDesired: bool,
    recursionAvailable: bool,
    responseCode: ResponseCode,
    questionCount: uint16,
    answerCount: uint16)

  /** `DnsPacket::new_query`: a recursive standard query for one question. */
  function NewQuery(packetId: uint16, domainName: Name, recordType: RecordType): (p: DnsPacket)
    ensures p.id == packetId && p.queryOrResponse == Query && p.opcode == StandardQuery
    ensures !p.authoritativeAnswer && !p.truncated && p.recursionDesired && !p.recursionAvailable
    ensures p.responseCode == NoError
    ensures p.questions == [NewQuestion(domainName, recordType)] && p.answers == []
  {
    DnsPacket(packetId, Query, StandardQuery, false, false, true, false, NoError,
      [NewQuestion(domainName, recordType)], [])
  }

  // Encoding

  /** `b as u8`. */
  function Bit(b: bool): (r: nat)
    ensures r < 2 && (r == 1 <==> b)
  {
    if b then 1 else 0
  }

  /** The third header byte, `qr << 7 | opcode << 3 | aa << 2 | tc << 1 | rd`.
      The fields occupy disjoint bits, so the `|` of the shifted values is
      their sum (see `FlagBitsAreDisjoint`). */
  function FlagsHigh(h: Header): (r: uint8)
    ensures r >= 0x80 <==> h.queryOrResponse == Response
    ensures r % 2 == Bit(h.recursionDesired)
  {
    QueryOrResponseValue(h.queryOrResponse) * 0x80 + OpcodeValue(h.opcode) * 8
      + Bit(h.authoritativeAnswer) * 4 + Bit(h.truncated) * 2 + Bit(h.recursionDesired)
  }

  /** The fourth header byte, `ra << 7 | rcode`. */
  function FlagsLow(h: Header): (r: uint8)
    ensures r >= 0x80 <==> h.recursionAvailable
    ensures r % 0x10 == ResponseCodeValue(h.responseCode)
  {
    Bit(h.recursionAvailable) * 0x80 + ResponseCodeValue(h.responseCode)
  }

  /** The header `to_buffer` writes: id, the two flag bytes, the two counts
      and two zero counts, each big-endian. */
  function HeaderBytes(h: Header): (b: Bytes)
    ensures |b| == 12
  {
    U16Bytes(h.id) + [FlagsHigh(h)] + [FlagsLow(h)]
      + U16Bytes(h.questionCount) + U16Bytes(h.answerCount) + U16Bytes(0) + U16Bytes(0)
  }

  /** The header of a packet; `len() as u16` keeps the low sixteen bits of
      each count. */
  function HeaderOf(p: DnsPacket): Header
  {
    Header(p.id, p.queryOrResponse, p.opcode, p.authoritativeAnswer, p.truncated,
      p.recursionDesired, p.recursionAvailable, p.responseCode,
      |p.questions| % 0x1_0000, |p.answers| % 0x1_0000)
  }

  /** The questions, each as `extend_to_buffer` writes it, in order. */
  function QuestionsBytes(qs: seq<Question>): Bytes
    decreases |qs|
  {
    if qs == [] then [] else QuestionBytes(qs[0]) + QuestionsBytes(qs[1..])
  }

  /** What `to_buffer` returns: the header, then the questions. No answer
      is written, although the answer count is. */
  function PacketBytes(p: DnsPacket): Bytes
  {
    HeaderBytes(HeaderOf(p)) + QuestionsBytes(p.questions)
  }

  /** `DnsPacket::to_buffer`. */
  method ToBuffer(p: DnsPacket) returns (buffer: Bytes)
    ensures buffer == PacketBytes(p)
  {
    buffer := [];
    buffer := buffer + U16Bytes(p.id);
    buffer := buffer + [QueryOrResponseValue(p.queryOrResponse) * 0x80 + OpcodeValue(p.opcode) * 8
      + Bit(p.authoritativeAnswer) * 4 + Bit(p.truncated) * 2 + Bit(p.recursionDesired)];
    buffer := buffer + [Bit(p.recursionAvailable) * 0x80 + ResponseCodeValue(p.responseCode)];
    buffer := buffer + U16Bytes(|p.questions| % 0x1_0000);
    buffer := buffer + U16Bytes(|p.answers| % 0x1_0000);
    buffer := buffer + U16Bytes(0);
    buffer := buffer + U16Bytes(0);
    HeaderWrites(p);
    ghost var header := buffer;

    for i := 0 to |p.questions|
      invariant Written(p, header, i, buffer)
    {
      ghost var before := buffer;
      buffer := ExtendToBuffer(p.questions[i], buffer);
      WrittenStep(p, header, i, before, buffer);
    }
    assert p.questions[..|p.questions|] == p.questions;
  }

  /** The header written piece by piece, as `to_buffer` does. */
  lemma HeaderWrites(p: DnsPacket)
    ensures var h := HeaderOf(p);
      [] + U16Bytes(p.id)
      + [QueryOrResponseValue(p.queryOrResponse) * 0x80 + OpcodeValue(p.opcode) * 8
         + Bit(p.authoritativeAnswer) * 4 + Bit(p.truncated) * 2 + Bit(p.recursionDesired)]
      + [Bit(p.recursionAvailable) * 0x80 + ResponseCodeValue(p.responseCode)]
      + U16Bytes(|p.questions| % 0x1_0000) + U16Bytes(|p.answers| % 0x1_0000)
      + U16Bytes(0) + U16Bytes(0)
      == HeaderBytes(h)
  {
    assert [] + U16Bytes(p.id) == U16Bytes(p.id);
  }

  /** The invariant of the question loop of `to_buffer`: the header, then
      the first `i` questions. */
  predicate Written(p: DnsPacket, header: Bytes, i: nat, buffer: Bytes)
    requires i <= |p.questions|
  {
    header == HeaderBytes(HeaderOf(p)) && buffer == header + QuestionsBytes(p.questions[..i])
  }

  /** One turn of the question loop of `to_buffer`. */
  lemma WrittenStep(p: DnsPacket, header: Bytes, i: nat, before: Bytes, after: Bytes)
    requires i < |p.questions| && Written(p, header, i, before)
    requires after == before + NameBytes(p.questions[i].name) + CodeBytes(p.questions[i])
    ensures Written(p, header, i + 1, after)
  {
    QuestionsBytesPrefix(p.questions, i);
    AppendThree(header, QuestionsBytes(p.questions[..i]), NameBytes(p.questions[i].name), CodeBytes(p.questions[i]));
  }

  /** Regrouping four appended pieces. Proved apart from `WrittenStep`,
      whose many facts about the packet make the same step slow. */
  lemma AppendThree<T>(a: seq<T>, b: seq<T>, c: seq<T>, d: seq<T>)
    ensures a + b + c + d == a + (b + (c + d))
  {
  }

  /** The encoding of the first `i + 1` questions extends that of the
      first `i` by question `i`. */
  lemma QuestionsBytesPrefix(qs: seq<Question>, i: nat)
    requires i < |qs|
    ensures QuestionsBytes(qs[..i + 1]) == QuestionsBytes(qs[..i]) + QuestionBytes(qs[i])
  {
    assert qs[..i + 1] == qs[..i] + [qs[i]];
    QuestionsBytesSnoc(qs[..i], qs[i]);
  }

  /** Appending a question appends its encoding. */
  lemma {:induction false} QuestionsBytesSnoc(qs: seq<Question>, q: Question)
    ensures QuestionsBytes(qs + [q]) == QuestionsBytes(qs) + QuestionBytes(q)
    decreases |qs|
  {
    if qs == [] {
      assert [] + [q] == [q];
    } else {
      assert (qs + [q])[1..] == qs[1..] + [q];
      QuestionsBytesSnoc(qs[1..], q);
    }
  }

  // Decoding

  /** The header fields `from_buffer` reads, from bytes 0 to 7. Bytes 0 to
      2 are needed before the opcode is checked, byte 3 before the response
      code, bytes 4 to 7 for the counts. The top bit of byte 2 is always 0
      or 1, so the `panic!` for any other query/response value cannot be
      reached. */
  function HeaderAt(buf: Bytes): (r: Result<Header>)
    ensures |buf| < 3 ==> r == Err(OutOfBounds)
    ensures r.Ok? ==> 8 <= |buf| && r.value.id == BeU16(buf[0], buf[1])
    ensures r.Ok? ==> (r.value.queryOrResponse == Response <==> buf[2] >= 0x80)
    ensures r.Ok? ==> r.value.questionCount == BeU16(buf[4], buf[5]) && r.value.answerCount == BeU16(buf[6], buf[7])
  {
    if |buf| < 3 then Err(OutOfBounds)
    else
      var id := BeU16(buf[0], buf[1]);
      var queryOrResponse := if buf[2] / 0x80 == 0 then Query else Response;
      var opcode :- OpcodeFromValue((buf[2] / 8) % 0x10);
      var authoritativeAnswer := (buf[2] / 4) % 2 == 1;
      var truncated := (buf[2] / 2) % 2 == 1;
      var recursionDesired := buf[2] % 2 == 1;
      if |buf| < 4 then Err(OutOfBounds)
      else
        var recursionAvailable := (buf[3] / 0x80) % 2 == 1;
        var responseCode :- ResponseCodeFromValue(buf[3] % 0x10);
        if |buf| < 8 then Err(OutOfBounds)
        else
          Ok(Header(id, queryOrResponse, opcode, authoritativeAnswer, truncated, recursionDesired,
            recursionAvailable, responseCode, BeU16(buf[4], buf[5]), BeU16(buf[6], buf[7])))
  }

  /** `count` items read one after another from `off` by `read`, each
      starting where the one before it ended, and the cursor after the
      last: what each of the two loops of `from_buffer` computes. */
  function Many<T>(read: nat -> Result<Parsed<T>>, off: nat, count: nat): (r: Result<Parsed<seq<T>>>)
    ensures r.Ok? ==> |r.value.value| == count
    decreases count
  {
    if count == 0 then Ok(Parsed([], off))
    else
      var first :- read(off);
      var rest :- Many(read, first.next, count - 1);
      Ok(Parsed([first.value] + rest.value, rest.next))
  }

  /** `Question::from_buffer` as a reader for `Many`. */
  function QuestionReader(buf: Bytes): nat -> Result<Parsed<Question>>
  {
    (off: nat) => QuestionAt(buf, off)
  }

  /** `ResourceRecord::from_buffer` as a reader for `Many`. */
  function RecordReader(buf: Bytes): nat -> Result<Parsed<ResourceRecord>>
  {
    (off: nat) => RecordAt(buf, off)
  }

  /** The packet whose encoding is `buf`: the header, then the questions
      from offset 12, then the answers, over one cursor. */
  function PacketAt(buf: Bytes): (r: Result<DnsPacket>)
  {
    var h :- HeaderAt(buf);
    var questions :- Many(QuestionReader(buf), 12, h.questionCount);
    var answers :- Many(RecordReader(buf), questions.next, h.answerCount);
    Ok(DnsPacket(h.id, h.queryOrResponse, h.opcode, h.authoritativeAnswer, h.truncated,
      h.recursionDesired, h.recursionAvailable, h.responseCode, questions.value, answers.value))
  }

  /** The items read so far, in front of what the rest of a loop reads. */
  function Prepend<T>(done: seq<T>, rest: Result<Parsed<seq<T>>>): Result<Parsed<seq<T>>>
  {
    if rest.Ok? then Ok(Parsed(done + rest.value.value, rest.value.next)) else rest
  }

  /** `DnsPacket::from_buffer`: the header, then the two loops. */
  method FromBuffer(buf: Bytes) returns (r: Result<DnsPacket>)
    ensures r == PacketAt(buf)
  {
    if |buf| < 3 {
      return Err(OutOfBounds);
    }
    var id := BeU16(buf[0], buf[1]);
    var queryOrResponse := if buf[2] / 0x80 == 0 then Query else Response;
    var opcode := OpcodeFromValue((buf[2] / 8) % 0x10);
    if opcode.Err? {
      return Err(opcode.error);
    }
    var authoritativeAnswer := (buf[2] / 4) % 2 == 1;
    var truncated := (buf[2] / 2) % 2 == 1;
    var recursionDesired := buf[2] % 2 == 1;
    if |buf| < 4 {
      return Err(OutOfBounds);
    }
    var recursionAvailable := (buf[3] / 0x80) % 2 == 1;
    var responseCode := ResponseCodeFromValue(buf[3] % 0x10);
    if responseCode.Err? {
      return Err(responseCode.error);
    }
    if |buf| < 8 {
      return Err(OutOfBounds);
    }
    var questionCount := BeU16(buf[4], buf[5]);
    var answerCount := BeU16(buf[6], buf[7]);
    assert HeaderAt(buf) == Ok(Header(id, queryOrResponse, opcode.value, authoritativeAnswer,
      truncated, recursionDesired, recursionAvailable, responseCode.value, questionCount, answerCount));

    var questions := QuestionsFromBuffer(buf, 12, questionCount);
    if questions.Err? {
      return Err(questions.error);
    }
    var answers := AnswersFromBuffer(buf, questions.value.next, answerCount);
    if answers.Err? {
      return Err(answers.error);
    }
    return Ok(DnsPacket(id, queryOrResponse, opcode.value, authoritativeAnswer, truncated,
      recursionDesired, recursionAvailable, responseCode.value, questions.value.value, answers.value.value));
  }

  /** The question loop of `from_buffer`, `count` times over the shared
      cursor. */
  method QuestionsFromBuffer(buf: Bytes, start: nat, count: nat) returns (r: Result<Parsed<seq<Question>>>)
    ensures r == Many(QuestionReader(buf), start, count)
  {
    ghost var read := QuestionReader(buf);
    var offset := start;
    var questions: seq<Question> := [];
    assert Many(read, start, count).Ok? ==> [] + Many(read, start, count).value.value == Many(read, start, count).value.value;
    for i := 0 to count
      invariant LoopState(read, start, count, i, offset, questions)
    {
      var question := QuestionFromBuffer(buf, offset);
      assert question == read(offset);
      if question.Err? {
        LoopStop(read, start, count, i, offset, questions, question);
        return Err(question.error);
      }
      ghost var before := questions;
      questions := questions + [question.value.value];
      LoopStep(read, start, count, i, offset, before, question, questions);
      offset := question.value.next;
    }
    LoopEnd(read, start, count, offset, questions);
    return Ok(Parsed(questions, offset));
  }

  /** The answer loop of `from_buffer`, `count` times over the shared
      cursor. */
  method AnswersFromBuffer(buf: Bytes, start: nat, count: nat) returns (r: Result<Parsed<seq<ResourceRecord>>>)
    ensures r == Many(RecordReader(buf), start, count)
  {
    ghost var read := RecordReader(buf);
    var offset := start;
    var answers: seq<ResourceRecord> := [];
    assert Many(read, start, count).Ok? ==> [] + Many(read, start, count).value.value == Many(read, start, count).value.value;
    for i := 0 to count
      invariant LoopState(read, start, count, i, offset, answers)
    {
      var answer := RecordFromBuffer(buf, offset);
      assert answer == read(offset);
      if answer.Err? {
        LoopStop(read, start, count, i, offset, answers, answer);
        return Err(answer.error);
      }
      ghost var before := answers;
      answers := answers + [answer.value.value];
      LoopStep(read, start, count, i, offset, before, answer, answers);
      offset := answer.value.next;
    }
    LoopEnd(read, start, count, offset, answers);
    return Ok(Parsed(answers, offset));
  }

  /** The invariant of either loop: after `i` turns, the items read so far
      and those the remaining turns read make up all `count`. */
  ghost predicate LoopState<T>(read: nat -> Result<Parsed<T>>, start: nat, count: nat, i: nat, off: nat, done: seq<T>)
    requires i <= count
  {
    Many(read, start, count) == Prepend(done, Many(read, off, count - i))
  }

  /** One turn of a loop: the item `x` at the cursor joins those read so
      far, `done`, giving `later`. */
  lemma LoopStep<T>(read: nat -> Result<Parsed<T>>, start: nat, count: nat, i: nat, off: nat, done: seq<T>,
                    x: Result<Parsed<T>>, later: seq<T>)
    requires i < count && x == read(off) && x.Ok? && later == done + [x.value.value]
    requires LoopState(read, start, count, i, off, done)
    ensures LoopState(read, start, count, i + 1, x.value.next, later)
  {
    assert count - i - 1 == count - (i + 1);
    var rest := Many(read, x.value.next, count - (i + 1));
    if rest.Ok? {
      assert done + ([x.value.value] + rest.value.value) == later + rest.value.value;
    }
  }

  /** An item that fails to parse ends the loop with its error. */
  lemma LoopStop<T>(read: nat -> Result<Parsed<T>>, start: nat, count: nat, i: nat, off: nat, done: seq<T>,
                    x: Result<Parsed<T>>)
    requires i < count && x == read(off) && x.Err?
    requires LoopState(read, start, count, i, off, done)
    ensures Many(read, start, count) == Err(x.error)
  {
  }

  /** After the last turn, the items read are all of them. */
  lemma LoopEnd<T>(read: nat -> Result<Parsed<T>>, start: nat, count: nat, off: nat, done: seq<T>)
    requires LoopState(read, start, count, count, off, done)
    ensures Many(read, start, count) == Ok(Parsed(done, off))
  {
    assert done + [] == done;
  }

  // Properties

  /** Each field of the third header byte is read back from the bits where
      `to_buffer` put it. */
  lemma FlagsHighFields(h: Header)
    ensures var b := FlagsHigh(h);
      && b / 0x80 == QueryOrResponseValue(h.queryOrResponse)
      && (b / 8) % 0x10 == OpcodeValue(h.opcode)
      && ((b / 4) % 2 == 1 <==> h.authoritativeAnswer)
      && ((b / 2) % 2 == 1 <==> h.truncated)
      && (b % 2 == 1 <==> h.recursionDesired)
  {
    var rest := OpcodeValue(h.opcode) * 8 + Bit(h.authoritativeAnswer) * 4
      + Bit(h.truncated) * 2 + Bit(h.recursionDesired);
    assert FlagsHigh(h) == QueryOrResponseValue(h.queryOrResponse) * 0x80 + rest;
    assert rest < 0x80;
  }

  /** Each field of the fourth header byte is read back likewise. */
  lemma FlagsLowFields(h: Header)
    ensures var b := FlagsLow(h);
      && ((b / 0x80) % 2 == 1 <==> h.recursionAvailable)
      && b % 0x10 == ResponseCodeValue(h.responseCode)
  {
  }

  /** The shifts and `|` of the source give the sums `FlagsHigh` and
      `FlagsLow` compute, the fields occupying disjoint bits; and the
      shifts and masks of the decoder are the divisions and remainders of
      `HeaderAt`. */
  lemma FlagBitsAreDisjoint(qr: bv8, opcode: bv8, aa: bv8, tc: bv8, rd: bv8, b: bv8)
    requires qr < 2 && opcode < 0x10 && aa < 2 && tc < 2 && rd < 2
    ensures (qr << 7) | (opcode << 3) | (aa << 2) | (tc << 1) | rd
         == qr * 0x80 + opcode * 8 + aa * 4 + tc * 2 + rd
    ensures (b >> 7) == b / 0x80 && (b >> 3) & 0xF == (b / 8) % 0x10
    ensures (b >> 2) & 1 == (b / 4) % 2 && (b >> 1) & 1 == (b / 2) % 2 && b & 1 == b % 2
    ensures b & 0xF == b % 0x10
  {
  }

  /** Where `to_buffer` puts each header field: the id, the two flag
      bytes, the question and answer counts, and four zero bytes. */
  lemma HeaderLayout(h: Header)
    ensures var b := HeaderBytes(h);
      && b[..2] == U16Bytes(h.id) && b[2] == FlagsHigh(h) && b[3] == FlagsLow(h)
      && b[4..6] == U16Bytes(h.questionCount) && b[6..8] == U16Bytes(h.answerCount)
      && b[8..] == [0, 0, 0, 0]
  {
  }

  /** The output of `to_buffer`: the header of the packet, whose counts are
      the numbers of questions and answers modulo 65536, then the questions
      in order and nothing else. */
  lemma PacketLayout(p: DnsPacket)
    ensures var b := PacketBytes(p);
      && b[..12] == HeaderBytes(HeaderOf(p)) && b[12..] == QuestionsBytes(p.questions)
      && HeaderOf(p).questionCount == |p.questions| % 0x1_0000
      && HeaderOf(p).answerCount == |p.answers| % 0x1_0000
  {
  }

  /** Decoding the header `to_buffer` wrote gives back every field; the two
      counts that follow are never read. */
  lemma HeaderRoundTrip(h: Header, buf: Bytes)
    requires 12 <= |buf| && buf[..12] == HeaderBytes(h)
    ensures HeaderAt(buf) == Ok(h)
  {
    var b := HeaderBytes(h);
    assert buf[0] == b[0] && buf[1] == b[1] && buf[2] == b[2] && buf[3] == b[3];
    assert buf[4] == b[4] && buf[5] == b[5] && buf[6] == b[6] && buf[7] == b[7];
    var id, qc, ac := U16Bytes(h.id), U16Bytes(h.questionCount), U16Bytes(h.answerCount);
    assert b[0] == id[0] && b[1] == id[1];
    assert b[2] == FlagsHigh(h) && b[3] == FlagsLow(h);
    assert b[4] == qc[0] && b[5] == qc[1] && b[6] == ac[0] && b[7] == ac[1];
    FlagsHighFields(h);
    FlagsLowFields(h);
    CodesRoundTrip(QueryType.A, IN, h.opcode, h.responseCode);
  }

  /** The header decodes exactly when the first eight bytes are there and
      hold a known opcode and a known response code. Eight bytes suffice:
      the name-server and additional-record counts are never read. */
  lemma HeaderAtSucceeds(buf: Bytes)
    ensures HeaderAt(buf).Ok?
        <==> 8 <= |buf| && (buf[2] / 8) % 0x10 <= 2 && buf[3] % 0x10 <= 5
  {
  }

  /** An opcode other than the three known ones is reported, with its
      value, before anything past byte 2 is looked at. */
  lemma UnknownOpcodeRejected(buf: Bytes)
    requires 3 <= |buf| && (buf[2] / 8) % 0x10 > 2
    ensures HeaderAt(buf) == Err(UnknownOpcode((buf[2] / 8) % 0x10))
  {
  }

  /** A response code from 6 to 15 is reported, with its value. */
  lemma UnknownResponseCodeRejected(buf: Bytes)
    requires 4 <= |buf| && (buf[2] / 8) % 0x10 <= 2 && buf[3] % 0x10 > 5
    ensures HeaderAt(buf) == Err(UnknownResponseCode(buf[3] % 0x10))
  {
  }

  /** An eight-byte buffer with zero counts and known codes decodes to a
      packet with no question and no answer. */
  lemma EightByteMessage(buf: Bytes)
    requires |buf| == 8 && (buf[2] / 8) % 0x10 <= 2 && buf[3] % 0x10 <= 5
    requires buf[4] == 0 && buf[5] == 0 && buf[6] == 0 && buf[7] == 0
    ensures PacketAt(buf).Ok?
    ensures PacketAt(buf).value.questions == [] && PacketAt(buf).value.answers == []
  {
  }

  /** Every question has a valid name (see `ValidName`). */
  predicate ValidQuestions(qs: seq<Question>)
  {
    forall k | 0 <= k < |qs| :: ValidName(qs[k].name)
  }

  /** Questions written one after another are read back one after another,
      the cursor ending just past the last. */
  lemma QuestionsRoundTrip(qs: seq<Question>, buf: Bytes, off: nat, end: nat)
    requires ValidQuestions(qs)
    requires end == off + |QuestionsBytes(qs)| && end <= |buf|
    requires buf[off..end] == QuestionsBytes(qs)
    ensures Many(QuestionReader(buf), off, |qs|) == Ok(Parsed(qs, end))
  {
    QuestionSlices(qs, buf, off);
    EachQuestionAt(qs, buf, QuestionOffsets(off, qs));
    ManyFrom(QuestionReader(buf), qs, QuestionOffsets(off, qs), off, end);
  }

  /** Where each of `qs` begins when they are written one after another
      from `off`, and where the last ends. */
  function QuestionOffsets(off: nat, qs: seq<Question>): (offs: seq<nat>)
    ensures |offs| == |qs| + 1 && offs[0] == off && offs[|qs|] == off + |QuestionsBytes(qs)|
    decreases |qs|
  {
    if qs == [] then [off]
    else
      var rest := QuestionOffsets(off + |QuestionBytes(qs[0])|, qs[1..]);
      assert QuestionsBytes(qs) == QuestionBytes(qs[0]) + QuestionsBytes(qs[1..]);
      [off] + rest
  }

  /** The offsets of the questions after the first, which begin where the
      first one ends. */
  lemma QuestionOffsetsTail(off: nat, qs: seq<Question>)
    requires qs != []
    ensures var offs := QuestionOffsets(off, qs);
      offs[1] == off + |QuestionBytes(qs[0])| && offs[1..] == QuestionOffsets(off + |QuestionBytes(qs[0])|, qs[1..])
  {
    var rest := QuestionOffsets(off + |QuestionBytes(qs[0])|, qs[1..]);
    assert ([off] + rest)[1..] == rest;
  }

  /** Question `k` is encoded in `buf` from `offs[k]` to `offs[k + 1]`. */
  predicate EncodedInTurn(buf: Bytes, qs: seq<Question>, offs: seq<nat>)
    requires |offs| == |qs| + 1
  {
    forall k {:trigger qs[k]} | 0 <= k < |qs| ::
      offs[k] + |QuestionBytes(qs[k])| == offs[k + 1] <= |buf| && buf[offs[k]..offs[k + 1]] == QuestionBytes(qs[k])
  }

  /** The encoding of the questions, cut at their offsets, gives each
      question's encoding. */
  lemma {:induction false} QuestionSlices(qs: seq<Question>, buf: Bytes, off: nat)
    requires off + |QuestionsBytes(qs)| <= |buf|
    requires buf[off..off + |QuestionsBytes(qs)|] == QuestionsBytes(qs)
    ensures EncodedInTurn(buf, qs, QuestionOffsets(off, qs))
    decreases |qs|
  {
    if qs != [] {
      var first, rest := QuestionBytes(qs[0]), QuestionsBytes(qs[1..]);
      assert QuestionsBytes(qs) == first + rest;
      SliceOfConcat(buf, off, first, rest);
      QuestionSlices(qs[1..], buf, off + |first|);
      QuestionOffsetsTail(off, qs);
      EncodedInTurnCons(buf, qs, QuestionOffsets(off, qs));
    }
  }

  /** `EncodedInTurn`, one question at a time. */
  lemma EncodedInTurnCons(buf: Bytes, qs: seq<Question>, offs: seq<nat>)
    requires |qs| > 0 && |offs| == |qs| + 1
    requires offs[0] + |QuestionBytes(qs[0])| == offs[1] <= |buf| && buf[offs[0]..offs[1]] == QuestionBytes(qs[0])
    requires EncodedInTurn(buf, qs[1..], offs[1..])
    ensures EncodedInTurn(buf, qs, offs)
  {
    forall k {:trigger qs[k]} | 0 < k < |qs|
      ensures offs[k] + |QuestionBytes(qs[k])| == offs[k + 1] <= |buf| && buf[offs[k]..offs[k + 1]] == QuestionBytes(qs[k])
    {
      var j := k - 1;
      assert offs[1..][j] == offs[k] && offs[1..][j + 1] == offs[k + 1] && qs[1..][j] == qs[k];
    }
  }

  /** Each question is read back from where its encoding begins. */
  lemma EachQuestionAt(qs: seq<Question>, buf: Bytes, offs: seq<nat>)
    requires ValidQuestions(qs) && |offs| == |qs| + 1 && EncodedInTurn(buf, qs, offs)
    ensures ReadsInTurn(QuestionReader(buf), qs, offs)
  {
    forall k | 0 <= k < |qs| ensures QuestionReader(buf)(offs[k]) == Ok(Parsed(qs[k], offs[k + 1])) {
      assert ValidName(qs[k].name);
      var end := offs[k] + |QuestionBytes(qs[k])|;
      assert end == offs[k + 1] <= |buf| && buf[offs[k]..end] == QuestionBytes(qs[k]);
      QuestionRoundTrip(qs[k], buf, offs[k]);
    }
  }

  /** `read` finds each of `items` in turn, item `k` from `offs[k]` to
      `offs[k + 1]`. */
  ghost predicate ReadsInTurn<T>(read: nat -> Result<Parsed<T>>, items: seq<T>, offs: seq<nat>)
  {
    && |offs| == |items| + 1
    && forall k | 0 <= k < |items| :: read(offs[k]) == Ok(Parsed(items[k], offs[k + 1]))
  }

  /** Items found in turn are read together by `Many`. */
  lemma {:induction false} ManyReadsInTurn<T>(read: nat -> Result<Parsed<T>>, items: seq<T>, offs: seq<nat>)
    requires ReadsInTurn(read, items, offs)
    ensures Many(read, offs[0], |items|) == Ok(Parsed(items, offs[|items|]))
    decreases |items|
  {
    if items != [] {
      forall k | 0 <= k < |items| - 1
        ensures read(offs[1..][k]) == Ok(Parsed(items[1..][k], offs[1..][k + 1]))
      {
        assert offs[1..][k] == offs[k + 1] && offs[1..][k + 1] == offs[k + 2] && items[1..][k] == items[k + 1];
      }
      ManyReadsInTurn(read, items[1..], offs[1..]);
      assert [items[0]] + items[1..] == items;
    }
  }

  /** `ManyReadsInTurn` with the first and last offsets named. */
  lemma ManyFrom<T>(read: nat -> Result<Parsed<T>>, items: seq<T>, offs: seq<nat>, off: nat, end: nat)
    requires ReadsInTurn(read, items, offs) && offs[0] == off && offs[|items|] == end
    ensures Many(read, off, |items|) == Ok(Parsed(items, end))
  {
    ManyReadsInTurn(read, items, offs);
  }

  /** A packet with no answer, fewer than 65536 questions and valid names
      comes back from its encoding unchanged. */
  lemma PacketRoundTrip(p: DnsPacket)
    requires p.answers == [] && |p.questions| < 0x1_0000
    requires ValidQuestions(p.questions)
    ensures PacketAt(PacketBytes(p)) == Ok(p)
  {
    var buf := PacketBytes(p);
    var h := HeaderOf(p);
    HeaderAndQuestionsOf(p);
    PacketAtOf(buf, h, p.questions, |buf|, [], |buf|);
  }

  /** The header and the questions of a packet with valid names are read
      back from its encoding, the questions ending at the end of it. */
  lemma HeaderAndQuestionsOf(p: DnsPacket)
    requires |p.questions| < 0x1_0000 && ValidQuestions(p.questions)
    ensures HeaderAt(PacketBytes(p)) == Ok(HeaderOf(p))
    ensures HeaderOf(p).questionCount == |p.questions|
    ensures Many(QuestionReader(PacketBytes(p)), 12, |p.questions|) == Ok(Parsed(p.questions, |PacketBytes(p)|))
  {
    assert |p.questions| % 0x1_0000 == |p.questions|;
    HeaderOfPacket(p);
    QuestionsOfPacket(p);
  }

  lemma HeaderOfPacket(p: DnsPacket)
    ensures HeaderAt(PacketBytes(p)) == Ok(HeaderOf(p))
  {
    var buf := PacketBytes(p);
    assert buf[..12] == HeaderBytes(HeaderOf(p));
    HeaderRoundTrip(HeaderOf(p), buf);
  }

  lemma QuestionsOfPacket(p: DnsPacket)
    requires ValidQuestions(p.questions)
    ensures Many(QuestionReader(PacketBytes(p)), 12, |p.questions|) == Ok(Parsed(p.questions, |PacketBytes(p)|))
  {
    var buf := PacketBytes(p);
    AfterPrefix(HeaderBytes(HeaderOf(p)), QuestionsBytes(p.questions), buf, 12);
    QuestionsRoundTrip(p.questions, buf, 12, |buf|);
  }

  /** What follows an `n`-element prefix. Stated apart from its callers so
      that the slice is taken of plain sequences, not of the encoding of a
      whole packet. */
  lemma AfterPrefix<T>(a: seq<T>, b: seq<T>, c: seq<T>, n: nat)
    requires |a| == n && c == a + b
    ensures n + |b| == |c| && c[n..|c|] == b
  {
  }

  /** A packet is read from its header, its questions and its answers. */
  lemma PacketAtOf(buf: Bytes, h: Header, qs: seq<Question>, next: nat, answers: seq<ResourceRecord>, end: nat)
    requires HeaderAt(buf) == Ok(h)
    requires Many(QuestionReader(buf), 12, h.questionCount) == Ok(Parsed(qs, next))
    requires Many(RecordReader(buf), next, h.answerCount) == Ok(Parsed(answers, end))
    ensures PacketAt(buf) == Ok(DnsPacket(h.id, h.queryOrResponse, h.opcode, h.authoritativeAnswer,
      h.truncated, h.recursionDesired, h.recursionAvailable, h.responseCode, qs, answers))
  {
  }

  /** A decoded packet has exactly as many questions and answers as the
      counts in bytes 4 to 7 say, and holds what the two loops read, the
      answers starting where the questions end. */
  lemma PacketAtCounts(buf: Bytes)
    requires PacketAt(buf).Ok?
    ensures 8 <= |buf|
    ensures var p := PacketAt(buf).value;
      && |p.questions| == BeU16(buf[4], buf[5]) && |p.answers| == BeU16(buf[6], buf[7])
      && var qs := Many(QuestionReader(buf), 12, |p.questions|);
         qs.Ok? && qs.value.value == p.questions
         && Many(RecordReader(buf), qs.value.next, |p.answers|).Ok?
         && Many(RecordReader(buf), qs.value.next, |p.answers|).value.value == p.answers
  {
  }

  /** `count` records cannot be read at the very end of the buffer. */
  lemma AnswersPastEnd(buf: Bytes, count: nat)
    requires count > 0
    ensures Many(RecordReader(buf), |buf|, count) == Err(OutOfBounds)
  {
  }

  /** `to_buffer` writes the answer count but not the answers. A decoder
      then looks for the answers past the end of the questions: with a
      count that is not zero it reads past the end; with a count that
      wraps around to zero it finds none. Either way the answers are lost. */
  lemma AnswersNotWritten(p: DnsPacket)
    requires p.answers != [] && |p.questions| < 0x1_0000
    requires ValidQuestions(p.questions)
    ensures |p.answers| % 0x1_0000 != 0 ==> PacketAt(PacketBytes(p)) == Err(OutOfBounds)
    ensures |p.answers| % 0x1_0000 == 0 ==> PacketAt(PacketBytes(p)) == Ok(p.(answers := []))
  {
    var buf := PacketBytes(p);
    var h := HeaderOf(p);
    HeaderAndQuestionsOf(p);
    if h.answerCount == 0 {
      PacketAtOf(buf, h, p.questions, |buf|, [], |buf|);
    } else {
      AnswersPastEnd(buf, h.answerCount);
    }
  }

  /** The query `new_query` builds for a valid name is decoded back to
      itself. */
  lemma NewQueryRoundTrip(packetId: uint16, domainName: Name, recordType: RecordType)
    requires ValidName(domainName)
    ensures PacketAt(PacketBytes(NewQuery(packetId, domainName, recordType)))
         == Ok(NewQuery(packetId, domainName, recordType))
  {
    PacketRoundTrip(NewQuery(packetId, domainName, recordType));
  }

  /** The two flag bytes of one header: an authoritative standard-query
      response, recursion not desired, recursion available and a name error
      is written as 0x84 and 0x83. */
  lemma ExampleFlags(id: uint16)
    ensures var h := Header(id, Response, StandardQuery, true, false, false, true, NameError, 0, 0);
      FlagsHigh(h) == 0x84 && FlagsLow(h) == 0x83
  {
  }
}
