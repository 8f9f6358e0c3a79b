/** The question section entry of RFC 1035 section 4.1.2: a name, then the
    big-endian TYPE and CLASS codes (`Question`). */
module QuestionCodec {
  import opened Wire
  import opened Utf8
  import opened Codes
  import opened NameCodec

  datatype Question = Question(name: Name, qtype: QueryType, qclass: QueryClass)

  /** `Question::new`: the name as given, the query type matching the record
      type asked for, the Internet class. */
  function NewQuestion(domainName: Name, recordType: RecordType): (q: Question)
    ensures q.name == domainName && q.qclass == IN
    ensures q.qtype == QueryType.A <==> recordType == RecordType.A
    ensures q.qtype == QueryType.MX <==> recordType == RecordType.MX
  {
    var qtype := match recordType
      case A => QueryType.A
      case MX => QueryType.MX;
    Question(domainName, qtype, IN)
  }

  // Splitting a name into labels

  /** The position of the first dot. */
  function IndexOfDot(s: Name): (i: nat)
    requires Dot in s
    ensures i < |s| && s[i] == Dot && Dot !in s[..i]
    decreases |s|
  {
    if s[0] == Dot then 0
    else
      var i := 1 + IndexOfDot(s[1..]);
      assert s[..i] == [s[0]] + s[1..][..i - 1];
      i
  }

  /** `str::split('.')`: the text between dots, so an empty name is one
      empty label and a trailing dot gives an empty last label. */
  function Split(s: Name): (labels: seq<Name>)
    ensures |labels| >= 1
    decreases |s|
  {
    if Dot in s then
      var i := IndexOfDot(s);
      [s[..i]] + Split(s[i + 1..])
    else [s]
  }

  /** No label holds a dot. */
  lemma {:induction false} SplitDotFree(s: Name)
    ensures forall k | 0 <= k < |Split(s)| :: Dot !in Split(s)[k]
    decreases |s|
  {
    if Dot in s {
      var i := IndexOfDot(s);
      SplitDotFree(s[i + 1..]);
      assert forall k | 1 <= k < |Split(s)| :: Split(s)[k] == Split(s[i + 1..])[k - 1];
    }
  }

  /** Joining the labels again gives back the name. */
  lemma {:induction false} JoinSplit(s: Name)
    ensures JoinLabels(Split(s)) == s
    decreases |s|
  {
    if Dot in s {
      var i := IndexOfDot(s);
      var rest := Split(s[i + 1..]);
      JoinSplit(s[i + 1..]);
      assert ([s[..i]] + rest)[1..] == rest;
      assert s == s[..i] + [Dot] + s[i + 1..];
    }
  }

  /** The first dot is the only dot before it. */
  lemma IndexOfDotAt(s: Name, j: nat)
    requires j < |s| && s[j] == Dot && Dot !in s[..j]
    ensures Dot in s && IndexOfDot(s) == j
  {
  }

  /** Splitting dot-free labels joined by dots gives back the labels. */
  lemma {:induction false} SplitJoin(labels: seq<Name>)
    requires |labels| >= 1
    requires forall k | 0 <= k < |labels| :: Dot !in labels[k]
    ensures Split(JoinLabels(labels)) == labels
    decreases |labels|
  {
    if |labels| > 1 {
      var first, rest := labels[0], labels[1..];
      var s := JoinLabels(labels);
      assert s == first + [Dot] + JoinLabels(rest);
      assert s[..|first|] == first;
      IndexOfDotAt(s, |first|);
      assert s[|first| + 1..] == JoinLabels(rest);
      SplitJoin(rest);
      assert labels == [first] + rest;
    }
  }

  // Encoding

  /** One label: `label.len() as u8`, then its bytes. A label longer than
      255 bytes has its length truncated to the low eight bits, as the cast
      does. */
  function LabelBytes(text: Name): (r: Bytes)
    ensures |r| == 1 + |text| && r[1..] == text
    ensures r[0] == |text| % 0x100
    ensures |text| < 0x100 ==> r[0] == |text|
  {
    [|text| % 0x100] + text
  }

  /** The labels, one after another, in order. */
  function LabelsBytes(labels: seq<Name>): Bytes
    decreases |labels|
  {
    if labels == [] then [] else LabelBytes(labels[0]) + LabelsBytes(labels[1..])
  }

  /** Appending a label appends its encoding. */
  lemma {:induction false} LabelsBytesSnoc(labels: seq<Name>, text: Name)
    ensures LabelsBytes(labels + [text]) == LabelsBytes(labels) + LabelBytes(text)
    decreases |labels|
  {
    if labels == [] {
      assert [] + [text] == [text];
    } else {
      assert (labels + [text])[1..] == labels[1..] + [text];
      LabelsBytesSnoc(labels[1..], text);
    }
  }

  /** Each label costs its length plus one byte, one byte more in all than
      the dotted text. */
  lemma {:induction false} LabelsBytesLength(labels: seq<Name>)
    requires |labels| >= 1
    ensures |LabelsBytes(labels)| == |JoinLabels(labels)| + 1
    decreases |labels|
  {
    if |labels| > 1 {
      LabelsBytesLength(labels[1..]);
    }
  }

  /** The labels and the zero byte that ends them. */
  function NameBytes(name: Name): Bytes
  {
    LabelsBytes(Split(name)) + [0]
  }

  /** The type and the class, big-endian. */
  function CodeBytes(q: Question): Bytes
  {
    U16Bytes(QueryTypeToU16(q.qtype)) + U16Bytes(QueryClassToU16(q.qclass))
  }

  /** What `extend_to_buffer` appends: the labels, a zero byte, the type
      and the class. */
  function QuestionBytes(q: Question): Bytes
  {
    NameBytes(q.name) + CodeBytes(q)
  }

  /** The encoding is six bytes longer than the dotted name, whatever the
      name: one length byte per label, less the dots, then the terminator,
      the type and the class. */
  lemma QuestionBytesLength(q: Question)
    ensures |QuestionBytes(q)| == |q.name| + 6
  {
    LabelsBytesLength(Split(q.name));
    JoinSplit(q.name);
  }

  /** `Question::extend_to_buffer`: the buffer is extended, never altered. */
  method ExtendToBuffer(q: Question, buffer: Bytes) returns (out: Bytes)
    ensures out == buffer + QuestionBytes(q)
  {
    out := buffer;
    var labels := Split(q.name);
    for i := 0 to |labels|
      invariant out == buffer + LabelsBytes(labels[..i])
    {
      PushLabel(buffer, labels, i);
      out := out + [|labels[i]| % 0x100];
      out := out + labels[i];
    }
    assert labels[..|labels|] == labels;
    out := out + [0];
    out := out + U16Bytes(QueryTypeToU16(q.qtype));
    out := out + U16Bytes(QueryClassToU16(q.qclass));
    assert out == buffer + NameBytes(q.name) + CodeBytes(q);
  }

  /** One turn of the label loop of `extend_to_buffer`. */
  lemma PushLabel(buffer: Bytes, labels: seq<Name>, i: nat)
    requires i < |labels|
    ensures buffer + LabelsBytes(labels[..i]) + [|labels[i]| % 0x100] + labels[i]
         == buffer + LabelsBytes(labels[..i + 1])
  {
    LabelsBytesSnoc(labels[..i], labels[i]);
    assert labels[..i + 1] == labels[..i] + [labels[i]];
  }

  // Decoding

  /** The question whose encoding begins at `off`, and the cursor after it. */
  function QuestionAt(buf: Bytes, off: nat): (r: Result<Parsed<Question>>)
  {
    var name :- NameAt(buf, off);
    var typeCode :- ReadU16(buf, name.next);
    var qtype :- QueryTypeFromU16(typeCode);
    var classCode :- ReadU16(buf, name.next + 2);
    var qclass :- QueryClassFromU16(classCode);
    Ok(Parsed(Question(name.value, qtype, qclass), name.next + 4))
  }

  /** `Question::from_buffer`: the name, then the two codes, the cursor
      moving past each. */
  method QuestionFromBuffer(buf: Bytes, offset: nat) returns (r: Result<Parsed<Question>>)
    ensures r == QuestionAt(buf, offset)
  {
    var name := ParseName(buf, offset);
    if name.Err? {
      return Err(name.error);
    }
    var cursor := name.value.next;

    if cursor + 1 >= |buf| {
      return Err(OutOfBounds);
    }
    var qtype := QueryTypeFromU16(BeU16(buf[cursor], buf[cursor + 1]));
    if qtype.Err? {
      return Err(qtype.error);
    }
    cursor := cursor + 2;

    if cursor + 1 >= |buf| {
      return Err(OutOfBounds);
    }
    var qclass := QueryClassFromU16(BeU16(buf[cursor], buf[cursor + 1]));
    if qclass.Err? {
      return Err(qclass.error);
    }
    cursor := cursor + 2;

    return Ok(Parsed(Question(name.value.value, qtype.value, qclass.value), cursor));
  }

  /** Decoding succeeds exactly when the name does, four more bytes
      remain, and they hold a known type and the Internet class; it then
      stops four bytes past the name. */
  lemma QuestionAtSucceeds(buf: Bytes, off: nat)
    ensures var r := QuestionAt(buf, off);
      var name := NameAt(buf, off);
      r.Ok? <==>
        && name.Ok?
        && name.value.next + 4 <= |buf|
        && BeU16(buf[name.value.next], buf[name.value.next + 1]) in {1, 15}
        && BeU16(buf[name.value.next + 2], buf[name.value.next + 3]) == 1
  {
  }

  /** A successful decode holds the name found at `off` and ends four bytes
      after it, the type and class being the codes found there. */
  lemma QuestionAtFields(buf: Bytes, off: nat)
    requires QuestionAt(buf, off).Ok?
    ensures var q := QuestionAt(buf, off).value;
      var name := NameAt(buf, off).value;
      && q.value.name == name.value
      && q.next == name.next + 4 <= |buf|
      && U16Bytes(QueryTypeToU16(q.value.qtype)) == buf[name.next..name.next + 2]
      && U16Bytes(QueryClassToU16(q.value.qclass)) == buf[name.next + 2..name.next + 4]
  {
  }

  /** An unknown type or class code is reported, with the code. */
  lemma UnknownCodesRejected(buf: Bytes, off: nat)
    requires NameAt(buf, off).Ok? && NameAt(buf, off).value.next + 4 <= |buf|
    ensures var p := NameAt(buf, off).value.next;
      var typeCode := BeU16(buf[p], buf[p + 1]);
      var classCode := BeU16(buf[p + 2], buf[p + 3]);
      && (typeCode !in {1, 15} ==> QuestionAt(buf, off) == Err(UnknownQueryType(typeCode)))
      && (typeCode in {1, 15} && classCode != 1 ==> QuestionAt(buf, off) == Err(UnknownQueryClass(classCode)))
  {
  }

  // Round trip

  /** A label the decoder reads back as written: 1 to 63 bytes of UTF-8. */
  predicate ValidLabel(text: Name)
  {
    1 <= |text| < 0x40 && IsUtf8(text)
  }

  predicate ValidLabels(labels: seq<Name>)
  {
    forall k | 0 <= k < |labels| :: ValidLabel(labels[k])
  }

  /** A name every label of which is valid: no empty label (so neither
      the empty name nor a leading, trailing or doubled dot), none longer
      than 63 bytes. */
  predicate ValidName(name: Name)
  {
    ValidLabels(Split(name))
  }

  /** `labels` are written one after another at `off`, each as its length
      byte and its bytes. */
  predicate EncodedAt(buf: Bytes, off: nat, labels: seq<Name>)
    decreases |labels|
  {
    labels == [] ||
      (var text := labels[0];
       && off + 1 + |text| <= |buf|
       && |text| < 0x100 && buf[off] == |text|
       && buf[off + 1..off + 1 + |text|] == text
       && EncodedAt(buf, off + 1 + |text|, labels[1..]))
  }

  /** A slice holding the encoding of `labels`, then `tail`, holds each
      label in turn, and `tail` where they end. */
  lemma {:induction false} EncodedAtSlice(buf: Bytes, off: nat, labels: seq<Name>, tail: Bytes)
    requires forall k | 0 <= k < |labels| :: |labels[k]| < 0x100
    requires off + |LabelsBytes(labels) + tail| <= |buf|
    requires buf[off..off + |LabelsBytes(labels) + tail|] == LabelsBytes(labels) + tail
    ensures EncodedAt(buf, off, labels)
    ensures RunEnd(off, labels) + |tail| <= |buf|
    ensures buf[RunEnd(off, labels)..RunEnd(off, labels) + |tail|] == tail
    decreases |labels|
  {
    if labels != [] {
      var text, rest := labels[0], labels[1..];
      assert LabelsBytes(labels) + tail == LabelBytes(text) + (LabelsBytes(rest) + tail);
      FirstLabelOf(buf, off, text, LabelsBytes(labels) + tail, LabelsBytes(rest) + tail);
      assert forall k | 0 <= k < |rest| :: rest[k] == labels[k + 1];
      EncodedAtSlice(buf, off + 1 + |text|, rest, tail);
    }
  }

  /** A slice holding one encoded label and then `more` holds the label's
      length byte, its bytes, and then `more`. */
  lemma FirstLabelOf(buf: Bytes, off: nat, text: Name, whole: Bytes, more: Bytes)
    requires |text| < 0x100 && whole == LabelBytes(text) + more
    requires off + |whole| <= |buf| && buf[off..off + |whole|] == whole
    ensures off + 1 + |text| + |more| <= |buf| && buf[off] == |text|
    ensures buf[off + 1..off + 1 + |text|] == text
    ensures buf[off + 1 + |text|..off + 1 + |text| + |more|] == more
  {
    SliceOfConcat(buf, off, LabelBytes(text), more);
    assert buf[off] == buf[off..off + 1 + |text|][0];
    assert buf[off + 1..off + 1 + |text|] == buf[off..off + 1 + |text|][1..];
  }

  /** The first of a run of valid labels is valid, and so is the rest. */
  lemma ValidLabelsSplit(labels: seq<Name>)
    requires labels != [] && ValidLabels(labels)
    ensures ValidLabel(labels[0]) && ValidLabels(labels[1..])
  {
    forall k | 0 <= k < |labels| - 1 ensures ValidLabel(labels[1..][k]) {
      assert labels[1..][k] == labels[k + 1];
    }
  }

  /** The cursor just past `labels`, written from `off` on. */
  function RunEnd(off: nat, labels: seq<Name>): nat
    decreases |labels|
  {
    if labels == [] then off else RunEnd(off + 1 + |labels[0]|, labels[1..])
  }

  lemma {:induction false} RunEndLength(off: nat, labels: seq<Name>)
    ensures RunEnd(off, labels) == off + |LabelsBytes(labels)|
    decreases |labels|
  {
    if labels != [] {
      RunEndLength(off + 1 + |labels[0]|, labels[1..]);
    }
  }

  /** Encoded valid labels at `off` are read back in order, each joined to
      the name built so far. */
  lemma {:induction false} LabelRun(buf: Bytes, start: nat, off: nat, name: Name, labels: seq<Name>)
    requires ValidLabels(labels) && EncodedAt(buf, off, labels)
    ensures Labels(buf, start, off, name) == Labels(buf, start, RunEnd(off, labels), JoinAll(name, labels))
    decreases |labels|
  {
    if labels != [] {
      var text := labels[0];
      ValidLabelsSplit(labels);
      LabelStep(buf, start, off, name, text);
      LabelRun(buf, start, off + 1 + |text|, Join(name, text), labels[1..]);
    }
  }

  /** Folding non-empty labels onto a name appends their dotted text. */
  lemma {:induction false} JoinAllLabels(name: Name, labels: seq<Name>)
    requires |labels| >= 1
    requires forall k | 0 <= k < |labels| :: |labels[k]| > 0
    ensures JoinAll(name, labels) == Join(name, JoinLabels(labels))
    decreases |labels|
  {
    if |labels| > 1 {
      var text, rest := labels[0], labels[1..];
      JoinAllLabels(Join(name, text), rest);
      if |name| > 0 {
        assert Join(name, text + [Dot] + JoinLabels(rest))
            == (name + [Dot] + text) + [Dot] + JoinLabels(rest);
      }
    }
  }

  /** The labels of a valid name, then a zero byte, decode to that name. */
  lemma NameOfEncoding(buf: Bytes, off: nat, name: Name)
    requires ValidName(name)
    requires off + |NameBytes(name)| <= |buf|
    requires buf[off..off + |NameBytes(name)|] == NameBytes(name)
    ensures NameAt(buf, off) == Ok(Parsed(name, off + |NameBytes(name)|))
  {
    var labels := Split(name);
    EncodedAtSlice(buf, off, labels, [0]);
    var end := RunEnd(off, labels);
    assert buf[end] == buf[end..end + 1][0];
    NameRun(buf, off, labels);
    RunEndLength(off, labels);
    JoinSplit(name);
  }

  /** Encoded valid labels at `off`, ended by a zero byte, are read back
      as their dotted text. */
  lemma NameRun(buf: Bytes, off: nat, labels: seq<Name>)
    requires |labels| >= 1 && ValidLabels(labels) && EncodedAt(buf, off, labels)
    requires RunEnd(off, labels) < |buf| && buf[RunEnd(off, labels)] == 0
    ensures NameAt(buf, off) == Ok(Parsed(JoinLabels(labels), RunEnd(off, labels) + 1))
  {
    LabelRun(buf, off, off, [], labels);
    NameEnds(buf, off, RunEnd(off, labels), JoinAll([], labels));
    JoinAllLabels([], labels);
  }

  /** A zero byte ends the name built so far. */
  lemma NameEnds(buf: Bytes, start: nat, off: nat, name: Name)
    requires off < |buf| && buf[off] == 0
    ensures Labels(buf, start, off, name) == Ok(Parsed(name, off + 1))
  {
  }

  /** Decoding what `extend_to_buffer` wrote gives back the question, and
      the cursor lands just past its encoding, whatever follows it. */
  lemma QuestionRoundTrip(q: Question, buf: Bytes, off: nat)
    requires ValidName(q.name)
    requires off + |QuestionBytes(q)| <= |buf|
    requires buf[off..off + |QuestionBytes(q)|] == QuestionBytes(q)
    ensures QuestionAt(buf, off) == Ok(Parsed(q, off + |QuestionBytes(q)|))
  {
    SliceOfConcat(buf, off, NameBytes(q.name), CodeBytes(q));
    NameOfEncoding(buf, off, q.name);
    CodesAt(buf, off + |NameBytes(q.name)|, q);
    QuestionAtOf(buf, off, q, off + |NameBytes(q.name)|);
  }

  /** The two codes of a question are read back from where they were
      written. */
  lemma CodesAt(buf: Bytes, p: nat, q: Question)
    requires p + 4 <= |buf| && buf[p..p + 4] == CodeBytes(q)
    ensures ReadU16(buf, p) == Ok(QueryTypeToU16(q.qtype))
    ensures ReadU16(buf, p + 2) == Ok(QueryClassToU16(q.qclass))
  {
    var typeCode, classCode := QueryTypeToU16(q.qtype), QueryClassToU16(q.qclass);
    assert buf[p..p + 2] == buf[p..p + 4][..2] == U16Bytes(typeCode);
    assert buf[p + 2..p + 4] == buf[p..p + 4][2..] == U16Bytes(classCode);
    ReadU16Of(buf, p, typeCode);
    ReadU16Of(buf, p + 2, classCode);
  }

  /** A question is read from its name and its two codes. */
  lemma QuestionAtOf(buf: Bytes, off: nat, q: Question, next: nat)
    requires NameAt(buf, off) == Ok(Parsed(q.name, next))
    requires ReadU16(buf, next) == Ok(QueryTypeToU16(q.qtype))
    requires ReadU16(buf, next + 2) == Ok(QueryClassToU16(q.qclass))
    ensures QuestionAt(buf, off) == Ok(Parsed(q, next + 4))
  {
    CodesRoundTrip(q.qtype, q.qclass, StandardQuery, NoError);
  }

  /** The name of RFC 1035's examples, "example.com" (the bytes 65 78 61
      6D 70 6C 65 and 63 6F 6D), from offset 0: the labels are joined by
      one dot and the cursor ends just past the zero byte, at 13. */
  lemma ExampleName()
    ensures var example: Bytes := [0x65, 0x78, 0x61, 0x6D, 0x70, 0x6C, 0x65];
      var com: Bytes := [0x63, 0x6F, 0x6D];
      NameAt([7] + example + [3] + com + [0], 0) == Ok(Parsed(example + [Dot] + com, 13))
  {
    var example: Bytes := [0x65, 0x78, 0x61, 0x6D, 0x70, 0x6C, 0x65];
    var com: Bytes := [0x63, 0x6F, 0x6D];
    var buf: Bytes := [7] + example + [3] + com + [0];
    AsciiIsUtf8(example);
    AsciiIsUtf8(com);
    var labels: seq<Name> := [example, com];
    var last: seq<Name> := [com];
    assert labels[1..] == last && last[1..] == [];
    assert buf[1..8] == example && buf[9..12] == com;
    assert EncodedAt(buf, 0, labels);
    assert ValidLabels(labels);
    LabelRun(buf, 0, 0, [], labels);
    assert JoinAll([], labels) == JoinAll(example, last);
    assert JoinAll(example, last) == JoinAll(example + [Dot] + com, []);
    assert RunEnd(0, labels) == RunEnd(8, last) == RunEnd(12, []);
  }

  /** The empty name is written as two zero bytes, an empty label and the
      terminator, and the decoder takes the second as the first byte of the
      type: the question does not come back. */
  lemma EmptyNameDoesNotRoundTrip(q: Question)
    requires q.name == []
    ensures QuestionBytes(q) == [0, 0, 0, QueryTypeToU16(q.qtype), 0, 1]
    ensures QuestionAt(QuestionBytes(q), 0) == Err(UnknownQueryType(0))
  {
    assert Dot !in q.name;
    var empty: Name := [];
    var labels: seq<Name> := [empty];
    assert Split(q.name) == labels;
    assert LabelsBytes(labels) == [0] by {
      assert labels[1..] == [];
    }
    var buf := QuestionBytes(q);
    assert buf == [0, 0, 0, QueryTypeToU16(q.qtype), 0, 1];
    assert NameAt(buf, 0) == Ok(Parsed([], 1));
  }
}
