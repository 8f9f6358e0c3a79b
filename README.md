# DNS message codec, modelled and proved in Dafny

This project models the DNS message codec of a small DNS client: the part
that turns a query into the bytes of an RFC 1035 message and turns the
bytes of a reply back into a message. The client code that sends and
receives the messages is outside the model.

The model has four parts.

- **Name decoder** (`parse_name`). It reads length-prefixed labels and
  follows the compression pointers of RFC 1035 section 4.1.4. It joins the
  labels with dots into one name.
- **Question codec** (`Question`, section 4.1.2). It writes a name as
  labels, a zero byte, then the type and class codes. It reads them back.
- **Resource-record decoder** (`ResourceRecord`, section 4.1.3). It reads
  a name, then the type, class, TTL and data length, then the data of an A
  record (section 3.4.1) or an MX record (section 3.3.9).
- **Message envelope** (`DnsPacket`). It builds a query (`new_query`).
  It writes the twelve-byte header of section 4.1.1 and the questions
  (`to_buffer`). It reads the header back, then runs two count-driven
  loops over one shared cursor, for the questions and for the answers
  (`from_buffer`).

Files and modules:

| file | module | contents |
|---|---|---|
| `wire.dfy` | `Wire` | 8-, 16- and 32-bit unsigned integers; big-endian reads and writes; the `Error` and `Result` types |
| `utf8.dfy` | `Utf8` | what `std::str::from_utf8` accepts, as a predicate on bytes |
| `codes.dfy` | `Codes` | the header and question enumerations and their wire codes |
| `parse_name.dfy` | `NameCodec` | the name decoder, with a termination guard; the decoder as written, for comparison |
| `question.dfy` | `QuestionCodec` | question construction, encoding and decoding |
| `record.dfy` | `RecordCodec` | record decoding; a reference encoder for the round trip |
| `packet.dfy` | `Packet` | the message: `new_query`, `to_buffer`, `from_buffer` |

How the source's constructs are modelled:

- **Methods and specification functions.** Every imperative source
  function is a Dafny `method` with the same loop, branches and cursor
  steps. Its `ensures` ties the result to a pure specification function:
  `ParseName` to `NameAt`, `QuestionFromBuffer` to `QuestionAt`,
  `RecordFromBuffer` to `RecordAt`, `FromBuffer` to `PacketAt`,
  `ExtendToBuffer` to `QuestionBytes`, and `ToBuffer` to `PacketBytes`.
  The properties are proved as lemmas about those functions.
- **Cursor and buffer.** The `&mut usize` cursor is a value passed in and
  returned (`Parsed(value, next)`). The `&mut Vec<u8>` is a sequence
  returned extended. Rust's exclusive borrows rule out aliasing, so
  nothing is lost.
- **Panics.** Every `panic!`, `assert_eq!`, `unwrap` and out-of-range
  index of the source is an `Err` of the matching kind.
- **Names.** A name is the bytes of its dotted text. A label must be
  UTF-8, as `from_utf8` demands. In the source's Rust `String`, a char is
  one byte only for ASCII. On bytes, "a label of `n` bytes" is what the
  length header counts.

## Model

| member | source | states |
|---|---|---|
| Wire.U16Bytes | src/dns_packet/mod.rs:54-57 | `to_be_bytes` gives two bytes, most significant first, whose value is the integer |
| Wire.BytesOfBeU16 | src/dns_packet/question.rs:35-38 | writing back a `u16` read from two bytes gives those two bytes |
| Wire.ReadU16 | src/dns_packet/question.rs:35-39 | a 16-bit read succeeds exactly when two bytes remain at the cursor, and is otherwise out of bounds |
| Wire.ReadU16Of | src/dns_packet/question.rs:28-29 | the two bytes of a written `u16` read back as that `u16` |
| Wire.ReadU32 | src/dns_packet/record.rs:28-34 | a 32-bit read succeeds exactly when four bytes remain, and is otherwise out of bounds |
| Wire.BeU32OfBytes | src/dns_packet/record.rs:28-33 | `from_be_bytes` undoes `to_be_bytes` for every `u32` |
| Wire.BytesOfBeU32 | src/dns_packet/record.rs:43-48 | `to_be_bytes` undoes `from_be_bytes` for every four bytes |
| Wire.ReadU32Of | src/dns_packet/record.rs:28-34 | the four bytes of a written `u32` read back as that `u32` |
| Utf8.SequenceLength | src/dns_packet/parse_name.rs:35 | the well-formed sequence at the start of the bytes is a lead byte and its continuation bytes, within the bytes |
| Utf8.Utf8Equivalence | src/dns_packet/parse_name.rs:35 | the byte-by-byte statement of UTF-8 holds exactly when the bytes split, left to right, into well-formed sequences |
| Utf8.ConcatIsUtf8 | src/dns_packet/parse_name.rs:30-36 | two UTF-8 texts glued together are UTF-8 |
| Utf8.AsciiIsUtf8 | src/dns_packet/parse_name.rs:16 | ASCII bytes, such as the pushed dot, are UTF-8 |
| Codes.QueryOrResponseValue | src/dns_packet/mod.rs:47 | the QR bit is 0 or 1, and 1 exactly for a response |
| Codes.OpcodeValue | src/dns_packet/mod.rs:48 | `opcode as u8` is at most 2, a value the four-bit OPCODE field holds and the decoder accepts |
| Codes.OpcodeFromValue | src/dns_packet/mod.rs:80-85 | the OPCODE decodes exactly for 0 to 2, to the opcode whose value it is; any other value is an `UnknownOpcode` error carrying the value |
| Codes.ResponseCodeValue | src/dns_packet/mod.rs:53 | `response_code as u8` is at most 5, a value the four-bit RCODE field holds and the decoder accepts |
| Codes.ResponseCodeFromValue | src/dns_packet/mod.rs:90-98 | the RCODE decodes exactly for 0 to 5, to the code whose value it is; 6 to 15 are an `UnknownResponseCode` error |
| Codes.QueryTypeToU16 | src/dns_packet/mod.rs:188-193 | `to_u16` gives the RFC 1035 TYPE codes: 1 exactly for A, otherwise 15 (MX) |
| Codes.QueryTypeFromU16 | src/dns_packet/mod.rs:195-201 | `from_u16` is defined on exactly {1, 15} and inverts `to_u16` there; any other code is an `UnknownQueryType` error carrying the code |
| Codes.QueryClassToU16 | src/dns_packet/mod.rs:212-216 | `to_u16` gives the RFC 1035 CLASS code 1 for IN |
| Codes.QueryClassFromU16 | src/dns_packet/mod.rs:218-223 | `from_u16` is defined on exactly {1} and inverts `to_u16` there; any other code is an `UnknownQueryClass` error |
| Codes.CodesRoundTrip | src/dns_packet/mod.rs:188-223 | decoding undoes encoding for every query type, class, opcode and response code |
| NameCodec.HeaderBits | src/dns_packet/parse_name.rs:8-22 | the pointer and length tests are `header & 0xC0 == 0xC0` and `header & 0xC0 == 0` |
| NameCodec.PointerTarget | src/dns_packet/parse_name.rs:10-11 | a pointer's target is below 16384 |
| NameCodec.PointerTargetParts | src/dns_packet/parse_name.rs:10-11 | the target's high byte is the header's six low bits, and its low byte is the next byte |
| NameCodec.PointerTargetBits | src/dns_packet/parse_name.rs:11 | the arithmetic target equals the source's bit expression, the six low header bits shifted left by 8 and or-ed with the next byte |
| NameCodec.Labels | src/dns_packet/parse_name.rs:4-38 | on success the cursor has moved strictly forward and stays within the buffer |
| NameCodec.NameAt | src/dns_packet/parse_name.rs:1-41 | a decoded name ends strictly after its start and within the buffer |
| NameCodec.ParseName | src/dns_packet/parse_name.rs:1-41 | the label loop with its pointer recursion computes `NameAt`: the same name, cursor and errors |
| NameCodec.FollowPointer | src/dns_packet/parse_name.rs:9-19 | reading a pointer and the name it leads to computes `Labels` at the pointer: the name read so far, a dot when that name is not empty, and the pointed-to name, or the error of the pointed-to name, with the cursor two bytes past the pointer |
| NameCodec.LabelStep | src/dns_packet/parse_name.rs:24-37 | a label step joins the label and moves the cursor past it, or is a UTF-8 error |
| NameCodec.JoinAsPushed | src/dns_packet/parse_name.rs:30-36 | the loop's two pushes, a dot unless the name is empty and then the label, are `Join` |
| NameCodec.PointerStep | src/dns_packet/parse_name.rs:9-19 | a backward pointer returns the name so far joined to the pointed name, two bytes on, or the pointed name's error |
| NameCodec.EmptyName | src/dns_packet/parse_name.rs:26-27 | a zero header alone is the empty name, one byte long |
| NameCodec.ReservedHeaderRejected | src/dns_packet/parse_name.rs:22 | a header whose top bits are 01 or 10 is a `BadLabelHeader` error |
| NameCodec.TruncatedInputRejected | src/dns_packet/parse_name.rs:5-35 | a pointer without its second byte, or a label longer than what remains, is out of bounds, not a partial name |
| NameCodec.InvalidLabelRejected | src/dns_packet/parse_name.rs:34-35 | a label that is not UTF-8 is an `InvalidUtf8` error |
| NameCodec.PointerEndsName | src/dns_packet/parse_name.rs:10-19 | after a pointer the caller's cursor is exactly two bytes on, whatever the pointed name's length, and the name is the labels so far joined to the pointed name |
| NameCodec.DotInsideLabel | src/dns_packet/parse_name.rs:30-36 | dots are added only between labels, yet a label holding a dot byte gives a name that starts with a dot |
| NameCodec.NameOnlyGrows | src/dns_packet/parse_name.rs:2-37 | the name built so far is only ever extended, never altered |
| NameCodec.JoinIsUtf8 | src/dns_packet/parse_name.rs:15-18 | joining two UTF-8 names with a dot gives UTF-8 |
| NameCodec.NameIsUtf8 | src/dns_packet/parse_name.rs:34-36 | every decoded name is UTF-8 text, as a `String` must be |
| NameCodec.SelfPointerNeverReturns | src/dns_packet/parse_name.rs:10-14 | the decoder as written, on a pointer to itself, exhausts every stack depth |
| NameCodec.LoopThroughLabelNeverReturns | src/dns_packet/parse_name.rs:4-14 | the decoder as written, on a label and then a pointer back to it, exhausts every stack depth |
| NameCodec.CyclesRejected | src/dns_packet/parse_name.rs:14 | the guarded decoder rejects both cycles with `PointerNotBackward` |
| NameCodec.GuardKeepsResults | src/dns_packet/parse_name.rs:1-41 | wherever the guarded decoder succeeds, the decoder as written returns the same name and cursor, given enough stack |
| NameCodec.UnguardedLabels | src/dns_packet/parse_name.rs:1-41 | the decoder exactly as written, with no check on pointer targets and a bounded stack; when it returns a name, the cursor has moved forward and stays within the buffer |
| QuestionCodec.NewQuestion | src/dns_packet/question.rs:10-19 | `Question::new` keeps the name, sets class IN, and maps A to A and MX to MX, in both directions |
| QuestionCodec.IndexOfDot | src/dns_packet/question.rs:22 | the first dot: a dot at that position and none before it |
| QuestionCodec.Split | src/dns_packet/question.rs:22 | `split('.')` gives at least one label, even for the empty name |
| QuestionCodec.SplitDotFree | src/dns_packet/question.rs:22 | no label holds a dot |
| QuestionCodec.JoinSplit | src/dns_packet/question.rs:22 | joining the labels with dots gives back the name |
| QuestionCodec.SplitJoin | src/dns_packet/question.rs:22 | splitting dot-free labels joined by dots gives back the labels |
| QuestionCodec.LabelBytes | src/dns_packet/question.rs:23-24 | a label is written as its length byte and then its bytes; the length byte is `len() as u8`, the length modulo 256, and the length itself for labels under 256 bytes |
| QuestionCodec.LabelsBytesSnoc | src/dns_packet/question.rs:22-25 | each turn of the label loop appends that label's encoding |
| QuestionCodec.LabelsBytesLength | src/dns_packet/question.rs:22-26 | the labels take one byte more than the dotted name |
| QuestionCodec.QuestionBytesLength | src/dns_packet/question.rs:21-30 | `extend_to_buffer` adds exactly six bytes more than the dotted name: the label lengths in place of the dots, the zero byte, the type and the class |
| QuestionCodec.ExtendToBuffer | src/dns_packet/question.rs:21-30 | the buffer is only extended, by the labels, a zero byte, then the big-endian type and class |
| QuestionCodec.PushLabel | src/dns_packet/question.rs:23-24 | the two appends of one loop turn extend the encoding by one label |
| QuestionCodec.QuestionFromBuffer | src/dns_packet/question.rs:32-52 | the step-by-step decode computes `QuestionAt`: the same question, cursor and errors |
| QuestionCodec.QuestionAtSucceeds | src/dns_packet/question.rs:32-45 | a question decodes exactly when its name does, four more bytes remain, and they hold type 1 or 15 and class 1 |
| QuestionCodec.QuestionAtFields | src/dns_packet/question.rs:33-45 | a decoded question holds the name at the cursor and the codes of the next four bytes, and the cursor ends exactly four bytes past the name |
| QuestionCodec.UnknownCodesRejected | src/dns_packet/question.rs:35-44 | an unknown type code, or a known type with an unknown class code, is an error carrying that code |
| QuestionCodec.EncodedAtSlice | src/dns_packet/question.rs:22-25 | written labels followed by more bytes hold each label in turn, then those bytes |
| QuestionCodec.RunEndLength | src/dns_packet/question.rs:22-25 | the labels end as many bytes on as their encoding is long |
| QuestionCodec.LabelRun | src/dns_packet/parse_name.rs:24-37 | written valid labels are read back in order, each joined to the name so far |
| QuestionCodec.JoinAllLabels | src/dns_packet/parse_name.rs:30-36 | joining non-empty labels one at a time gives their dotted text |
| QuestionCodec.NameOfEncoding | src/dns_packet/question.rs:22-26 | a valid name, written as labels and a zero byte, decodes to itself and stops just past the zero byte |
| QuestionCodec.NameRun | src/dns_packet/parse_name.rs:4-40 | written valid labels ended by a zero byte decode to their dotted text, one byte past the last label |
| QuestionCodec.NameEnds | src/dns_packet/parse_name.rs:26-28 | a zero byte ends the name built so far |
| QuestionCodec.QuestionRoundTrip | src/dns_packet/question.rs:21-52 | decoding what `extend_to_buffer` wrote for a valid name gives back the question, and the cursor lands just past it, whatever follows |
| QuestionCodec.CodesAt | src/dns_packet/question.rs:28-29 | the two written codes are read back |
| QuestionCodec.ExampleName | src/dns_packet/parse_name.rs:5-37 | `[7]example[3]com[0]` from offset 0 decodes to `example.com`, with the cursor at 13 |
| QuestionCodec.EmptyNameDoesNotRoundTrip | src/dns_packet/question.rs:22-26 | the empty name is written as two zero bytes; the decoder takes the second as part of the type, so the question does not come back |
| RecordCodec.RecordFromBuffer | src/dns_packet/record.rs:13-79 | the step-by-step decode computes `RecordAt`: the same record, cursor and errors |
| RecordCodec.DataFromBuffer | src/dns_packet/record.rs:39-70 | the `match` on the type computes `DataAt` |
| RecordCodec.RecordAtFields | src/dns_packet/record.rs:14-37 | a decoded record holds the name at the cursor; the type, class, TTL and data length are the big-endian values of the next ten bytes; the data is read just past them |
| RecordCodec.AddressData | src/dns_packet/record.rs:40-51 | A data is read exactly when the declared length is 4 and four bytes remain; it holds their big-endian address and moves the cursor by 4; any other length is an error carrying it |
| RecordCodec.MailExchangeData | src/dns_packet/record.rs:53-69 | MX data is accepted exactly when the preference and exchange name span the declared length, and is otherwise an error carrying both lengths |
| RecordCodec.BarePointerExchange | src/dns_packet/record.rs:54-63 | an exchange name that is a bare pointer makes the MX data four bytes long, however long the pointed name |
| RecordCodec.UnknownRecordCodesRejected | src/dns_packet/record.rs:16-26 | an unknown type or class code is an error carrying the code, and no record is produced |
| RecordCodec.DataMatchesType | src/dns_packet/record.rs:39-70 | the data is an address exactly for an A record, and a preference with an exchange name exactly for an MX record |
| RecordCodec.FixedOf | src/dns_packet/record.rs:16-37 | the four fixed fields are read back from their ten bytes |
| RecordCodec.DataOf | src/dns_packet/record.rs:39-70 | data of either shape is read back and spans exactly its encoding |
| RecordCodec.FieldsOf | src/dns_packet/record.rs:16-70 | the fixed fields and data of a well-formed record are read back |
| RecordCodec.RecordRoundTrip | src/dns_packet/record.rs:13-79 | decoding a well-formed record laid out as RFC 1035 gives back the record, with the cursor just past it |
| Packet.NewQuery | src/dns_packet/mod.rs:26-39 | `new_query` sets the given id, Query, StandardQuery and recursion desired; all other flags are false and the code is NoError; one question, no answers |
| Packet.HeaderBytes | src/dns_packet/mod.rs:45-57 | the header is twelve bytes long |
| Packet.HeaderWrites | src/dns_packet/mod.rs:45-57 | the header's eight appends produce `HeaderBytes` |
| Packet.Bit | src/dns_packet/mod.rs:48-53 | `b as u8` is 0 or 1, and 1 exactly when `b` is true |
| Packet.FlagsHigh | src/dns_packet/mod.rs:46-51 | the third header byte fits in eight bits; its top bit is set exactly for a response and its low bit is RD |
| Packet.FlagsLow | src/dns_packet/mod.rs:53 | the fourth header byte fits in eight bits; its top bit is set exactly when recursion is available, and its low four bits are the response code |
| Packet.WrittenStep | src/dns_packet/mod.rs:60-62 | each turn of the question loop appends that question's encoding after the header and the earlier questions |
| Packet.QuestionsBytesPrefix | src/dns_packet/mod.rs:60-62 | the first `i + 1` questions are encoded as the first `i`, then question `i` |
| Packet.QuestionsBytesSnoc | src/dns_packet/mod.rs:60-62 | appending a question appends its encoding |
| Packet.ToBuffer | src/dns_packet/mod.rs:41-71 | `to_buffer` returns the header, then the questions, in order |
| Packet.HeaderLayout | src/dns_packet/mod.rs:45-57 | the header bytes are the big-endian id, the two flag bytes, the question count, the answer count, and four zero bytes |
| Packet.PacketLayout | src/dns_packet/mod.rs:41-71 | the output is the header, then only the questions; the counts are the numbers of questions and answers modulo 65536 |
| Packet.FlagsHighFields | src/dns_packet/mod.rs:46-52 | each field of the third byte is read back from where `to_buffer` put it: QR, opcode, AA, TC and RD |
| Packet.FlagsLowFields | src/dns_packet/mod.rs:53 | RA and the response code are read back from the fourth byte |
| Packet.FlagBitsAreDisjoint | src/dns_packet/mod.rs:46-89 | the writer's shifts and bitwise ors are sums of disjoint bits, and the reader's shifts and masks are the divisions and remainders of the model |
| Packet.ExampleFlags | src/dns_packet/mod.rs:46-53 | one header, an authoritative standard-query response with recursion available and NameError, gives the flag bytes 0x84 and 0x83 |
| Packet.HeaderRoundTrip | src/dns_packet/mod.rs:45-100 | decoding the written header gives back every field, counts included |
| Packet.HeaderAt | src/dns_packet/mod.rs:74-100 | fewer than three bytes are out of bounds; a decoded header needs bytes 0 to 7, takes the id from bytes 0-1, QR from the top bit of byte 2, and the counts from bytes 4-5 and 6-7, big-endian |
| Packet.HeaderAtSucceeds | src/dns_packet/mod.rs:74-100 | the header decodes exactly when bytes 0 to 7 are present and the opcode and response code are known |
| Packet.UnknownOpcodeRejected | src/dns_packet/mod.rs:80-85 | an opcode outside 0 to 2 is an error carrying its value |
| Packet.UnknownResponseCodeRejected | src/dns_packet/mod.rs:90-98 | a response code outside 0 to 5 is an error carrying its value |
| Packet.Many | src/dns_packet/mod.rs:106-121 | a successful count-driven loop yields exactly `count` items |
| Packet.FromBuffer | src/dns_packet/mod.rs:73-135 | the step-by-step decode computes `PacketAt`: the header, then the question loop from offset 12, then the answer loop from where the questions end |
| Packet.QuestionsFromBuffer | src/dns_packet/mod.rs:106-113 | the question loop computes `Many` over the question decoder, stopping at the first error |
| Packet.AnswersFromBuffer | src/dns_packet/mod.rs:114-121 | the answer loop computes `Many` over the record decoder, stopping at the first error |
| Packet.LoopStep | src/dns_packet/mod.rs:108-111 | a successful turn keeps the loop invariant, with the item appended and the cursor moved past it |
| Packet.LoopStop | src/dns_packet/mod.rs:108-111 | a failing item ends the whole loop with its error |
| Packet.LoopEnd | src/dns_packet/mod.rs:108-111 | after `count` turns the items read are the result |
| Packet.EightByteMessage | src/dns_packet/mod.rs:74-121 | an eight-byte message with zero counts and known codes decodes, with no question and no answer |
| Packet.PacketAtCounts | src/dns_packet/mod.rs:99-121 | a decoded packet has exactly QDCOUNT questions and ANCOUNT answers, read in wire order over one cursor |
| Packet.QuestionOffsets | src/dns_packet/mod.rs:60-62 | the questions' offsets start where the first is written and end just past the last |
| Packet.QuestionOffsetsTail | src/dns_packet/mod.rs:60-62 | the questions after the first begin where the first ends |
| Packet.QuestionSlices | src/dns_packet/mod.rs:60-62 | the encoded questions, cut at their offsets, give each question's encoding |
| Packet.EncodedInTurnCons | src/dns_packet/mod.rs:60-62 | one question's encoding, followed by the encodings of the rest, holds all of them in turn |
| Packet.EachQuestionAt | src/dns_packet/mod.rs:108-111 | each question decodes from its own offset to the next |
| Packet.ManyReadsInTurn | src/dns_packet/mod.rs:106-121 | items each read from where the previous one ended are read together by the loop |
| Packet.QuestionsRoundTrip | src/dns_packet/mod.rs:60-62 | questions written one after another are read back in order, the cursor ending just past the last |
| Packet.QuestionsOfPacket | src/dns_packet/mod.rs:104-113 | the questions of an encoded packet are read back from offset 12 to its end |
| Packet.HeaderOfPacket | src/dns_packet/mod.rs:45-100 | the header of an encoded packet is read back |
| Packet.HeaderAndQuestionsOf | src/dns_packet/mod.rs:41-113 | the header and questions of an encoded packet are read back, and the question count is exact |
| Packet.PacketAtOf | src/dns_packet/mod.rs:73-135 | a packet is its decoded header, questions and answers |
| Packet.PacketRoundTrip | src/dns_packet/mod.rs:41-135 | a packet with valid names, fewer than 65536 questions and no answer comes back from `to_buffer` unchanged |
| Packet.NewQueryRoundTrip | src/dns_packet/mod.rs:26-135 | every query `new_query` builds for a valid name comes back unchanged |
| Packet.AnswersPastEnd | src/dns_packet/mod.rs:114-121 | a record cannot be read at the end of the buffer |
| Packet.AnswersNotWritten | src/dns_packet/mod.rs:55-68 | answers are counted but not written: a non-zero answer count makes decoding fail out of bounds, and a count that wraps to zero loses every answer |

## Left out

- `src/main.rs` is not part of this model. It holds the UDP socket, the
  sends and receives, the 512-byte receive buffer, matching replies by
  address and id, and printing. All of that is I/O.
- The `Debug` implementation of `RecordData` (`src/dns_packet/record.rs`
  lines 90-107) is not modelled. It is display formatting through
  `std::net::Ipv4Addr`.
- `std::str::from_utf8` is an external library function. A label is
  accepted when it satisfies `Utf8.IsUtf8`, the well-formedness table of
  section 3.9 of the Unicode Standard. The conversion to a `String` is
  not modelled, so a name is its bytes.
- The commented-out encoding of answers, name servers and additional
  records is not modelled, because it is not code. `Packet.AnswersNotWritten`
  states what its absence does.
- Panics are results. Each crash of the source is an `Err`. Nothing the
  model proves depends on which error kind a crash maps to, beyond the
  `Error` constructors named in the contracts.
- The header's QR `panic!` (`src/dns_packet/mod.rs` line 78) has no error
  case. `buf[2] >> 7` is always 0 or 1, so the panic cannot be reached.
- Lengths. `Vec::len() as u16` and `len() as u8` keep the low 16 and 8
  bits. The model writes `% 0x1_0000` and `% 0x100`. The round-trip
  lemmas therefore assume fewer than 65536 questions and valid labels of
  1 to 63 bytes.
- Record encoding. The source never writes a record. `RecordCodec.RecordBytes`
  is a reference layout defined only to state `RecordCodec.RecordRoundTrip`.
- Header length. RFC 1035 section 4.1.1 gives a twelve-byte
  header that a decoder needs in full. The
  code differs: `from_buffer` reads only bytes 0 to 7 before the
  questions, which start at offset 12. The model follows the code:
  see `Packet.HeaderAtSucceeds` and `Packet.EightByteMessage`. With no
  questions and no answers, an eight-byte message decodes.
- Split operations. The `match` of `ResourceRecord::from_buffer` is a
  method of its own, `RecordCodec.DataFromBuffer`. The two loops of
  `DnsPacket::from_buffer` are `Packet.QuestionsFromBuffer` and
  `Packet.AnswersFromBuffer`. The pointer branch of `parse_name` is
  `NameCodec.FollowPointer`, called from `NameCodec.ParseName`. Each keeps
  the source's steps.
- NameCodec.Labels: this is a deliberate termination guard, not the
  source's behaviour. A compression pointer must lead strictly before the
  start of the name it belongs to, or it is rejected with
  `PointerNotBackward`. The source has no such check. The guard also
  rejects forward pointers, which the source follows and may return from.
  Where the guarded decoder succeeds, `NameCodec.GuardKeepsResults`
  proves the source returns the same name and cursor. The error cases are
  not compared.

## Findings

| source | as written | input that shows it | evidently intended | confidence | as-written member | corrected member |
|---|---|---|---|---|---|---|
| src/dns_packet/parse_name.rs:14 | a compression pointer is followed with no check on its target, so a pointer that leads back into the name being read recurses until the stack overflows | `[0xC0, 0x00]` from offset 0, a pointer to itself; or `[1, 0x61, 0xC0, 0x00]`, a label `a` and then a pointer back to it | a pointer leads to an earlier name, whose decoding ends; any other pointer is rejected | not executed | NameCodec.UnguardedLabels, NameCodec.SelfPointerNeverReturns, NameCodec.LoopThroughLabelNeverReturns | NameCodec.Labels, NameCodec.CyclesRejected, NameCodec.GuardKeepsResults |
