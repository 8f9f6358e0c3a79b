/** The resource record of RFC 1035 section 4.1.3 (`ResourceRecord`): a
    name, TYPE, CLASS, TTL and RDLENGTH, then the record data, read for the
    A record of section 3.4.1 and the MX record of section 3.3.9. */
module RecordCodec {
  import opened Wire
  import opened Codes
  import opened NameCodec
  import opened QuestionCodec

  /** `RecordData`: an IPv4 address, or a preference and an exchange name. */
  datatype RecordData =
    | A(address: uint32)
    | MX(preference: uint16, exchange: Name)

  /** `ResourceRecord`. The declared data length is checked while decoding
      and not kept. */
  datatype ResourceRecord = ResourceRecord(
    name: Name, qtype: QueryType, qclass: QueryClass, ttl: uint32, data: RecordData)

  // Decoding

  /** The record data of a record of type `qtype` that declares
      `dataLength` bytes, read from `p`. An A record must declare four
      bytes, which hold the address; an MX record must consume exactly the
      bytes it declares, counting from its preference to the end of its
      exchange name. */
  function DataAt(buf: Bytes, qtype: QueryType, dataLength: uint16, p: nat): (r: Result<Parsed<RecordData>>)
  {
    match qtype
    case A =>
      if dataLength != 4 then Err(BadAddressLength(dataLength))
      else
        var address :- ReadU32(buf, p);
        Ok(Parsed(RecordData.A(address), p + 4))
    case MX =>
      var preference :- ReadU16(buf, p);
      var exchange :- NameAt(buf, p + 2);
      if exchange.next - p != dataLength then Err(DataLengthMismatch(dataLength, exchange.next - p))
      else Ok(Parsed(RecordData.MX(preference, exchange.value), exchange.next))
  }

  /** The fixed fields after the name, read from `p`: type, class, TTL and
      data length, ten bytes in all, and then the data. */
  function FieldsAt(buf: Bytes, name: Name, p: nat): (r: Result<Parsed<ResourceRecord>>)
  {
    var typeCode :- ReadU16(buf, p);
    var qtype :- QueryTypeFromU16(typeCode);
    var classCode :- ReadU16(buf, p + 2);
    var qclass :- QueryClassFromU16(classCode);
    var ttl :- ReadU32(buf, p + 4);
    var dataLength :- ReadU16(buf, p + 8);
    var data :- DataAt(buf, qtype, dataLength, p + 10);
    Ok(Parsed(ResourceRecord(name, qtype, qclass, ttl, data.value), data.next))
  }

  /** The record whose encoding begins at `off`, and the cursor after it. */
  function RecordAt(buf: Bytes, off: nat): (r: Result<Parsed<ResourceRecord>>)
  {
    var name :- NameAt(buf, off);
    FieldsAt(buf, name.value, name.next)
  }

  /** `ResourceRecord::from_buffer`: each field in turn, the cursor moving
      past it, then the data the type calls for. */
  method RecordFromBuffer(buf: Bytes, offset: nat) returns (r: Result<Parsed<ResourceRecord>>)
    ensures r == RecordAt(buf, offset)
  {
    var name := ParseName(buf, offset);
    if name.Err? {
      return Err(name.error);
    }
    var cursor := name.value.next;

    if cursor + 1 >= |buf| {
      return Err(OutOfBounds);
    }
    var qtype := QueryTypeFromU16(BeU16(buf[cursor], buf[cursor + 1]));
    if qtype.Err? {
      return Err(qtype.error);
    }
    cursor := cursor + 2;

    if cursor + 1 >= |buf| {
      return Err(OutOfBounds);
    }
    var qclass := QueryClassFromU16(BeU16(buf[cursor], buf[cursor + 1]));
    if qclass.Err? {
      return Err(qclass.error);
    }
    cursor := cursor + 2;

    if cursor + 3 >= |buf| {
      return Err(OutOfBounds);
    }
    var ttl := BeU32(buf[cursor], buf[cursor + 1], buf[cursor + 2], buf[cursor + 3]);
    cursor := cursor + 4;

    if cursor + 1 >= |buf| {
      return Err(OutOfBounds);
    }
    var dataLength := BeU16(buf[cursor], buf[cursor + 1]);
    cursor := cursor + 2;

    var data := DataFromBuffer(buf, qtype.value, dataLength, cursor);
    if data.Err? {
      return Err(data.error);
    }
    return Ok(Parsed(ResourceRecord(name.value.value, qtype.value, qclass.value, ttl, data.value.value), data.value.next));
  }

  /** The `match query_type` of `ResourceRecord::from_buffer`. */
  method DataFromBuffer(buf: Bytes, qtype: QueryType, dataLength: uint16, offset: nat)
    returns (r: Result<Parsed<RecordData>>)
    ensures r == DataAt(buf, qtype, dataLength, offset)
  {
    var cursor := offset;
    match qtype {
      case A =>
        if dataLength != 4 {
          return Err(BadAddressLength(dataLength));
        }
        if cursor + 3 >= |buf| {
          return Err(OutOfBounds);
        }
        var address := BeU32(buf[cursor], buf[cursor + 1], buf[cursor + 2], buf[cursor + 3]);
        cursor := cursor + 4;
        return Ok(Parsed(RecordData.A(address), cursor));
      case MX =>
        var offsetBeforeParse := cursor;
        if cursor + 1 >= |buf| {
          return Err(OutOfBounds);
        }
        var preference := BeU16(buf[cursor], buf[cursor + 1]);
        cursor := cursor + 2;
        var exchange := ParseName(buf, cursor);
        if exchange.Err? {
          return Err(exchange.error);
        }
        cursor := exchange.value.next;
        var parsedDataLength := cursor - offsetBeforeParse;
        if parsedDataLength != dataLength {
          return Err(DataLengthMismatch(dataLength, parsedDataLength));
        }
        return Ok(Parsed(RecordData.MX(preference, exchange.value.value), cursor));
    }
  }

  // Properties of the decoder

  /** A decoded record holds the name found at `off`; the four fixed fields
      fill the ten bytes after the name, big-endian, and the data is read
      from just past them. */
  lemma RecordAtFields(buf: Bytes, off: nat)
    requires RecordAt(buf, off).Ok?
    ensures var rec := RecordAt(buf, off).value;
      var name := NameAt(buf, off).value;
      var p := name.next;
      && rec.value.name == name.value
      && p + 10 <= |buf|
      && QueryTypeToU16(rec.value.qtype) == BeU16(buf[p], buf[p + 1])
      && QueryClassToU16(rec.value.qclass) == BeU16(buf[p + 2], buf[p + 3])
      && rec.value.ttl == BeU32(buf[p + 4], buf[p + 5], buf[p + 6], buf[p + 7])
      && DataAt(buf, rec.value.qtype, BeU16(buf[p + 8], buf[p + 9]), p + 10)
         == Ok(Parsed(rec.value.data, rec.next))
  {
  }

  /** A-record data: exactly a declared length of 4 and four more bytes
      give the address they hold, the cursor moving past them; any other
      declared length is rejected, with the length. */
  lemma AddressData(buf: Bytes, dataLength: uint16, p: nat)
    ensures var r := DataAt(buf, QueryType.A, dataLength, p);
      && (r.Ok? <==> dataLength == 4 && p + 4 <= |buf|)
      && (dataLength != 4 ==> r == Err(BadAddressLength(dataLength)))
      && (r.Ok? ==> r.value == Parsed(RecordData.A(BeU32(buf[p], buf[p + 1], buf[p + 2], buf[p + 3])), p + 4))
  {
  }

  /** MX-record data: the preference, then the exchange name; accepted
      exactly when the two together span the declared length, and
      otherwise rejected with the declared and the consumed length. */
  lemma MailExchangeData(buf: Bytes, dataLength: uint16, p: nat)
    requires p + 2 <= |buf| && NameAt(buf, p + 2).Ok?
    ensures var r := DataAt(buf, QueryType.MX, dataLength, p);
      var exchange := NameAt(buf, p + 2).value;
      && (r.Ok? <==> exchange.next - p == dataLength)
      && (r.Err? ==> r.error == DataLengthMismatch(dataLength, exchange.next - p))
      && (r.Ok? ==> r.value == Parsed(RecordData.MX(BeU16(buf[p], buf[p + 1]), exchange.value), exchange.next))
  {
  }

  /** An exchange name that is a bare compression pointer takes two bytes,
      so the MX data is four bytes long however long the name it points
      to: the record is accepted exactly when it declares 4. */
  lemma BarePointerExchange(buf: Bytes, dataLength: uint16, p: nat)
    requires p + 3 < |buf| && IsPointerHeader(buf[p + 2]) && NameAt(buf, p + 2).Ok?
    ensures NameAt(buf, p + 2).value.next == p + 4
    ensures DataAt(buf, QueryType.MX, dataLength, p).Ok? <==> dataLength == 4
  {
    PointerEndsName(buf, p + 2, p + 2, []);
    MailExchangeData(buf, dataLength, p);
  }

  /** An unknown type or class code is reported, with the code, and no
      record is produced. */
  lemma UnknownRecordCodesRejected(buf: Bytes, off: nat)
    requires NameAt(buf, off).Ok? && NameAt(buf, off).value.next + 4 <= |buf|
    ensures var p := NameAt(buf, off).value.next;
      var typeCode := BeU16(buf[p], buf[p + 1]);
      var classCode := BeU16(buf[p + 2], buf[p + 3]);
      && (typeCode !in {1, 15} ==> RecordAt(buf, off) == Err(UnknownQueryType(typeCode)))
      && (typeCode in {1, 15} && classCode != 1 ==> RecordAt(buf, off) == Err(UnknownQueryClass(classCode)))
  {
  }

  /** The data has the shape its type calls for: an address for A, a
      preference and exchange for MX. */
  lemma DataMatchesType(buf: Bytes, off: nat)
    requires RecordAt(buf, off).Ok?
    ensures var rec := RecordAt(buf, off).value.value;
      && (rec.qtype == QueryType.A <==> rec.data.A?)
      && (rec.qtype == QueryType.MX <==> rec.data.MX?)
  {
    RecordAtFields(buf, off);
  }

  // A reference encoder

  /** The record data as RFC 1035 lays it out: the address, or the
      preference and the exchange name. */
  function DataBytes(d: RecordData): Bytes
  {
    match d
    case A(address) => U32Bytes(address)
    case MX(preference, exchange) => U16Bytes(preference) + NameBytes(exchange)
  }

  /** The type, class, TTL and data length: ten bytes. */
  function FixedBytes(r: ResourceRecord): (b: Bytes)
    ensures |b| == 10
  {
    U16Bytes(QueryTypeToU16(r.qtype)) + U16Bytes(QueryClassToU16(r.qclass))
      + U32Bytes(r.ttl) + U16Bytes(|DataBytes(r.data)| % 0x1_0000)
  }

  /** A record in wire form. The source writes no records; this is the
      layout its decoder reads. */
  function RecordBytes(r: ResourceRecord): Bytes
  {
    NameBytes(r.name) + FixedBytes(r) + DataBytes(r.data)
  }

  /** A record the decoder can read back: valid names, data of the shape
      its type calls for, and a data length that fits in 16 bits. */
  predicate WellFormedRecord(r: ResourceRecord)
  {
    && ValidName(r.name)
    && (r.qtype == QueryType.A <==> r.data.A?)
    && (r.data.MX? ==> ValidName(r.data.exchange))
    && |DataBytes(r.data)| < 0x1_0000
  }

  /** Decoding a well-formed record's encoding gives back the record, and
      the cursor lands just past the encoding, whatever follows it. */
  lemma RecordRoundTrip(r: ResourceRecord, buf: Bytes, off: nat)
    requires WellFormedRecord(r)
    requires off + |RecordBytes(r)| <= |buf|
    requires buf[off..off + |RecordBytes(r)|] == RecordBytes(r)
    ensures RecordAt(buf, off) == Ok(Parsed(r, off + |RecordBytes(r)|))
  {
    var rest := FixedBytes(r) + DataBytes(r.data);
    assert RecordBytes(r) == NameBytes(r.name) + rest;
    SliceOfConcat(buf, off, NameBytes(r.name), rest);
    NameOfEncoding(buf, off, r.name);
    var p := off + |NameBytes(r.name)|;
    FieldsOf(buf, p, r, rest);
    assert p + |rest| == off + |RecordBytes(r)|;
    RecordAtOf(buf, off, r, p, p + |rest|);
  }

  /** A record is read from its name and its fields. */
  lemma RecordAtOf(buf: Bytes, off: nat, r: ResourceRecord, p: nat, end: nat)
    requires NameAt(buf, off) == Ok(Parsed(r.name, p))
    requires FieldsAt(buf, r.name, p) == Ok(Parsed(r, end))
    ensures RecordAt(buf, off) == Ok(Parsed(r, end))
  {
  }

  /** The fixed fields and the data of a well-formed record are read back
      from where they were written. */
  lemma FieldsOf(buf: Bytes, p: nat, r: ResourceRecord, rest: Bytes)
    requires WellFormedRecord(r) && rest == FixedBytes(r) + DataBytes(r.data)
    requires p + |rest| <= |buf| && buf[p..p + |rest|] == rest
    ensures FieldsAt(buf, r.name, p) == Ok(Parsed(r, p + |rest|))
  {
    SliceOfConcat(buf, p, FixedBytes(r), DataBytes(r.data));
    FixedOf(buf, p, r);
    DataOf(buf, p + 10, r.data);
    CodesRoundTrip(r.qtype, r.qclass, StandardQuery, NoError);
  }

  /** The four fixed fields are read back. */
  lemma FixedOf(buf: Bytes, p: nat, r: ResourceRecord)
    requires |DataBytes(r.data)| < 0x1_0000
    requires p + 10 <= |buf| && buf[p..p + 10] == FixedBytes(r)
    ensures ReadU16(buf, p) == Ok(QueryTypeToU16(r.qtype))
    ensures ReadU16(buf, p + 2) == Ok(QueryClassToU16(r.qclass))
    ensures ReadU32(buf, p + 4) == Ok(r.ttl)
    ensures ReadU16(buf, p + 8) == Ok(|DataBytes(r.data)|)
  {
    var f := FixedBytes(r);
    var t, c := U16Bytes(QueryTypeToU16(r.qtype)), U16Bytes(QueryClassToU16(r.qclass));
    var ttl, len := U32Bytes(r.ttl), U16Bytes(|DataBytes(r.data)|);
    forall k | 0 <= k < 10 ensures buf[p + k] == f[k] {
      assert buf[p..p + 10][k] == f[k];
    }
    assert f[0] == t[0] && f[1] == t[1] && f[2] == c[0] && f[3] == c[1];
    assert f[4] == ttl[0] && f[5] == ttl[1] && f[6] == ttl[2] && f[7] == ttl[3];
    assert f[8] == len[0] && f[9] == len[1];
    BeU32OfBytes(r.ttl);
  }

  /** Record data of either shape is read back, and spans exactly its
      encoding. */
  lemma DataOf(buf: Bytes, q: nat, d: RecordData)
    requires d.MX? ==> ValidName(d.exchange)
    requires |DataBytes(d)| < 0x1_0000
    requires q + |DataBytes(d)| <= |buf| && buf[q..q + |DataBytes(d)|] == DataBytes(d)
    ensures var qtype := if d.A? then QueryType.A else QueryType.MX;
      DataAt(buf, qtype, |DataBytes(d)|, q) == Ok(Parsed(d, q + |DataBytes(d)|))
  {
    match d {
      case A(address) =>
        ReadU32Of(buf, q, address);
      case MX(preference, exchange) =>
        SliceOfConcat(buf, q, U16Bytes(preference), NameBytes(exchange));
        ReadU16Of(buf, q, preference);
        NameOfEncoding(buf, q + 2, exchange);
    }
  }
}
