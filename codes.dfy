/** The enumerations of the DNS header and question/record fields, and the
    numeric codes they have on the wire (RFC 1035 sections 3.2.2, 3.2.4 and
    4.1.1). */
module Codes {
  import opened Wire

  datatype QueryOrResponse = Query | Response

  datatype Opcode = StandardQuery | InverseQuery | ServerStatusRequest

  datatype ResponseCode = NoError | FormatError | ServerFailure | NameError | NotImplemented | Refused

  /** The record types a caller may ask for. */
  datatype RecordType = A | MX

  /** The TYPE values the codec understands. */
  datatype QueryType = A | MX

  /** The CLASS values the codec understands. */
  datatype QueryClass = IN

  /** `query_or_response as u8`: the QR bit. */
  function QueryOrResponseValue(q: QueryOrResponse): (v: nat)
    ensures v < 2 && (v == 1 <==> q == Response)
  {
    match q
    case Query => 0
    case Response => 1
  }

  /** `opcode as u8`: the declaration order of the enum. */
  function OpcodeValue(o: Opcode): (r: nat)
    ensures r <= 2
  {
    match o
    case StandardQuery => 0
    case InverseQuery => 1
    case ServerStatusRequest => 2
  }

  /** The OPCODE field decoded by `DnsPacket::from_buffer`; any other value
      of the four bits is rejected. */
  function OpcodeFromValue(v: nat): (r: Result<Opcode>)
    ensures r.Ok? <==> v <= 2
    ensures r.Ok? ==> OpcodeValue(r.value) == v
    ensures r.Err? ==> r.error == UnknownOpcode(v)
  {
    if v == 0 then Ok(StandardQuery)
    else if v == 1 then Ok(InverseQuery)
    else if v == 2 then Ok(ServerStatusRequest)
    else Err(UnknownOpcode(v))
  }

  /** `response_code as u8`. */
  function ResponseCodeValue(c: ResponseCode): (r: nat)
    ensures r <= 5
  {
    match c
    case NoError => 0
    case FormatError => 1
    case ServerFailure => 2
    case NameError => 3
    case NotImplemented => 4
    case Refused => 5
  }

  /** The RCODE field decoded by `DnsPacket::from_buffer`; 6 to 15 are
      rejected. */
  function ResponseCodeFromValue(v: nat): (r: Result<ResponseCode>)
    ensures r.Ok? <==> v <= 5
    ensures r.Ok? ==> ResponseCodeValue(r.value) == v
    ensures r.Err? ==> r.error == UnknownResponseCode(v)
  {
    if v == 0 then Ok(NoError)
    else if v == 1 then Ok(FormatError)
    else if v == 2 then Ok(ServerFailure)
    else if v == 3 then Ok(NameError)
    else if v == 4 then Ok(NotImplemented)
    else if v == 5 then Ok(Refused)
    else Err(UnknownResponseCode(v))
  }

  /** `QueryType::to_u16`. */
  function QueryTypeToU16(t: QueryType): (r: uint16)
    ensures r == 1 || r == 15
    ensures r == 1 <==> t == QueryType.A
  {
    match t
    case A => 1
    case MX => 15
  }

  /** `QueryType::from_u16`: defined on exactly the codes `to_u16` produces,
      and its inverse there. */
  function QueryTypeFromU16(v: uint16): (r: Result<QueryType>)
    ensures r.Ok? <==> v == 1 || v == 15
    ensures r.Ok? ==> QueryTypeToU16(r.value) == v
    ensures r.Err? ==> r.error == UnknownQueryType(v)
  {
    if v == 1 then Ok(QueryType.A)
    else if v == 15 then Ok(QueryType.MX)
    else Err(UnknownQueryType(v))
  }

  /** `QueryClass::to_u16`. */
  function QueryClassToU16(c: QueryClass): (r: uint16)
    ensures r == 1
  {
    match c
    case IN => 1
  }

  /** `QueryClass::from_u16`: only the Internet class is known. */
  function QueryClassFromU16(v: uint16): (r: Result<QueryClass>)
    ensures r.Ok? <==> v == 1
    ensures r.Ok? ==> QueryClassToU16(r.value) == v
    ensures r.Err? ==> r.error == UnknownQueryClass(v)
  {
    if v == 1 then Ok(IN) else Err(UnknownQueryClass(v))
  }

  /** Decoding undoes encoding, for every value of each enumeration. */
  lemma CodesRoundTrip(t: QueryType, c: QueryClass, o: Opcode, rc: ResponseCode)
    ensures QueryTypeFromU16(QueryTypeToU16(t)) == Ok(t)
    ensures QueryClassFromU16(QueryClassToU16(c)) == Ok(c)
    ensures OpcodeFromValue(OpcodeValue(o)) == Ok(o)
    ensures ResponseCodeFromValue(ResponseCodeValue(rc)) == Ok(rc)
  {
  }
}
