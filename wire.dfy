/** Fixed-width unsigned integers, big-endian field access and the error values
    shared by every part of the DNS message codec. */
module Wire {

  type uint8 = x: int | 0 <= x < 0x100
  type uint16 = x: int | 0 <= x < 0x1_0000
  type uint32 = x: int | 0 <= x < 0x1_0000_0000

  /** A message buffer, or a part of one. */
  type Bytes = seq<uint8>

  /** Every way a decode can fail. The source panics in each of these cases
      (a slice index past the end, `assert_eq!`, `unwrap`, `panic!`); the
      model returns the error instead. */
  datatype Error =
    | OutOfBounds                               // a read at or past the end of the buffer
    | BadLabelHeader(header: uint8)             // a label header whose top two bits are 01 or 10
    | InvalidUtf8                               // a label whose bytes are not UTF-8
    | PointerNotBackward(target: nat)           // a compression pointer that does not lead backward
    | UnknownQueryType(code: uint16)
    | UnknownQueryClass(code: uint16)
    | UnknownOpcode(bits: nat)
    | UnknownResponseCode(bits: nat)
    | BadAddressLength(dataLength: uint16)      // an A record whose data length is not 4
    | DataLengthMismatch(dataLength: uint16, parsed: nat)  // an MX record whose data is not exactly as long as declared

  datatype Result<+T> = Ok(value: T) | Err(error: Error) {
    predicate IsFailure() { Err? }

    function PropagateFailure<U>(): Result<U>
      requires Err?
    {
      Err(error)
    }

    function Extract(): T
      requires Ok?
    {
      value
    }
  }

  /** A value decoded from a buffer, and the cursor just past its encoding. */
  datatype Parsed<+T> = Parsed(value: T, next: nat)

  /** `u16::to_be_bytes`: the most significant byte first. */
  function U16Bytes(x: uint16): (r: Bytes)
    ensures |r| == 2 && r[0] as int * 0x100 + r[1] == x
  {
    [x / 0x100, x % 0x100]
  }

  /** `u16::from_be_bytes([hi, lo])`. */
  function BeU16(hi: uint8, lo: uint8): uint16
  {
    hi * 0x100 + lo
  }

  /** `to_be_bytes` undoes `from_be_bytes`; with the `ensures` of
      `U16Bytes`, the two are inverse. */
  lemma BytesOfBeU16(hi: uint8, lo: uint8)
    ensures U16Bytes(BeU16(hi, lo)) == [hi, lo]
  {
  }

  /** `u32::from_be_bytes([b0, b1, b2, b3])`. */
  function BeU32(b0: uint8, b1: uint8, b2: uint8, b3: uint8): uint32
  {
    ((b0 * 0x100 + b1) * 0x100 + b2) * 0x100 + b3
  }

  /** `u32::to_be_bytes`: the bytes of `x` from the most significant. */
  function U32Bytes(x: uint32): (r: Bytes)
    ensures |r| == 4
  {
    var a := x / 0x100;
    var b := a / 0x100;
    [b / 0x100, b % 0x100, a % 0x100, x % 0x100]
  }

  /** `from_be_bytes` undoes `to_be_bytes`. */
  lemma BeU32OfBytes(x: uint32)
    ensures var r := U32Bytes(x); BeU32(r[0], r[1], r[2], r[3]) == x
  {
    var a := x / 0x100;
    var b := a / 0x100;
    assert x == a * 0x100 + x % 0x100;
    assert a == b * 0x100 + a % 0x100;
    assert b == (b / 0x100) * 0x100 + b % 0x100;
  }

  /** `to_be_bytes` undoes `from_be_bytes`. */
  lemma BytesOfBeU32(b0: uint8, b1: uint8, b2: uint8, b3: uint8)
    ensures U32Bytes(BeU32(b0, b1, b2, b3)) == [b0, b1, b2, b3]
  {
    var hi := b0 * 0x100 + b1;
    var mid := hi * 0x100 + b2;
    var y := mid * 0x100 + b3;
    assert y / 0x100 == mid && y % 0x100 == b3;
    assert mid / 0x100 == hi && mid % 0x100 == b2;
    assert hi / 0x100 == b0 && hi % 0x100 == b1;
  }

  /** The big-endian `u16` at `off`, or `OutOfBounds` where indexing
      `buf[off]` or `buf[off + 1]` would go past the end. */
  function ReadU16(buf: Bytes, off: nat): (r: Result<uint16>)
    ensures r.Ok? <==> off + 2 <= |buf|
    ensures r.Err? ==> r.error == OutOfBounds
  {
    if off + 2 <= |buf| then Ok(BeU16(buf[off], buf[off + 1])) else Err(OutOfBounds)
  }

  /** Reading back the two bytes of a `u16` gives the `u16`. */
  lemma ReadU16Of(buf: Bytes, off: nat, x: uint16)
    requires off + 2 <= |buf| && buf[off..off + 2] == U16Bytes(x)
    ensures ReadU16(buf, off) == Ok(x)
  {
    assert buf[off] == U16Bytes(x)[0] && buf[off + 1] == U16Bytes(x)[1];
  }

  /** The big-endian `u32` at `off`, or `OutOfBounds`. */
  function ReadU32(buf: Bytes, off: nat): (r: Result<uint32>)
    ensures r.Ok? <==> off + 4 <= |buf|
    ensures r.Err? ==> r.error == OutOfBounds
  {
    if off + 4 <= |buf| then Ok(BeU32(buf[off], buf[off + 1], buf[off + 2], buf[off + 3]))
    else Err(OutOfBounds)
  }

  /** Reading back the four bytes of a `u32` gives the `u32`. */
  lemma ReadU32Of(buf: Bytes, off: nat, x: uint32)
    requires off + 4 <= |buf| && buf[off..off + 4] == U32Bytes(x)
    ensures ReadU32(buf, off) == Ok(x)
  {
    var r := U32Bytes(x);
    assert buf[off] == r[0] && buf[off + 1] == r[1] && buf[off + 2] == r[2] && buf[off + 3] == r[3];
    BeU32OfBytes(x);
  }

  /** A slice that holds `a + b` holds `a`, then `b`. */
  lemma SliceOfConcat(buf: Bytes, off: nat, a: Bytes, b: Bytes)
    requires off + |a| + |b| <= |buf| && buf[off..off + |a| + |b|] == a + b
    ensures buf[off..off + |a|] == a && buf[off + |a|..off + |a| + |b|] == b
  {
    forall k | 0 <= k < |a| ensures buf[off + k] == a[k] {
      assert buf[off..off + |a| + |b|][k] == (a + b)[k];
    }
    forall k | 0 <= k < |b| ensures buf[off + |a| + k] == b[k] {
      assert buf[off..off + |a| + |b|][|a| + k] == (a + b)[|a| + k];
    }
  }
}
