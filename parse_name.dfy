/** Decoding a domain name at a cursor, following the compression pointers
    of RFC 1035 section 4.1.4 (`parse_name`). */
module NameCodec {
  import opened Wire
  import opened Utf8

  /** A domain name: the UTF-8 bytes of its dotted text form. */
  type Name = Bytes

  const Dot: uint8 := 0x2E

  /** `header & 0xC0 == 0xC0`: the first byte of a two-byte pointer. */
  predicate IsPointerHeader(header: uint8) { header >= 0xC0 }

  /** `header & 0xC0 == 0`: a label length. */
  predicate IsLengthHeader(header: uint8) { header < 0x40 }

  /** The two header predicates test the top two bits as the source does. */
  lemma HeaderBits(header: uint8)
    ensures IsPointerHeader(header) <==> (header as bv8) & 0xC0 == 0xC0
    ensures IsLengthHeader(header) <==> (header as bv8) & 0xC0 == 0
  {
  }

  /** `((header & 0x3F) << 8) | low`: a 14-bit offset from the start of the
      buffer, made of the six low bits of the header and the next byte. */
  function PointerTarget(header: uint8, low: uint8): (target: nat)
    requires IsPointerHeader(header)
    ensures target < 0x4000
  {
    (header - 0xC0) * 0x100 + low
  }

  /** The target's high byte is the header's six low bits, its low byte
      the second byte of the pointer. */
  lemma PointerTargetParts(header: uint8, low: uint8)
    requires IsPointerHeader(header)
    ensures PointerTarget(header, low) / 0x100 == header % 0x40
    ensures PointerTarget(header, low) % 0x100 == low
  {
  }

  /** The arithmetic of `PointerTarget` is the source's bit expression. */
  lemma PointerTargetBits(header: bv16, low: bv16)
    requires 0xC0 <= header <= 0xFF && low <= 0xFF
    ensures ((header & 0x3F) << 8) | low == (header - 0xC0) * 0x100 + low
  {
  }

  /** Appending `part` to the name built so far: a dot only between two
      parts, never first (`if !name.is_empty() { name.push('.') }`). */
  function Join(name: Name, part: Name): Name
  {
    if |name| == 0 then part else name + [Dot] + part
  }

  /** The parts joined left to right, as the decoder's loop accumulates them. */
  function JoinAll(name: Name, parts: seq<Name>): Name
    decreases |parts|
  {
    if parts == [] then name else JoinAll(Join(name, parts[0]), parts[1..])
  }

  /** Labels joined by single dots. */
  function JoinLabels(labels: seq<Name>): Name
    decreases |labels|
  {
    if labels == [] then []
    else if |labels| == 1 then labels[0]
    else labels[0] + [Dot] + JoinLabels(labels[1..])
  }

  /** The rest of a name whose first header is at `off`, `name` holding the
      labels already read. `start` is where the current name began; a
      pointer must lead strictly before it. The source has no such check,
      and recurses forever on a pointer that leads back into the name it is
      part of; the check bounds the recursion by `start`. */
  function Labels(buf: Bytes, start: nat, off: nat, name: Name): (r: Result<Parsed<Name>>)
    ensures r.Ok? ==> off < r.value.next <= |buf|
    decreases start, |buf| - off
  {
    if off >= |buf| then Err(OutOfBounds)
    else
      var header := buf[off];
      if IsPointerHeader(header) then
        if off + 1 >= |buf| then Err(OutOfBounds)
        else
          var target := PointerTarget(header, buf[off + 1]);
          if target >= start then Err(PointerNotBackward(target))
          else
            var pointed :- Labels(buf, target, target, []);
            Ok(Parsed(Join(name, pointed.value), off + 2))
      else if !IsLengthHeader(header) then Err(BadLabelHeader(header))
      else if header == 0 then Ok(Parsed(name, off + 1))
      else if off + 1 + header > |buf| then Err(OutOfBounds)
      else
        var text := buf[off + 1..off + 1 + header];
        if !IsUtf8(text) then Err(InvalidUtf8)
        else Labels(buf, start, off + 1 + header, Join(name, text))
  }

  /** The name whose encoding begins at `start`, and the cursor just past
      that encoding. */
  function NameAt(buf: Bytes, start: nat): (r: Result<Parsed<Name>>)
    ensures r.Ok? ==> start < r.value.next <= |buf|
  {
    Labels(buf, start, start, [])
  }

  /** `parse_name(packet_buffer, offset)`: the label loop, and the recursive
      call on a fresh cursor for a pointer. */
  method ParseName(buf: Bytes, offset: nat) returns (r: Result<Parsed<Name>>)
    ensures r == NameAt(buf, offset)
    decreases offset, 1
  {
    var name: Name := [];
    var cursor := offset;
    while true
      invariant Labels(buf, offset, cursor, name) == NameAt(buf, offset)
      decreases |buf| - cursor
    {
      if cursor >= |buf| {
        return Err(OutOfBounds);
      }
      ghost var at := cursor;
      var header := buf[cursor];
      cursor := cursor + 1;

      if IsPointerHeader(header) {
        if cursor >= |buf| {
          return Err(OutOfBounds);
        }
        r := FollowPointer(buf, offset, cursor - 1, name);
        return;
      }

      if !IsLengthHeader(header) {
        return Err(BadLabelHeader(header));
      }
      var labelLength := header;
      if labelLength == 0 {
        break;
      }
      ghost var before := name;
      if |name| > 0 {
        name := name + [Dot];
      }
      if cursor + labelLength > |buf| {
        return Err(OutOfBounds);
      }
      var text := buf[cursor..cursor + labelLength];
      if !IsUtf8(text) {
        LabelStep(buf, offset, at, before, text);
        return Err(InvalidUtf8);
      }
      name := name + text;
      cursor := cursor + labelLength;
      LabelAdvance(buf, offset, at, before, text, cursor, name);
    }
    return Ok(Parsed(name, cursor));
  }

  /** The pointer branch of `parse_name`, for the pointer at `at` in the
      name that began at `offset`: the target from the two pointer bytes, a
      recursive call with its own cursor, then the name so far joined to
      the name found there, the caller's cursor two bytes on. */
  method FollowPointer(buf: Bytes, offset: nat, at: nat, name: Name) returns (r: Result<Parsed<Name>>)
    requires at + 1 < |buf| && IsPointerHeader(buf[at])
    ensures r == Labels(buf, offset, at, name)
    decreases offset, 0
  {
    var pointerOffset := PointerTarget(buf[at], buf[at + 1]);
    if pointerOffset >= offset {
      return Err(PointerNotBackward(pointerOffset));
    }
    var pointed := ParseName(buf, pointerOffset);
    if pointed.Err? {
      PointerStep(buf, offset, at, name);
      return Err(pointed.error);
    }
    var joined := name;
    if |joined| > 0 {
      joined := joined + [Dot];
    }
    joined := joined + pointed.value.value;
    PointerAdvance(buf, offset, at, name, pointed, joined);
    return Ok(Parsed(joined, at + 2));
  }

  /** One label step of `Labels`. */
  lemma LabelStep(buf: Bytes, start: nat, off: nat, name: Name, text: Bytes)
    requires off < |buf| && 0 < buf[off] < 0x40 && off + 1 + buf[off] <= |buf|
    requires text == buf[off + 1..off + 1 + buf[off]]
    ensures IsUtf8(text) ==> Labels(buf, start, off, name) == Labels(buf, start, off + 1 + |text|, Join(name, text))
    ensures !IsUtf8(text) ==> Labels(buf, start, off, name) == Err(InvalidUtf8)
  {
  }

  /** One label step of `Labels`, stated at the cursor and the name the
      loop of `parse_name` holds after it. */
  lemma LabelAdvance(buf: Bytes, start: nat, off: nat, name: Name, text: Bytes, next: nat, joined: Name)
    requires off < |buf| && 0 < buf[off] < 0x40 && next == off + 1 + buf[off] <= |buf|
    requires text == buf[off + 1..next] && IsUtf8(text)
    requires joined == (if |name| > 0 then name + [Dot] else name) + text
    ensures Labels(buf, start, off, name) == Labels(buf, start, next, joined)
  {
    assert off + 1 + |text| == next;
    LabelStep(buf, start, off, name, text);
    JoinAsPushed(name, text);
  }

  /** `Join` is what the loop's two pushes build: a dot unless the name
      is still empty, then the part. */
  lemma JoinAsPushed(name: Name, part: Name)
    ensures Join(name, part) == (if |name| > 0 then name + [Dot] else name) + part
  {
    if |name| == 0 {
      assert name + part == part;
    }
  }

  /** A pointer step of `Labels` that succeeds, stated at the name the
      loop of `parse_name` holds after it. */
  lemma PointerAdvance(buf: Bytes, start: nat, off: nat, name: Name, pointed: Result<Parsed<Name>>, joined: Name)
    requires off + 1 < |buf| && IsPointerHeader(buf[off])
    requires PointerTarget(buf[off], buf[off + 1]) < start
    requires pointed == NameAt(buf, PointerTarget(buf[off], buf[off + 1])) && pointed.Ok?
    requires joined == (if |name| > 0 then name + [Dot] else name) + pointed.value.value
    ensures Labels(buf, start, off, name) == Ok(Parsed(joined, off + 2))
  {
    PointerStep(buf, start, off, name);
    JoinAsPushed(name, pointed.value.value);
  }

  lemma PointerStep(buf: Bytes, start: nat, off: nat, name: Name)
    requires off + 1 < |buf| && IsPointerHeader(buf[off])
    requires PointerTarget(buf[off], buf[off + 1]) < start
    ensures var pointed := NameAt(buf, PointerTarget(buf[off], buf[off + 1]));
      Labels(buf, start, off, name)
      == if pointed.Ok? then Ok(Parsed(Join(name, pointed.value.value), off + 2)) else Err(pointed.error)
  {
  }

  // Properties of the decoder

  /** A zero header is the empty name, one byte long. */
  lemma EmptyName(buf: Bytes, start: nat)
    requires start < |buf| && buf[start] == 0
    ensures NameAt(buf, start) == Ok(Parsed([], start + 1))
  {
  }

  /** A header whose top bits are 01 or 10 is rejected. */
  lemma ReservedHeaderRejected(buf: Bytes, start: nat, off: nat, name: Name)
    requires off < |buf| && 0x40 <= buf[off] < 0xC0
    ensures Labels(buf, start, off, name) == Err(BadLabelHeader(buf[off]))
  {
  }

  /** Reads past the end are errors, never partial names: a label longer
      than what is left, and a pointer without its second byte. */
  lemma TruncatedInputRejected(buf: Bytes, start: nat, off: nat, name: Name)
    requires off < |buf|
    requires (IsPointerHeader(buf[off]) && off + 1 == |buf|)
          || (0 < buf[off] < 0x40 && off + 1 + buf[off] > |buf|)
    ensures Labels(buf, start, off, name) == Err(OutOfBounds)
  {
  }

  /** A label that is not UTF-8 is rejected. */
  lemma InvalidLabelRejected(buf: Bytes, start: nat, off: nat, name: Name)
    requires off < |buf| && 0 < buf[off] < 0x40 && off + 1 + buf[off] <= |buf|
    requires !IsUtf8(buf[off + 1..off + 1 + buf[off]])
    ensures Labels(buf, start, off, name) == Err(InvalidUtf8)
  {
  }

  /** A pointer ends the name: the caller's cursor moves past its two bytes
      only, whatever the length of the name it leads to, and the result is
      the labels read so far joined to that name. */
  lemma PointerEndsName(buf: Bytes, start: nat, off: nat, name: Name)
    requires off + 1 < |buf| && IsPointerHeader(buf[off])
    requires Labels(buf, start, off, name).Ok?
    ensures var target := PointerTarget(buf[off], buf[off + 1]);
      && target < start
      && NameAt(buf, target).Ok?
      && Labels(buf, start, off, name).value
         == Parsed(Join(name, NameAt(buf, target).value.value), off + 2)
  {
  }

  /** Dots join labels, but a label may itself hold a dot: the one-byte
      label "." decodes to a name that begins with a dot. */
  lemma DotInsideLabel()
    ensures NameAt([1, Dot, 0], 0) == Ok(Parsed([Dot], 3))
  {
    var buf: Bytes := [1, Dot, 0];
    assert buf[1..2] == [Dot];
    AsciiIsUtf8([Dot]);
    LabelStep(buf, 0, 0, [], [Dot]);
    assert Labels(buf, 0, 2, [Dot]) == Ok(Parsed([Dot], 3));
  }

  /** `longer` begins with `name`. */
  predicate Extends(longer: Name, name: Name)
  {
    |name| <= |longer| && longer[..|name|] == name
  }

  /** The name built so far is never altered, only extended. */
  lemma {:induction false} NameOnlyGrows(buf: Bytes, start: nat, off: nat, name: Name)
    requires Labels(buf, start, off, name).Ok?
    ensures Extends(Labels(buf, start, off, name).value.value, name)
    decreases |buf| - off
  {
    if IsPointerHeader(buf[off]) {
      PointerGrows(buf, start, off, name);
    } else if buf[off] != 0 {
      var text := buf[off + 1..off + 1 + buf[off]];
      LabelStep(buf, start, off, name, text);
      NameOnlyGrows(buf, start, off + 1 + |text|, Join(name, text));
      JoinExtends(name, text);
      ExtendsTransitive(name, Join(name, text), Labels(buf, start, off + 1 + |text|, Join(name, text)).value.value);
    }
  }

  lemma PointerGrows(buf: Bytes, start: nat, off: nat, name: Name)
    requires Labels(buf, start, off, name).Ok? && IsPointerHeader(buf[off])
    ensures Extends(Labels(buf, start, off, name).value.value, name)
  {
    PointerStep(buf, start, off, name);
    JoinExtends(name, NameAt(buf, PointerTarget(buf[off], buf[off + 1])).value.value);
  }

  /** Joining a part onto a name keeps the name as a prefix. */
  lemma JoinExtends(name: Name, part: Name)
    ensures Extends(Join(name, part), name)
  {
  }

  lemma ExtendsTransitive(a: Name, b: Name, c: Name)
    requires Extends(b, a) && Extends(c, b)
    ensures Extends(c, a)
  {
    assert c[..|a|] == c[..|b|][..|a|];
  }

  /** A decoded name is well-formed UTF-8 text, as a Rust `String` must be. */
  lemma {:induction false} NameIsUtf8(buf: Bytes, start: nat, off: nat, name: Name)
    requires IsUtf8(name)
    requires Labels(buf, start, off, name).Ok?
    ensures IsUtf8(Labels(buf, start, off, name).value.value)
    decreases start, |buf| - off
  {
    var header := buf[off];
    if IsPointerHeader(header) {
      var target := PointerTarget(header, buf[off + 1]);
      PointerStep(buf, start, off, name);
      NameIsUtf8(buf, target, target, []);
      JoinIsUtf8(name, NameAt(buf, target).value.value);
    } else if header != 0 {
      var text := buf[off + 1..off + 1 + header];
      LabelStep(buf, start, off, name, text);
      JoinIsUtf8(name, text);
      NameIsUtf8(buf, start, off + 1 + header, Join(name, text));
    }
  }

  lemma JoinIsUtf8(name: Name, part: Name)
    requires IsUtf8(name) && IsUtf8(part)
    ensures IsUtf8(Join(name, part))
  {
    if |name| > 0 {
      AsciiIsUtf8([Dot]);
      ConcatIsUtf8(name, [Dot]);
      ConcatIsUtf8(name + [Dot], part);
    }
  }

  // The decoder as the source writes it

  /** What the unguarded decoder does: return, or run out of stack. */
  datatype Outcome = Returned(result: Result<Parsed<Name>>) | StackExhausted

  /** `parse_name` exactly as written, without the pointer check, on a stack
      that holds `depth` nested pointer calls. */
  function UnguardedLabels(buf: Bytes, off: nat, name: Name, depth: nat): (r: Outcome)
    ensures r.Returned? && r.result.Ok? ==> off < r.result.value.next <= |buf|
    decreases depth, |buf| - off
  {
    if off >= |buf| then Returned(Err(OutOfBounds))
    else
      var header := buf[off];
      if IsPointerHeader(header) then
        if off + 1 >= |buf| then Returned(Err(OutOfBounds))
        else if depth == 0 then StackExhausted
        else
          var target := PointerTarget(header, buf[off + 1]);
          match UnguardedLabels(buf, target, [], depth - 1)
          case StackExhausted => StackExhausted
          case Returned(Err(e)) => Returned(Err(e))
          case Returned(Ok(pointed)) => Returned(Ok(Parsed(Join(name, pointed.value), off + 2)))
      else if !IsLengthHeader(header) then Returned(Err(BadLabelHeader(header)))
      else if header == 0 then Returned(Ok(Parsed(name, off + 1)))
      else if off + 1 + header > |buf| then Returned(Err(OutOfBounds))
      else
        var text := buf[off + 1..off + 1 + header];
        if !IsUtf8(text) then Returned(Err(InvalidUtf8))
        else UnguardedLabels(buf, off + 1 + header, Join(name, text), depth)
  }

  /** A pointer to itself: the source's recursive call gets the very
      arguments it was called with, so no stack is deep enough. */
  lemma {:induction false} SelfPointerNeverReturns(depth: nat)
    ensures UnguardedLabels([0xC0, 0x00], 0, [], depth) == StackExhausted
  {
    if depth > 0 {
      SelfPointerNeverReturns(depth - 1);
    }
  }

  /** A label followed by a pointer back to that label: the pointer leads
      before its own header, yet the source loops forever. */
  lemma {:induction false} LoopThroughLabelNeverReturns(depth: nat)
    ensures UnguardedLabels([1, 0x61, 0xC0, 0x00], 0, [], depth) == StackExhausted
  {
    if depth > 0 {
      LoopThroughLabelNeverReturns(depth - 1);
    }
    assert [1, 0x61, 0xC0, 0x00][1..2] == [0x61];
    AsciiIsUtf8([0x61]);
  }

  /** The guarded decoder rejects both inputs. */
  lemma CyclesRejected()
    ensures NameAt([0xC0, 0x00], 0) == Err(PointerNotBackward(0))
    ensures NameAt([1, 0x61, 0xC0, 0x00], 0) == Err(PointerNotBackward(0))
  {
    assert [1, 0x61, 0xC0, 0x00][1..2] == [0x61];
    AsciiIsUtf8([0x61]);
  }

  /** Wherever the guarded decoder succeeds, the source returns the same
      name and cursor, given a stack deeper than the start offset: the guard
      only turns some non-terminating inputs into errors. */
  lemma {:induction false} GuardKeepsResults(buf: Bytes, start: nat, off: nat, name: Name, depth: nat)
    requires depth > start
    requires Labels(buf, start, off, name).Ok?
    ensures UnguardedLabels(buf, off, name, depth) == Returned(Labels(buf, start, off, name))
    decreases start, |buf| - off
  {
    var header := buf[off];
    if IsPointerHeader(header) {
      var target := PointerTarget(header, buf[off + 1]);
      GuardKeepsResults(buf, target, target, [], depth - 1);
    } else if header != 0 {
      var text := buf[off + 1..off + 1 + header];
      GuardKeepsResults(buf, start, off + 1 + header, Join(name, text), depth);
    }
  }
}
