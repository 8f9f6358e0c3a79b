/** UTF-8 well-formedness: what `std::str::from_utf8` accepts. The byte
    ranges are those of the table of well-formed byte sequences in section
    3.9 of the Unicode Standard (Table 3-7), the check RFC 3629 section 4
    gives as a grammar. */
module Utf8 {
  import opened Wire

  predicate IsContinuation(b: uint8) { 0x80 <= b <= 0xBF }

  /** The length of the sequence a lead byte begins, or 0 for a byte that
      begins none (a continuation byte, C0, C1, F5 to FF). */
  function LeadLength(b: uint8): (n: nat)
    ensures n <= 4 && (IsContinuation(b) ==> n == 0)
  {
    if b < 0x80 then 1
    else if 0xC2 <= b <= 0xDF then 2
    else if 0xE0 <= b <= 0xEF then 3
    else if 0xF0 <= b <= 0xF4 then 4
    else 0
  }

  /** The length of the well-formed sequence that begins `s`, or 0 if `s`
      does not begin with one. The second byte's range excludes overlong
      forms (E0, F0), surrogates (ED) and values above U+10FFFF (F4). */
  function SequenceLength(s: Bytes): (n: nat)
    requires |s| > 0
    ensures n <= |s|
    ensures n == 0 || n == LeadLength(s[0])
    ensures n > 0 ==> forall k | 1 <= k < n :: IsContinuation(s[k])
  {
    var n := LeadLength(s[0]);
    if n == 0 || |s| < n then 0
    else if n == 1 then 1
    else
      var lo := if s[0] == 0xE0 then 0xA0 else if s[0] == 0xF0 then 0x90 else 0x80;
      var hi := if s[0] == 0xED then 0x9F else if s[0] == 0xF4 then 0x8F else 0xBF;
      if lo <= s[1] <= hi && forall k | 2 <= k < n :: IsContinuation(s[k]) then n else 0
  }

  /** Reference definition: `s` splits, left to right, into well-formed
      sequences, as a decoder reads it. */
  predicate SplitsIntoSequences(s: Bytes)
    decreases |s|
  {
    |s| == 0 || (SequenceLength(s) > 0 && SplitsIntoSequences(s[SequenceLength(s)..]))
  }

  /** The continuation byte at `i` lies inside the sequence of a lead byte
      at most three bytes before it. */
  predicate Covered(s: Bytes, i: nat)
    requires i < |s|
  {
    || (i >= 1 && LeadLength(s[i - 1]) >= 2)
    || (i >= 2 && LeadLength(s[i - 2]) >= 3)
    || (i >= 3 && LeadLength(s[i - 3]) >= 4)
  }

  /** The byte at `i` is accounted for: it begins a well-formed sequence, or
      it continues one. */
  predicate Accepted(s: Bytes, i: nat)
    requires i < |s|
  {
    if IsContinuation(s[i]) then Covered(s, i) else SequenceLength(s[i..]) > 0
  }

  /** `s` is UTF-8 text, stated byte by byte. */
  predicate IsUtf8(s: Bytes)
  {
    forall i | 0 <= i < |s| :: Accepted(s, i)
  }

  /** The bytes of the first well-formed sequence are accounted for. */
  lemma AcceptedInFirst(s: Bytes, i: nat)
    requires |s| > 0 && SequenceLength(s) > 0 && i < SequenceLength(s)
    ensures Accepted(s, i)
  {
    if i == 0 {
      assert s[0..] == s;
    } else {
      assert IsContinuation(s[i]) && LeadLength(s[0]) == SequenceLength(s);
    }
  }

  /** Past the first well-formed sequence, a byte is accounted for in `s`
      exactly when it is in the rest of `s`. */
  lemma AcceptedAfterFirst(s: Bytes, j: nat)
    requires |s| > 0 && SequenceLength(s) > 0 && SequenceLength(s) + j < |s|
    ensures Accepted(s, SequenceLength(s) + j) <==> Accepted(s[SequenceLength(s)..], j)
  {
    var n := SequenceLength(s);
    var rest := s[n..];
    assert rest[j] == s[n + j];
    assert rest[j..] == s[n + j..];
    if IsContinuation(s[n + j]) {
      // A lead byte inside the first sequence is at its start, and is too
      // short to reach past it.
      if j < 3 && n + j >= 3 && n + j - 3 > 0 { assert IsContinuation(s[n + j - 3]); }
      if j < 2 && n + j >= 2 && n + j - 2 > 0 { assert IsContinuation(s[n + j - 2]); }
      if j < 1 && n + j >= 1 && n + j - 1 > 0 { assert IsContinuation(s[n + j - 1]); }
      if j >= 1 { assert rest[j - 1] == s[n + j - 1]; }
      if j >= 2 { assert rest[j - 2] == s[n + j - 2]; }
      if j >= 3 { assert rest[j - 3] == s[n + j - 3]; }
      assert Covered(s, n + j) <==> Covered(rest, j);
    }
  }

  /** The byte-by-byte statement and the left-to-right reading agree. */
  lemma {:induction false} Utf8Equivalence(s: Bytes)
    ensures IsUtf8(s) <==> SplitsIntoSequences(s)
    decreases |s|
  {
    if |s| > 0 {
      var n := SequenceLength(s);
      if n == 0 {
        assert s[0..] == s;
        assert !Accepted(s, 0);
      } else {
        var rest := s[n..];
        Utf8Equivalence(rest);
        if IsUtf8(rest) {
          forall i | 0 <= i < |s|
            ensures Accepted(s, i)
          {
            if i < n {
              AcceptedInFirst(s, i);
            } else {
              AcceptedAfterFirst(s, i - n);
            }
          }
        }
        if IsUtf8(s) {
          forall j | 0 <= j < |rest|
            ensures Accepted(rest, j)
          {
            AcceptedAfterFirst(s, j);
          }
        }
      }
    }
  }

  /** Extending a buffer does not change the sequence found at its start. */
  lemma SequenceLengthOfPrefix(a: Bytes, b: Bytes)
    requires |a| > 0 && SequenceLength(a) > 0
    ensures SequenceLength(a + b) == SequenceLength(a)
  {
    assert forall i | 0 <= i < |a| :: (a + b)[i] == a[i];
  }

  lemma {:induction false} ConcatSplits(a: Bytes, b: Bytes)
    requires SplitsIntoSequences(a) && SplitsIntoSequences(b)
    ensures SplitsIntoSequences(a + b)
    decreases |a|
  {
    if |a| > 0 {
      var n := SequenceLength(a);
      SequenceLengthOfPrefix(a, b);
      ConcatSplits(a[n..], b);
      assert (a + b)[n..] == a[n..] + b;
    } else {
      assert a + b == b;
    }
  }

  /** Gluing two UTF-8 texts gives UTF-8 text. */
  lemma ConcatIsUtf8(a: Bytes, b: Bytes)
    requires IsUtf8(a) && IsUtf8(b)
    ensures IsUtf8(a + b)
  {
    Utf8Equivalence(a);
    Utf8Equivalence(b);
    ConcatSplits(a, b);
    Utf8Equivalence(a + b);
  }

  /** ASCII text is UTF-8. */
  lemma AsciiIsUtf8(s: Bytes)
    requires forall i | 0 <= i < |s| :: s[i] < 0x80
    ensures IsUtf8(s)
  {
    forall i | 0 <= i < |s|
      ensures Accepted(s, i)
    {
      assert s[i..][0] == s[i];
    }
  }
}
