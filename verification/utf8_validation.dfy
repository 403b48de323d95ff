/** The byte-sequence validator of script.js (isValidUTF8): a single left-to-right
    scan that classifies every lead byte by range and checks that the right number
    of continuation bytes follows it.

    The acceptance rule is the lenient one of the source: only the lead byte's range
    decides the sequence length, so overlong forms after E0/F0 and encoded surrogates
    after ED pass. StrictWellFormed, the grammar of section 4 of RFC 3629, is defined
    beside it only to prove that the source's rule is strictly weaker. */
module Utf8Validation {

  newtype byte = x: int | 0 <= x < 256

  /** Number of bytes in the sequence that `lead` starts, or 0 when `lead` cannot
      start a sequence (0x80-0xC1, 0xF5-0xFF). */
  function SequenceLength(lead: byte): (n: nat)
    ensures n <= 4
    ensures n == 0 <==> (0x80 <= lead <= 0xC1 || 0xF5 <= lead)
    ensures n == 1 <==> lead < 0x80
  {
    if lead < 0x80 then 1
    else if 0xC2 <= lead <= 0xDF then 2
    else if 0xE0 <= lead <= 0xEF then 3
    else if 0xF0 <= lead <= 0xF4 then 4
    else 0
  }

  predicate IsContinuation(b: byte) {
    0x80 <= b <= 0xBF
  }

  /** `s` is exactly one sequence: a lead byte followed by as many continuation
      bytes as the lead's class asks for. */
  predicate IsSequence(s: seq<byte>) {
    |s| > 0 && SequenceLength(s[0]) == |s| &&
    forall j | 1 <= j < |s| :: IsContinuation(s[j])
  }

  /** `s` splits, from the front, into sequences accepted by IsSequence. */
  predicate WellFormed(s: seq<byte>)
    decreases |s|
  {
    s == [] ||
    var n := SequenceLength(s[0]);
    0 < n <= |s| && IsSequence(s[..n]) && WellFormed(s[n..])
  }

  // ---------------------------------------------------------------------------
  // The scan itself
  // ---------------------------------------------------------------------------

  /** The source's loop: the index advances by one at the end of every round and
      is bumped inside the round by the number of continuation bytes consumed;
      any violation returns false at once. */
  method IsValidUtf8(bytes: array<byte>) returns (ok: bool)
    ensures ok == WellFormed(bytes[..])
  {
    var i := 0;
    while i < bytes.Length
      invariant 0 <= i <= bytes.Length
      invariant WellFormed(bytes[..i])
    {
      ghost var start := i;
      var b := bytes[i];
      if b < 0x80 {
        // a single-byte character: nothing more to consume
      } else if 0xC2 <= b <= 0xDF {
        if i + 1 >= bytes.Length {
          TruncatedRejected(bytes[..], i);
          return false;
        }
        var next := bytes[i + 1];
        if next < 0x80 || next > 0xBF {
          BadContinuationRejected(bytes[..], i, 1);
          return false;
        }
        i := i + 1;
      } else if 0xE0 <= b <= 0xEF {
        if i + 2 >= bytes.Length {
          TruncatedRejected(bytes[..], i);
          return false;
        }
        var next1 := bytes[i + 1];
        var next2 := bytes[i + 2];
        if next1 < 0x80 || next1 > 0xBF || next2 < 0x80 || next2 > 0xBF {
          BadContinuationRejected(bytes[..], i, if next1 < 0x80 || next1 > 0xBF then 1 else 2);
          return false;
        }
        i := i + 2;
      } else if 0xF0 <= b <= 0xF4 {
        if i + 3 >= bytes.Length {
          TruncatedRejected(bytes[..], i);
          return false;
        }
        var next1 := bytes[i + 1];
        var next2 := bytes[i + 2];
        var next3 := bytes[i + 3];
        if next1 < 0x80 || next1 > 0xBF || next2 < 0x80 || next2 > 0xBF || next3 < 0x80 || next3 > 0xBF {
          BadContinuationRejected(bytes[..], i,
            if next1 < 0x80 || next1 > 0xBF then 1
            else if next2 < 0x80 || next2 > 0xBF then 2
            else 3);
          return false;
        }
        i := i + 3;
      } else {
        BadLeadRejected(bytes[..], i);
        return false;
      }
      i := i + 1;
      ExtendBySequence(bytes[..], start, i - start);
    }
    assert bytes[..i] == bytes[..];
    return true;
  }

  // ---------------------------------------------------------------------------
  // Properties of WellFormed
  // ---------------------------------------------------------------------------

  /** A well-formed prefix parses away: the rest of the buffer decides alone.
      This is what lets the scan stop at the first violation. */
  lemma {:induction false} AppendIff(a: seq<byte>, b: seq<byte>)
    requires WellFormed(a)
    ensures WellFormed(a + b) <==> WellFormed(b)
    decreases |a|
  {
    if a == [] {
      assert a + b == b;
    } else {
      var n := SequenceLength(a[0]);
      assert (a + b)[0] == a[0];
      assert (a + b)[..n] == a[..n];
      assert (a + b)[n..] == a[n..] + b;
      AppendIff(a[n..], b);
    }
  }

  /** Concatenating two valid buffers gives a valid buffer. */
  lemma {:induction false} ConcatWellFormed(a: seq<byte>, b: seq<byte>)
    requires WellFormed(a) && WellFormed(b)
    ensures WellFormed(a + b)
  {
    AppendIff(a, b);
  }

  /** A single sequence is a valid buffer by itself. */
  lemma SequenceWellFormed(s: seq<byte>)
    requires IsSequence(s)
    ensures WellFormed(s)
  {
  }

  /** One more sequence after a valid prefix keeps the prefix valid. */
  lemma ExtendBySequence(s: seq<byte>, k: nat, n: nat)
    requires k + n <= |s|
    requires WellFormed(s[..k])
    requires IsSequence(s[k..k + n])
    ensures WellFormed(s[..k + n])
  {
    SequenceWellFormed(s[k..k + n]);
    ConcatWellFormed(s[..k], s[k..k + n]);
    assert s[..k] + s[k..k + n] == s[..k + n];
  }

  /** Splitting a buffer at a lead position: it is valid exactly when what
      follows the valid prefix is. */
  lemma SplitAtLead(s: seq<byte>, k: nat)
    requires k <= |s| && WellFormed(s[..k])
    ensures WellFormed(s) <==> WellFormed(s[k..])
  {
    AppendIff(s[..k], s[k..]);
    assert s[..k] + s[k..] == s;
  }

  /** A byte that cannot lead a sequence, met where a lead byte is expected,
      makes the whole buffer invalid. */
  lemma BadLeadRejected(s: seq<byte>, k: nat)
    requires k < |s| && WellFormed(s[..k])
    requires 0x80 <= s[k] <= 0xC1 || 0xF5 <= s[k]
    ensures !WellFormed(s)
  {
    SplitAtLead(s, k);
  }

  /** A multi-byte lead with too few bytes left before the end of the buffer
      makes the whole buffer invalid. */
  lemma TruncatedRejected(s: seq<byte>, k: nat)
    requires k < |s| && WellFormed(s[..k])
    requires SequenceLength(s[k]) > |s| - k
    ensures !WellFormed(s)
  {
    SplitAtLead(s, k);
  }

  /** A byte outside 0x80-0xBF in a continuation position makes the whole
      buffer invalid. */
  lemma BadContinuationRejected(s: seq<byte>, k: nat, j: nat)
    requires k < |s| && WellFormed(s[..k])
    requires 1 <= j < SequenceLength(s[k]) && k + j < |s|
    requires !IsContinuation(s[k + j])
    ensures !WellFormed(s)
  {
    SplitAtLead(s, k);
    var n := SequenceLength(s[k]);
    if n <= |s| - k {
      assert s[k..][..n][j] == s[k + j];
    }
  }

  /** A buffer of bytes below 0x80 only is valid (the empty buffer included). */
  lemma {:induction false} AsciiWellFormed(s: seq<byte>)
    requires forall i | 0 <= i < |s| :: s[i] < 0x80
    ensures WellFormed(s)
    decreases |s|
  {
    if s != [] {
      assert IsSequence(s[..1]);
      AsciiWellFormed(s[1..]);
    }
  }

  /** Small buffers: U+4E2D, a truncated lead, a bare continuation byte, and
      the two lenient forms. */
  lemma Examples()
    ensures WellFormed([])
    ensures WellFormed([0xE4, 0xB8, 0xAD])   // U+4E2D
    ensures !WellFormed([0xC2])
    ensures !WellFormed([0x80])
    ensures WellFormed([0xE0, 0x80, 0x80])   // overlong, accepted
    ensures WellFormed([0xED, 0xA0, 0x80])   // surrogate U+D800, accepted
  {
  }

  // ---------------------------------------------------------------------------
  // An independent reading: a buffer is valid when it is the concatenation of
  // a list of sequences
  // ---------------------------------------------------------------------------

  function Flatten(chunks: seq<seq<byte>>): seq<byte> {
    if chunks == [] then [] else chunks[0] + Flatten(chunks[1..])
  }

  predicate AllSequences(chunks: seq<seq<byte>>) {
    forall k | 0 <= k < |chunks| :: IsSequence(chunks[k])
  }

  /** The split the scan walks through: the list of sequences of a valid buffer. */
  function Split(s: seq<byte>): (chunks: seq<seq<byte>>)
    requires WellFormed(s)
    ensures AllSequences(chunks) && Flatten(chunks) == s
    decreases |s|
  {
    if s == [] then []
    else
      var n := SequenceLength(s[0]);
      assert s[..n] + s[n..] == s;
      [s[..n]] + Split(s[n..])
  }

  lemma {:induction false} FlattenWellFormed(chunks: seq<seq<byte>>)
    requires AllSequences(chunks)
    ensures WellFormed(Flatten(chunks))
    decreases |chunks|
  {
    if chunks != [] {
      SequenceWellFormed(chunks[0]);
      FlattenWellFormed(chunks[1..]);
      ConcatWellFormed(chunks[0], Flatten(chunks[1..]));
    }
  }

  /** The scan accepts a buffer exactly when it splits into lead-class sequences. */
  lemma WellFormedIffSplits(s: seq<byte>)
    ensures WellFormed(s) <==> exists chunks :: AllSequences(chunks) && Flatten(chunks) == s
  {
    if WellFormed(s) {
      var chunks := Split(s);
      assert AllSequences(chunks) && Flatten(chunks) == s;
    }
    if exists chunks :: AllSequences(chunks) && Flatten(chunks) == s {
      var chunks :| AllSequences(chunks) && Flatten(chunks) == s;
      FlattenWellFormed(chunks);
    }
  }

  // ---------------------------------------------------------------------------
  // Section 4 of RFC 3629, to measure the source's leniency against
  // ---------------------------------------------------------------------------

  /** One sequence of the UTF8-char rule of section 4 of RFC 3629: the second
      byte is narrowed after E0 (no overlong forms), ED (no surrogates),
      F0 (no overlong forms) and F4 (nothing above U+10FFFF). */
  predicate IsStrictSequence(s: seq<byte>) {
    (|s| == 1 && s[0] < 0x80) ||
    (|s| == 2 && 0xC2 <= s[0] <= 0xDF && IsContinuation(s[1])) ||
    (|s| == 3 && IsContinuation(s[2]) &&
      ((s[0] == 0xE0 && 0xA0 <= s[1] <= 0xBF) ||
       (0xE1 <= s[0] <= 0xEC && IsContinuation(s[1])) ||
       (s[0] == 0xED && 0x80 <= s[1] <= 0x9F) ||
       (0xEE <= s[0] <= 0xEF && IsContinuation(s[1])))) ||
    (|s| == 4 && IsContinuation(s[2]) && IsContinuation(s[3]) &&
      ((s[0] == 0xF0 && 0x90 <= s[1] <= 0xBF) ||
       (0xF1 <= s[0] <= 0xF3 && IsContinuation(s[1])) ||
       (s[0] == 0xF4 && 0x80 <= s[1] <= 0x8F)))
  }

  /** A UTF8-octets string of section 4 of RFC 3629. */
  predicate StrictWellFormed(s: seq<byte>)
    decreases |s|
  {
    s == [] ||
    var n := SequenceLength(s[0]);
    0 < n <= |s| && IsStrictSequence(s[..n]) && StrictWellFormed(s[n..])
  }

  /** Everything RFC 3629 accepts, the source accepts too ... */
  lemma {:induction false} StrictImpliesLoose(s: seq<byte>)
    requires StrictWellFormed(s)
    ensures WellFormed(s)
    decreases |s|
  {
    if s != [] {
      var n := SequenceLength(s[0]);
      assert IsSequence(s[..n]);
      StrictImpliesLoose(s[n..]);
    }
  }

  /** ... but not the other way round: an overlong form and an encoded surrogate
      pass the source's scan and fail the RFC's grammar. */
  lemma LooseNotStrict()
    ensures WellFormed([0xE0, 0x80, 0x80]) && !StrictWellFormed([0xE0, 0x80, 0x80])
    ensures WellFormed([0xED, 0xA0, 0x80]) && !StrictWellFormed([0xED, 0xA0, 0x80])
  {
  }
}
