/** The encoding detector of script.js (detectEncoding): byte-order-mark sniffing,
    then trial decoding against a fixed candidate list in priority order, with a
    per-candidate acceptance rule, and `utf-8` when nothing is accepted.

    The platform decoder (TextDecoder) is not modelled: it is the parameter
    `decode`, whose None result stands for a thrown exception. The "clean decode"
    test of script.js:340 is the parameter `clean`; CleanAsWritten is that test as
    the source spells it and CleanIntended the test its authors evidently meant. */
module EncodingDetection {

  import opened Wrappers
  import opened Utf8Validation
  import opened JsStrings

  /** The closed set of labels the detector can return. */
  datatype Encoding =
    | Utf8 | Utf16Le | Utf16Be
    | Gbk | Gb2312 | Big5 | ShiftJis | EucJp | EucKr | Iso8859_1 | Windows1252

  /** The label string the source uses for each encoding; reading it back
      gives the encoding again. */
  function Label(e: Encoding): (r: string)
    ensures ParseLabel(r) == Some(e)
  {
    match e
    case Utf8 => "utf-8"
    case Utf16Le => "utf-16le"
    case Utf16Be => "utf-16be"
    case Gbk => "gbk"
    case Gb2312 => "gb2312"
    case Big5 => "big5"
    case ShiftJis => "shift_jis"
    case EucJp => "euc-jp"
    case EucKr => "euc-kr"
    case Iso8859_1 => "iso-8859-1"
    case Windows1252 => "windows-1252"
  }

  /** The encoding a label string names, as the source's string comparisons
      tell them apart. */
  function ParseLabel(s: string): Option<Encoding> {
    if s == "utf-8" then Some(Utf8)
    else if s == "utf-16le" then Some(Utf16Le)
    else if s == "utf-16be" then Some(Utf16Be)
    else if s == "gbk" then Some(Gbk)
    else if s == "gb2312" then Some(Gb2312)
    else if s == "big5" then Some(Big5)
    else if s == "shift_jis" then Some(ShiftJis)
    else if s == "euc-jp" then Some(EucJp)
    else if s == "euc-kr" then Some(EucKr)
    else if s == "iso-8859-1" then Some(Iso8859_1)
    else if s == "windows-1252" then Some(Windows1252)
    else None
  }

  /** No two encodings share a label, so comparing labels (as the source does)
      is comparing encodings. */
  lemma LabelInjective(a: Encoding, b: Encoding)
    ensures Label(a) == Label(b) ==> a == b
  {
  }

  /** The trial order when no byte-order mark is present. */
  const Candidates: seq<Encoding> :=
    [Utf8, Gbk, Gb2312, Big5, ShiftJis, EucJp, EucKr, Iso8859_1, Windows1252]

  type Decoder = (seq<byte>, Encoding) -> Option<string>

  // ---------------------------------------------------------------------------
  // Byte-order mark
  // ---------------------------------------------------------------------------

  /** The encoding a byte-order mark announces, checked in the source's order:
      EF BB BF, then FF FE, then FE FF. */
  function BomEncoding(bytes: seq<byte>): (r: Option<Encoding>)
    ensures r.Some? <==>
      (|bytes| >= 3 && bytes[..3] == [0xEF, 0xBB, 0xBF]) ||
      (|bytes| >= 2 && (bytes[..2] == [0xFF, 0xFE] || bytes[..2] == [0xFE, 0xFF]))
    ensures r.Some? ==> r.value in {Utf8, Utf16Le, Utf16Be}
  {
    if |bytes| >= 3 && bytes[0] == 0xEF && bytes[1] == 0xBB && bytes[2] == 0xBF then Some(Utf8)
    else if |bytes| >= 2 && bytes[0] == 0xFF && bytes[1] == 0xFE then Some(Utf16Le)
    else if |bytes| >= 2 && bytes[0] == 0xFE && bytes[1] == 0xFF then Some(Utf16Be)
    else None
  }

  // ---------------------------------------------------------------------------
  // The clean-decode test and the acceptance rule
  // ---------------------------------------------------------------------------

  /** The test of script.js:340 as written: both literals are empty strings,
      which every text includes, so the test holds of no text. */
  predicate CleanAsWritten(text: string)
    ensures !CleanAsWritten(text)
  {
    !Includes(text, "") && !Includes(text, "")
  }

  const ReplacementCharacter: char := '\U{FFFD}'

  /** The test its authors evidently meant: the decoded text holds no U+FFFD,
      the character a non-fatal decoder puts in place of bytes it cannot decode. */
  predicate CleanIntended(text: string) {
    !Includes(text, [ReplacementCharacter])
  }

  /** The character-class test of the gbk rule: some character of the text lies
      in the CJK Unified Ideographs range U+4E00-U+9FA5. */
  predicate HasCjk(text: string)
    ensures HasCjk(text) <==> exists c | c in text :: '\U{4E00}' <= c <= '\U{9FA5}'
    ensures (forall i | 0 <= i < |text| :: text[i] < '\U{80}') ==> !HasCjk(text)
  {
    assert forall i | 0 <= i < |text| :: text[i] in text;
    exists i | 0 <= i < |text| :: '\U{4E00}' <= text[i] <= '\U{9FA5}'
  }

  /** One round of the candidate loop: the decode succeeds with a non-empty,
      clean text and the candidate's own rule holds: CJK content for gbk and
      gb2312, a valid buffer for utf-8, nothing more for the others. */
  predicate Accepts(bytes: seq<byte>, decode: Decoder, clean: string -> bool, e: Encoding)
    ensures decode(bytes, e) == None || decode(bytes, e) == Some("") ==> !Accepts(bytes, decode, clean, e)
    ensures Accepts(bytes, decode, clean, e) ==> clean(decode(bytes, e).value)
    ensures Accepts(bytes, decode, clean, e) && (e == Gbk || e == Gb2312) ==> HasCjk(decode(bytes, e).value)
    ensures Accepts(bytes, decode, clean, e) && e == Utf8 ==> WellFormed(bytes)
  {
    match decode(bytes, e)
    case None => false
    case Some(text) =>
      |text| > 0 && clean(text) &&
      if e == Gbk || e == Gb2312 then HasCjk(text)
      else if e == Utf8 then WellFormed(bytes)
      else true
  }

  /** Index of the first candidate of `cands` that is accepted. */
  function FirstAccepted(bytes: seq<byte>, decode: Decoder, clean: string -> bool, cands: seq<Encoding>): (r: Option<nat>)
    ensures r.None? <==> forall j | 0 <= j < |cands| :: !Accepts(bytes, decode, clean, cands[j])
    ensures r.Some? ==>
      r.value < |cands| && Accepts(bytes, decode, clean, cands[r.value]) &&
      forall j | 0 <= j < r.value :: !Accepts(bytes, decode, clean, cands[j])
    decreases |cands|
  {
    if cands == [] then None
    else if Accepts(bytes, decode, clean, cands[0]) then Some(0)
    else
      match FirstAccepted(bytes, decode, clean, cands[1..])
      case None => None
      case Some(k) => Some(k + 1)
  }

  /** detectEncoding as a function of the buffer, the decoder and the clean test. */
  function Detect(bytes: seq<byte>, decode: Decoder, clean: string -> bool): (r: Encoding)
    ensures BomEncoding(bytes).Some? ==> r == BomEncoding(bytes).value
    ensures BomEncoding(bytes).None? ==>
      (exists k | 0 <= k < |Candidates| ::
        r == Candidates[k] && Accepts(bytes, decode, clean, r) &&
        forall j | 0 <= j < k :: !Accepts(bytes, decode, clean, Candidates[j])) ||
      (r == Utf8 && forall j | 0 <= j < |Candidates| :: !Accepts(bytes, decode, clean, Candidates[j]))
  {
    match BomEncoding(bytes)
    case Some(e) => e
    case None =>
      match FirstAccepted(bytes, decode, clean, Candidates)
      case Some(k) => Candidates[k]
      case None => Utf8
  }

  /** Without a mark, the candidate at index `i` is the result once it is
      accepted and every earlier one is rejected. */
  lemma DetectAt(bytes: seq<byte>, decode: Decoder, clean: string -> bool, i: nat)
    requires BomEncoding(bytes).None? && i < |Candidates|
    requires Accepts(bytes, decode, clean, Candidates[i])
    requires forall j | 0 <= j < i :: !Accepts(bytes, decode, clean, Candidates[j])
    ensures Detect(bytes, decode, clean) == Candidates[i]
  {
    var r := FirstAccepted(bytes, decode, clean, Candidates);
    assert r.Some? && r.value == i;
  }

  // ---------------------------------------------------------------------------
  // The detector as the source runs it
  // ---------------------------------------------------------------------------

  /** The source's loop over the candidate list, with early returns on acceptance
      and a skip when the decode throws; it calls the byte scan for utf-8. */
  method DetectEncoding(buffer: array<byte>, decode: Decoder, clean: string -> bool) returns (r: Encoding)
    ensures r == Detect(buffer[..], decode, clean)
  {
    if buffer.Length >= 3 && buffer[0] == 0xEF && buffer[1] == 0xBB && buffer[2] == 0xBF {
      return Utf8;
    }
    if buffer.Length >= 2 && buffer[0] == 0xFF && buffer[1] == 0xFE {
      return Utf16Le;
    }
    if buffer.Length >= 2 && buffer[0] == 0xFE && buffer[1] == 0xFF {
      return Utf16Be;
    }
    ghost var bytes := buffer[..];
    assert BomEncoding(bytes).None?;
    var i := 0;
    while i < |Candidates|
      invariant 0 <= i <= |Candidates|
      invariant forall j | 0 <= j < i :: !Accepts(bytes, decode, clean, Candidates[j])
    {
      var e := Candidates[i];
      match decode(buffer[..], e) {
        case None =>
          // the decoder threw: try the next candidate
        case Some(text) =>
          if |text| > 0 && clean(text) {
            if e == Gbk || e == Gb2312 {
              if HasCjk(text) {
                DetectAt(bytes, decode, clean, i);
                return e;
              }
            } else if e == Utf8 {
              var valid := IsValidUtf8(buffer);
              if valid {
                DetectAt(bytes, decode, clean, i);
                return e;
              }
            } else {
              DetectAt(bytes, decode, clean, i);
              return e;
            }
          }
      }
      i := i + 1;
    }
    return Utf8;
  }

  // ---------------------------------------------------------------------------
  // Properties of the detector
  // ---------------------------------------------------------------------------

  /** A byte-order mark decides the result whatever follows it, in the order
      EF BB BF, FF FE, FE FF. */
  lemma BomPrecedence(rest: seq<byte>, decode: Decoder, clean: string -> bool)
    ensures Detect([0xEF, 0xBB, 0xBF] + rest, decode, clean) == Utf8
    ensures Detect([0xFF, 0xFE] + rest, decode, clean) == Utf16Le
    ensures Detect([0xFE, 0xFF] + rest, decode, clean) == Utf16Be
  {
  }

  /** Without a byte-order mark the result is one of the candidates. */
  lemma ResultIsCandidate(bytes: seq<byte>, decode: Decoder, clean: string -> bool)
    requires BomEncoding(bytes).None?
    ensures Detect(bytes, decode, clean) in Candidates
  {
  }

  /** gbk or gb2312 is returned only when that decode succeeds with CJK content. */
  lemma GbkNeedsCjk(bytes: seq<byte>, decode: Decoder, clean: string -> bool)
    ensures var r := Detect(bytes, decode, clean);
      r == Gbk || r == Gb2312 ==> decode(bytes, r).Some? && HasCjk(decode(bytes, r).value)
  {
  }

  /** utf-8 is returned from the loop only for a buffer the byte scan accepts;
      otherwise it is the fallback after every candidate was rejected. */
  lemma Utf8NeedsValidOrFallback(bytes: seq<byte>, decode: Decoder, clean: string -> bool)
    requires BomEncoding(bytes).None?
    ensures Detect(bytes, decode, clean) == Utf8 ==>
      WellFormed(bytes) || forall j | 0 <= j < |Candidates| :: !Accepts(bytes, decode, clean, Candidates[j])
  {
  }

  /** When every decode throws or yields the empty text and there is no
      byte-order mark, the result is utf-8. */
  lemma AllDecodesFailGivesUtf8(bytes: seq<byte>, decode: Decoder, clean: string -> bool)
    requires BomEncoding(bytes).None?
    requires forall e | e in Candidates :: decode(bytes, e) == None || decode(bytes, e) == Some("")
    ensures Detect(bytes, decode, clean) == Utf8
  {
    forall j | 0 <= j < |Candidates|
      ensures !Accepts(bytes, decode, clean, Candidates[j])
    {
      assert Candidates[j] in Candidates;
    }
  }

  /** big5 and the candidates after it have no rule of their own: a non-empty
      decode that passes the clean test is accepted outright. */
  lemma LaterCandidateAccepted(bytes: seq<byte>, decode: Decoder, clean: string -> bool, e: Encoding, text: string)
    requires e in Candidates[3..]
    requires decode(bytes, e) == Some(text) && |text| > 0 && clean(text)
    ensures Accepts(bytes, decode, clean, e)
  {
    assert e != Utf8 && e != Gbk && e != Gb2312;
  }

  /** Without a mark, once utf-8, gbk and gb2312 are rejected, a non-empty
      clean big5 decode makes the result big5. */
  lemma Big5AfterChineseRejected(bytes: seq<byte>, decode: Decoder, clean: string -> bool, text: string)
    requires BomEncoding(bytes).None?
    requires !Accepts(bytes, decode, clean, Utf8)
    requires !Accepts(bytes, decode, clean, Gbk)
    requires !Accepts(bytes, decode, clean, Gb2312)
    requires decode(bytes, Big5) == Some(text) && |text| > 0 && clean(text)
    ensures Detect(bytes, decode, clean) == Big5
  {
    assert Candidates[3] == Big5 && Big5 in Candidates[3..];
    LaterCandidateAccepted(bytes, decode, clean, Big5, text);
    DetectAt(bytes, decode, clean, 3);
  }

  // ---------------------------------------------------------------------------
  // The clean test as written, and as intended
  // ---------------------------------------------------------------------------

  /** As written, the clean test rejects every text, so every buffer without a
      byte-order mark is detected as utf-8, whatever the decoder returns. */
  lemma AsWrittenAlwaysUtf8(bytes: seq<byte>, decode: Decoder)
    requires BomEncoding(bytes).None?
    ensures Detect(bytes, decode, CleanAsWritten) == Utf8
  {
    forall j | 0 <= j < |Candidates|
      ensures !Accepts(bytes, decode, CleanAsWritten, Candidates[j])
    {
      if decode(bytes, Candidates[j]).Some? {
        assert !CleanAsWritten(decode(bytes, Candidates[j]).value);
      }
    }
  }

  /** The bytes D6 D0 are U+4E2D in GBK. A non-fatal utf-8 decoder yields two
      replacement characters for them (D6 is not followed by a continuation byte,
      D0 is cut off). */
  const GbkSample: seq<byte> := [0xD6, 0xD0]

  /** A decoder for this one input. Only its utf-8 and gbk answers matter: gbk,
      the second candidate, is accepted before the later candidates are tried.
      It returns None for big5 onwards only to keep it short; a platform
      decoder in non-fatal mode would return some text for them. */
  function SampleDecode(bytes: seq<byte>, e: Encoding): Option<string> {
    if bytes != GbkSample then None
    else if e == Utf8 then Some([ReplacementCharacter, ReplacementCharacter])
    else if e == Gbk || e == Gb2312 then Some("\U{4E2D}")
    else None
  }

  /** The input that shows the discrepancy: a GBK buffer is reported as utf-8
      by the test as written and as gbk by the intended one. */
  lemma AsWrittenMissesGbk()
    ensures Detect(GbkSample, SampleDecode, CleanAsWritten) == Utf8
    ensures Detect(GbkSample, SampleDecode, CleanIntended) == Gbk
  {
    AsWrittenAlwaysUtf8(GbkSample, SampleDecode);
    var t: string := "\U{4E2D}";
    assert HasCjk(t) by {
      assert '\U{4E00}' <= t[0] <= '\U{9FA5}';
    }
    MissingCharNotIncluded(t, [ReplacementCharacter], ReplacementCharacter);
    assert !WellFormed(GbkSample) by {
      BadContinuationRejected(GbkSample, 0, 1);
    }
    IntendedDetectsGbk(GbkSample, SampleDecode, t);
  }

  /** With the intended test, a buffer that is not valid utf-8 and whose gbk
      decode is clean and holds CJK content is detected as gbk. */
  lemma IntendedDetectsGbk(bytes: seq<byte>, decode: Decoder, text: string)
    requires BomEncoding(bytes).None? && !WellFormed(bytes)
    requires decode(bytes, Gbk) == Some(text)
    requires CleanIntended(text) && HasCjk(text)
    ensures Detect(bytes, decode, CleanIntended) == Gbk
  {
  }

  /** With the intended test, a buffer of bytes below 0x80 whose utf-8 decode is
      non-empty and clean is detected as utf-8 by the first candidate. */
  lemma IntendedAsciiIsUtf8(bytes: seq<byte>, decode: Decoder, text: string)
    requires forall i | 0 <= i < |bytes| :: bytes[i] < 0x80
    requires decode(bytes, Utf8) == Some(text) && |text| > 0 && CleanIntended(text)
    ensures Detect(bytes, decode, CleanIntended) == Utf8
    ensures Accepts(bytes, decode, CleanIntended, Utf8)
  {
    AsciiWellFormed(bytes);
  }
}
