# Encoding detection and UTF-8 validation of the text-file converter

The converter is a browser page: the user uploads a `.txt` file, the page guesses its
byte encoding, shows a preview, lets the user override the guess, and saves the text
as UTF-8. This project models the logic of `script.js` that can be stated:

- `isValidUTF8`: the byte scan that decides whether a buffer is well-formed UTF-8 by
  the source's lenient rule. Only the lead byte's range decides the length:
  00–7F is 1 byte, C2–DF is 2, E0–EF is 3 and F0–F4 is 4, and each continuation
  byte must lie in 80–BF. It is modelled as `Utf8Validation.IsValidUtf8`, a method
  over a byte array. Its loop bumps the index inside the body as the source does.
  It is proved equal to the recursive specification `WellFormed`.
- `detectEncoding`: byte-order-mark sniffing, then trial decoding against the fixed
  list utf-8, gbk, gb2312, big5, shift_jis, euc-jp, euc-kr, iso-8859-1,
  windows-1252, then `utf-8` as the fallback. It is modelled as
  `EncodingDetection.DetectEncoding`, a method with the source's loop, proved equal
  to the function `Detect`. The platform decoder is a parameter `decode` whose
  `None` result stands for a thrown exception. The clean-decode test is a parameter
  `clean`, so that the test as written and the test as intended are both instances.
- The pure rules inside the handlers: the upload check (extension, then size), the
  selector's default (a detected utf-8 is shown as gbk), and the download name
  (the first `.txt` becomes `_utf8.txt`).

Modules: `Wrappers` (Option), `Utf8Validation`, `JsStrings` (the JavaScript string
operations used: `includes`, `replace` with the first-occurrence search it does at
script.js:263, `endsWith`, `toLowerCase`), `EncodingDetection`, `FileHandling`.

Three details of the code shape the detector model:

- `TextDecoder` is built in its default non-fatal mode (script.js:336). That mode
  puts U+FFFD in place of bad bytes and does not throw. `decode` is a parameter,
  so a decoder that throws is covered as well.
- A candidate whose decoded text is empty is rejected. This is the truthiness
  test at script.js:340, and it is kept in `Accepts`.
- The clean-decode test at script.js:340 compares against empty strings (see
  Findings).

The validator is deliberately as lenient as the source. `E0 80 80` (an overlong form)
and `ED A0 80` (an encoded surrogate) are accepted. `StrictWellFormed` follows the
grammar of section 4 of RFC 3629. It is included only to prove that the source's
rule accepts everything it accepts, and strictly more.

## Model

| member | source | states |
|---|---|---|
| `Utf8Validation.SequenceLength` | script.js:372-397 | a lead byte gives a length of at most 4; the length is 0 (no sequence) exactly for 80–C1 and F5–FF, and 1 exactly below 80 |
| `Utf8Validation.IsValidUtf8` | script.js:368-401 | the scan, with its in-body index bumps and early returns, returns true exactly when the buffer is `WellFormed` |
| `Utf8Validation.AppendIff` | script.js:369-399 | after a well-formed prefix, the whole buffer is well-formed exactly when the rest is; this is why stopping at the first violation is sound |
| `Utf8Validation.ConcatWellFormed` | script.js:369-400 | the concatenation of two valid buffers is valid |
| `Utf8Validation.SequenceWellFormed` | script.js:375-395 | one complete lead-class sequence is a valid buffer by itself |
| `Utf8Validation.ExtendBySequence` | script.js:375-395 | a valid prefix followed by one complete sequence is still valid (one round of the loop) |
| `Utf8Validation.SplitAtLead` | script.js:369-399 | a buffer whose first k bytes are valid is valid exactly when its bytes from k on are |
| `Utf8Validation.BadLeadRejected` | script.js:396-397 | a byte in 80–C1 or F5–FF where a lead byte is expected makes the buffer invalid |
| `Utf8Validation.TruncatedRejected` | script.js:377-390 | a 2-, 3- or 4-byte lead with fewer than 1, 2 or 3 bytes after it makes the buffer invalid |
| `Utf8Validation.BadContinuationRejected` | script.js:378-394 | a byte outside 80–BF in any continuation position of a sequence makes the buffer invalid |
| `Utf8Validation.AsciiWellFormed` | script.js:369-374 | a buffer of bytes below 80 only (the empty one included) is valid |
| `Utf8Validation.Examples` | script.js:368-401 | the empty buffer and `E4 B8 AD` are valid; `C2` and `80` are not; `E0 80 80` and `ED A0 80` are valid |
| `Utf8Validation.Split` | script.js:369-400 | a valid buffer is the concatenation of a list of lead-class sequences |
| `Utf8Validation.FlattenWellFormed` | script.js:369-400 | the concatenation of any list of lead-class sequences is valid |
| `Utf8Validation.WellFormedIffSplits` | script.js:369-400 | a buffer is valid exactly when it splits into lead-class sequences |
| `Utf8Validation.StrictImpliesLoose` | script.js:381-395 | every buffer that is UTF-8 by section 4 of RFC 3629 passes the source's scan |
| `Utf8Validation.LooseNotStrict` | script.js:381-395 | the overlong `E0 80 80` and the surrogate `ED A0 80` pass the scan but are not UTF-8 by RFC 3629 |
| `JsStrings.Includes` | script.js:340 | every string includes the empty string, and no string includes anything longer than itself |
| `JsStrings.EndsWith` | script.js:101 | every string ends with the empty string, and a string that ends with a suffix includes it |
| `JsStrings.LowerCase` | script.js:101 | the length is kept, no A–Z letter is left, and every character outside A–Z is kept |
| `JsStrings.ReplaceFirst` | script.js:263 | a string without the pattern is returned unchanged; one with it changes length by the difference and includes the replacement |
| `JsStrings.MissingCharNotIncluded` | script.js:263 | a string lacking one of the characters of a pattern does not include the pattern |
| `JsStrings.IndexOfFrom` | script.js:263 | the result is an occurrence at or after the start with none before it, or there is no occurrence from the start on |
| `JsStrings.IndexOf` | script.js:263 | the first-occurrence search of `replace`: the result is the first occurrence, and it is absent exactly when the string does not include the pattern |
| `EncodingDetection.Label` | script.js:319-364 | reading an encoding's label string back gives the encoding again |
| `EncodingDetection.LabelInjective` | script.js:319-364 | distinct encodings have distinct labels |
| `EncodingDetection.BomEncoding` | script.js:319-329 | a mark is found exactly when the buffer starts with `EF BB BF`, `FF FE` or `FE FF`, and it names utf-8, utf-16le or utf-16be |
| `EncodingDetection.CleanAsWritten` | script.js:340 | the clean test as written holds of no text, because every text includes the empty string |
| `EncodingDetection.HasCjk` | script.js:344 | true exactly when some character of the text lies in U+4E00–U+9FA5; false for any all-ASCII text |
| `EncodingDetection.Accepts` | script.js:335-360 | a decode that throws or yields the empty text rejects its candidate; an accepted candidate's text passes the clean test; accepted gbk or gb2312 text has CJK content; an accepted utf-8 buffer passes the byte scan |
| `EncodingDetection.FirstAccepted` | script.js:332-361 | the result is the index of an accepted candidate with no accepted one before it; it is absent exactly when every candidate is rejected |
| `EncodingDetection.Detect` | script.js:315-365 | with a mark, the result is the mark's encoding; without one, it is the first accepted candidate in list order, or utf-8 when every candidate is rejected |
| `EncodingDetection.DetectAt` | script.js:334-356 | without a mark, an accepted candidate with every earlier one rejected is the result; this is each early return of the loop |
| `EncodingDetection.DetectEncoding` | script.js:315-365 | the loop with early returns, skipped throws and the call to the byte scan returns exactly `Detect` |
| `EncodingDetection.BomPrecedence` | script.js:319-329 | `EF BB BF`, `FF FE` and `FE FF` followed by any bytes give utf-8, utf-16le and utf-16be: each mark decides the result whatever follows |
| `EncodingDetection.ResultIsCandidate` | script.js:332-364 | without a mark, the result is in the candidate list |
| `EncodingDetection.GbkNeedsCjk` | script.js:342-347 | gbk or gb2312 is returned only when that decode succeeded with a character in U+4E00–U+9FA5 |
| `EncodingDetection.Utf8NeedsValidOrFallback` | script.js:348-364 | without a mark, utf-8 is returned only for a buffer the byte scan accepts, or as the fallback after every candidate was rejected |
| `EncodingDetection.AllDecodesFailGivesUtf8` | script.js:334-364 | without a mark, if the decode of every candidate throws or yields the empty text, the result is utf-8 |
| `EncodingDetection.LaterCandidateAccepted` | script.js:340-356 | big5 and the candidates after it are accepted on any non-empty decode that passes the clean test |
| `EncodingDetection.Big5AfterChineseRejected` | script.js:332-356 | without a mark, once utf-8, gbk and gb2312 are rejected, a non-empty clean big5 decode gives big5 |
| `EncodingDetection.AsWrittenAlwaysUtf8` | script.js:334-364 | with the clean test as written, every buffer without a mark is detected as utf-8, whatever the decoder does |
| `EncodingDetection.AsWrittenMissesGbk` | script.js:340-347 | the GBK bytes `D6 D0` are detected as utf-8 with the test as written and as gbk with the test as intended |
| `EncodingDetection.IntendedDetectsGbk` | script.js:340-347 | with the intended test, a buffer that is not valid UTF-8 and whose gbk decode is clean and has CJK content is detected as gbk |
| `EncodingDetection.IntendedAsciiIsUtf8` | script.js:340-353 | with the intended test, an all-ASCII buffer whose utf-8 decode is non-empty and clean is accepted by the first candidate, utf-8 |
| `FileHandling.CheckFile` | script.js:101-113 | an upload is accepted exactly when the name ends in `.txt` in any letter case and the size is at most 52 428 800; a wrong extension is reported whatever the size |
| `FileHandling.DownloadName` | script.js:263 | a name without a lower-case `.txt` is saved unchanged; otherwise the saved name is five characters longer and includes `_utf8.txt` |
| `FileHandling.NoStraddle` | script.js:263 | a `.txt` cannot start in the three characters before a `.` |
| `FileHandling.FirstTxtAfterStem` | script.js:263 | in stem + `.txt` + rest, with no `.txt` in the stem, the first `.txt` starts right after the stem |
| `FileHandling.DownloadNameReplacesFirst` | script.js:263 | stem + `.txt` + rest is saved as stem + `_utf8.txt` + rest: only the first `.txt` is renamed |
| `FileHandling.TxtDecomposition` | script.js:263 | every name that includes `.txt` is a stem holding no `.txt`, then `.txt`, then the rest |
| `FileHandling.DownloadNameAnyTxt` | script.js:263 | every name that includes `.txt` is saved as its stem, `_utf8.txt` and the rest |
| `FileHandling.DownloadNamePlain` | script.js:263 | `notes.txt` is saved as `notes_utf8.txt` |
| `FileHandling.UpperCaseExtensionNotRenamed` | script.js:263 | `NOTES.TXT` is accepted for upload but saved unchanged, because the rename is case-sensitive |
| `FileHandling.DefaultSelection` | script.js:133 | the selector never starts at utf-8; any other detected encoding is kept; it starts at gbk exactly when utf-8 or gbk was detected |
| `FileHandling.AsWrittenSelectorStartsAtGbk` | script.js:128-133 | with the clean test as written, a buffer without a mark always starts the selector at gbk |

## Findings

| source | as written | input that shows it | evidently intended | confidence | as-written member | corrected member |
|---|---|---|---|---|---|---|
| script.js:340 | both `includes` arguments are empty strings. Every string includes the empty string, so the test never holds and no candidate is ever accepted | the GBK bytes `D6 D0` (U+4E2D), with no byte-order mark, are detected as utf-8; so is every other buffer without a mark | reject a decode that contains U+FFFD, the character a non-fatal decoder inserts for bad bytes | high; not executed | `EncodingDetection.AsWrittenAlwaysUtf8` | `EncodingDetection.IntendedDetectsGbk` |

`EncodingDetection.AsWrittenMissesGbk` exhibits both readings on the same input.
`CleanAsWritten` and `CleanIntended` are the two definitions of the test. `Detect` and
`DetectEncoding` take the test as a parameter, and all their other lemmas hold for
either reading.

## Left out

- DOM lookups, event listeners, drag-and-drop, the mobile user-agent check and the message banners with their timer (script.js:8-94, 279-301): user-interface plumbing.
- `FileReader` and the Blob / object-URL download wiring (script.js:119-156, 256-269): asynchronous I/O. Only the file name rule of line 263 is modelled.
- The internals of `TextDecoder` and `TextEncoder`: platform codecs, modelled only as the `decode` parameter. This also covers the decode / re-encode / decode round trip of `handleConvert` (script.js:222-228), the re-decode of `handleEncodingChange` and `showOriginalPreview`, and the 500-character previews.
- `formatFileSize` (script.js:304-312): floating-point logarithms and rounding.
- The session globals `currentFile`, `originalArrayBuffer`, `originalText` and `convertedText` (script.js:2-5): user-interface state.
- JsStrings.LowerCase: only A–Z is lower-cased, and every other character is kept. JavaScript's `toLowerCase` also maps other cased letters: `Ä` becomes `ä`, and U+0130 becomes two characters. The result at script.js:101 does not change, because only `T`, `X` and `.` lower-case to `t`, `x` and `.`, and the one mapping that changes length ends in U+0307, not `t`. `FileHandling.CheckFile` is therefore exact for every name.
- JavaScript strings are sequences of UTF-16 code units. Here they are sequences of Unicode scalar values. The CJK range test is unaffected, because U+4E00–U+9FA5 lies in the Basic Multilingual Plane and no surrogate code unit falls inside it.
- JsStrings.ReplaceFirst: `String.prototype.replace` is modelled for a replacement string without `$` patterns, which is the only use in the source.
