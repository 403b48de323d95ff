/** The pure rules inside the page's handlers: which uploads are accepted and
    which encoding the selector starts at (processFile), and what name the
    converted file is saved under (handleDownload). */
module FileHandling {

  import opened Wrappers
  import opened JsStrings
  import opened Utf8Validation
  import opened EncodingDetection

  /** The upload ceiling: 50 MiB. */
  const MaxFileSize: nat := 50 * 1024 * 1024

  /** Outcome of the upload checks; each rejection is one error message. */
  datatype FileCheck = Accepted | NotText | TooLarge

  /** The name ends in a dot followed by t, x, t, each in either case. */
  predicate HasTxtExtension(name: string) {
    var n := |name|;
    n >= 4 && name[n - 4] == '.' && name[n - 3] in "tT" && name[n - 2] in "xX" && name[n - 1] in "tT"
  }

  /** The upload check: the extension is checked before the size. An upload is
      accepted exactly when its name ends in ".txt" in any letter case and it
      has at most 52 428 800 bytes; a wrong extension is reported whatever the
      size. */
  function CheckFile(name: string, size: nat): (r: FileCheck)
    ensures r == Accepted <==> HasTxtExtension(name) && size <= 52428800
    ensures r == NotText <==> !HasTxtExtension(name)
    ensures r == TooLarge <==> HasTxtExtension(name) && size > 52428800
  {
    var lower := LowerCase(name);
    var n := |name|;
    assert n >= 4 ==> lower[n - 4..] == [lower[n - 4], lower[n - 3], lower[n - 2], lower[n - 1]];
    if !EndsWith(lower, ".txt") then NotText
    else if size > MaxFileSize then TooLarge
    else Accepted
  }

  /** The name the converted file is downloaded under: unchanged when the
      name holds no lower-case ".txt", otherwise five characters longer and
      holding "_utf8.txt". */
  function DownloadName(name: string): (r: string)
    ensures !Includes(name, ".txt") ==> r == name
    ensures Includes(name, ".txt") ==> |r| == |name| + 5 && Includes(r, "_utf8.txt")
  {
    ReplaceFirst(name, ".txt", "_utf8.txt")
  }

  /** A ".txt" starting in the three characters before a '.' would need that
      '.' to be one of 't', 'x', 't'. */
  lemma NoStraddle(s: string, dot: nat, j: nat)
    requires dot < |s| && s[dot] == '.'
    requires j < dot < j + 4 <= |s|
    ensures s[j..j + 4] != ".txt"
  {
    assert s[j..j + 4][dot - j] == s[dot];
  }

  /** No occurrence of ".txt" can straddle the end of a stem that holds none:
      the first one in stem + ".txt" + rest is the one after the stem. */
  lemma FirstTxtAfterStem(stem: string, rest: string)
    requires !Includes(stem, ".txt")
    ensures IndexOf(stem + ".txt" + rest, ".txt") == Some(|stem|)
  {
    var s := stem + ".txt" + rest;
    assert OccursAt(s, ".txt", |stem|) by {
      assert s[|stem|..|stem| + 4] == ".txt";
    }
    forall j | 0 <= j < |stem| ensures !OccursAt(s, ".txt", j) {
      if j + 4 <= |stem| {
        assert s[j..j + 4] == stem[j..j + 4];
        assert !OccursAt(stem, ".txt", j);
      } else if j + 4 <= |s| {
        NoStraddle(s, |stem|, j);
      }
    }
    assert IndexOf(s, ".txt").Some?;
  }

  /** Every name that includes ".txt" is a stem holding none, then ".txt", then
      the rest; so DownloadNameReplacesFirst covers every name that is renamed. */
  lemma TxtDecomposition(name: string)
    requires Includes(name, ".txt")
    ensures exists stem, rest :: name == stem + ".txt" + rest && !Includes(stem, ".txt")
  {
    var k := IndexOf(name, ".txt").value;
    var stem, rest := name[..k], name[k + 4..];
    assert name[k..k + 4] == ".txt";
    assert name == stem + ".txt" + rest;
    forall j: nat | j <= |stem| ensures !OccursAt(stem, ".txt", j) {
      if OccursAt(stem, ".txt", j) {
        assert name[j..j + 4] == stem[j..j + 4];
        assert OccursAt(name, ".txt", j);
      }
    }
  }

  /** Only the first ".txt" is renamed; everything after it is kept. */
  lemma DownloadNameReplacesFirst(stem: string, rest: string)
    requires !Includes(stem, ".txt")
    ensures DownloadName(stem + ".txt" + rest) == stem + "_utf8.txt" + rest
  {
    FirstTxtAfterStem(stem, rest);
    var s := stem + ".txt" + rest;
    assert s[..|stem|] == stem;
    assert s[|stem| + 4..] == rest;
  }

  /** Every name holding ".txt" is saved as its stem, "_utf8.txt" and the rest. */
  lemma DownloadNameAnyTxt(name: string)
    requires Includes(name, ".txt")
    ensures exists stem, rest ::
      name == stem + ".txt" + rest && !Includes(stem, ".txt") &&
      DownloadName(name) == stem + "_utf8.txt" + rest
  {
    TxtDecomposition(name);
    var stem, rest :| name == stem + ".txt" + rest && !Includes(stem, ".txt");
    DownloadNameReplacesFirst(stem, rest);
  }

  /** The ordinary case. */
  lemma DownloadNamePlain()
    ensures DownloadName("notes.txt") == "notes_utf8.txt"
  {
    var stem, ext, renamed := "notes", ".txt", "_utf8.txt";
    assert ext[0] == '.';
    MissingCharNotIncluded(stem, ext, '.');
    DownloadNameReplacesFirst(stem, "");
    assert stem + ext + "" == "notes.txt";
    assert stem + renamed + "" == "notes_utf8.txt";
  }

  /** An upper-case extension passes the upload check, but the case-sensitive
      rename leaves the name as it is. */
  lemma UpperCaseExtensionNotRenamed()
    ensures CheckFile("NOTES.TXT", 100) == Accepted
    ensures DownloadName("NOTES.TXT") == "NOTES.TXT"
  {
    MissingCharNotIncluded("NOTES.TXT", ".txt", 't');
  }

  /** The value the encoding selector starts with: a detected utf-8 is shown as
      gbk, any other result as itself. */
  function DefaultSelection(detected: Encoding): (r: Encoding)
    ensures r != Utf8
    ensures detected != Utf8 ==> r == detected
    ensures r == Gbk <==> detected == Utf8 || detected == Gbk
  {
    if detected == Utf8 then Gbk else detected
  }

  /** With the clean test as written, a buffer without a byte-order mark always
      starts the selector at gbk. */
  lemma AsWrittenSelectorStartsAtGbk(bytes: seq<byte>, decode: Decoder)
    requires BomEncoding(bytes).None?
    ensures DefaultSelection(Detect(bytes, decode, CleanAsWritten)) == Gbk
  {
    AsWrittenAlwaysUtf8(bytes, decode);
  }
}
