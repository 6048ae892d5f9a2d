/** The format-classification and dispatch layer of LunarParser
    (`LunarParser.DataFormats`): the format tag, the extension table, the
    content sniffer, and the decisions by which loads and saves pick a codec.

    The codecs themselves, the `DataNode` tree and the file system are
    outside the model. A codec call is represented by an outcome value that
    names the codec and the input it is handed (`Load`, `Encode`); a file is
    represented by the answers the file system would give about it. */
module DataFormats {
  import opened Text

  /** The format tag (`DataFormat`). */
  datatype DataFormat = Unknown | BIN | XML | JSON | YAML

  /** The three text codecs; each has a reader and a writer. */
  datatype TextCodec = XMLCodec | JSONCodec | YAMLCodec
  {
    /** The format tag this codec serves. */
    function Format(): (f: DataFormat)
      ensures f != Unknown && f != BIN
    {
      match this
      case XMLCodec => XML
      case JSONCodec => JSON
      case YAMLCodec => YAML
    }
  }

  newtype byte = x: int | 0 <= x < 256

  /** The exceptions the layer raises: `FileNotFoundException` and the
      "Format not supported" exception. */
  datatype Error = FileNotFound | FormatNotSupported

  datatype Result<T> = Ok(value: T) | Err(error: Error)

  /** A read the layer hands to a codec: a text reader given the text, or
      the binary reader given the raw bytes of the file. */
  datatype Load = ReadText(codec: TextCodec, text: string) | ReadBinary(bytes: seq<byte>)

  /** A write the layer hands to a codec: the writer of `codec` given the
      tree `root`. */
  datatype Encode<N> = Encode(codec: TextCodec, root: N)

  // ---------------------------------------------------------------------
  // Classification by extension

  /** Exact-match lookup of an extension, dot included. The lookup itself
      does not fold case: ".JSON" is Unknown here. */
  function GetFormatForExtension(extension: string): (f: DataFormat)
    ensures f == XML <==> extension == ".xml"
    ensures f == JSON <==> extension == ".json"
    ensures f == YAML <==> extension == ".yaml"
    ensures f == BIN <==> extension == ".bin"
  {
    if extension == ".xml" then XML
    else if extension == ".json" then JSON
    else if extension == ".yaml" then YAML
    else if extension == ".bin" then BIN
    else Unknown
  }

  /** Every recognised extension is already lower-case, so the callers'
      lower-casing never turns a recognised extension into an unrecognised one. */
  lemma RecognisedExtensionsSurviveLowerCasing(extension: string)
    requires GetFormatForExtension(extension) != Unknown
    ensures ToLower(extension) == extension
    ensures GetFormatForExtension(ToLower(extension)) == GetFormatForExtension(extension)
  {
    ToLowerFixesLowerCase(extension);
  }

  // ---------------------------------------------------------------------
  // Classification by content

  /** The format a leading non-white-space character announces. */
  function LeadFormat(c: char): (f: DataFormat)
    ensures f != BIN
  {
    match c
    case '-' => YAML
    case '<' => XML
    case '{' => JSON
    case '[' => JSON
    case _ => Unknown
  }

  /** The sniffing rule, stated recursively: skip white space, then let the
      first other character decide; white space alone (or nothing) is Unknown. */
  function SniffFormat(content: string): (f: DataFormat)
    ensures f != BIN
  {
    if content == [] then Unknown
    else if IsWhiteSpace(content[0]) then SniffFormat(content[1..])
    else LeadFormat(content[0])
  }

  /** `DetectFormat`: the left-to-right scan with a moving index. */
  method DetectFormat(content: string) returns (format: DataFormat)
    ensures format == SniffFormat(content)
  {
    var i := 0;
    while i < |content|
      invariant 0 <= i <= |content|
      invariant SniffFormat(content[i..]) == SniffFormat(content)
    {
      var c := content[i];
      assert content[i..][1..] == content[i + 1..];
      i := i + 1;

      if IsWhiteSpace(c) {
        continue;
      }

      match c
      case '-' => return YAML;
      case '<' => return XML;
      case '{' => return JSON;
      case '[' => return JSON;
      case _ => return Unknown;
    }
    return Unknown;
  }

  predicate AllWhiteSpace(s: string)
  {
    forall j :: 0 <= j < |s| ==> IsWhiteSpace(s[j])
  }

  /** `k` is the position of the first character of `s` that is not white space. */
  predicate FirstNonWhiteSpaceAt(s: string, k: int)
  {
    0 <= k < |s| && !IsWhiteSpace(s[k]) && AllWhiteSpace(s[..k])
  }

  lemma FirstNonWhiteSpaceUnique(s: string, k: int, m: int)
    requires FirstNonWhiteSpaceAt(s, k) && FirstNonWhiteSpaceAt(s, m)
    ensures k == m
  {
  }

  lemma {:induction false} FirstNonWhiteSpaceExists(s: string) returns (k: int)
    requires !AllWhiteSpace(s)
    ensures FirstNonWhiteSpaceAt(s, k)
  {
    if IsWhiteSpace(s[0]) {
      assert !AllWhiteSpace(s[1..]) by {
        var j :| 0 <= j < |s| && !IsWhiteSpace(s[j]);
        assert s[1..][j - 1] == s[j];
      }
      var k' := FirstNonWhiteSpaceExists(s[1..]);
      k := k' + 1;
      assert s[..k] == [s[0]] + s[1..][..k'];
    } else {
      k := 0;
    }
  }

  lemma {:induction false} SniffAtFirstNonWhiteSpace(s: string, k: int)
    requires FirstNonWhiteSpaceAt(s, k)
    ensures SniffFormat(s) == LeadFormat(s[k])
  {
    if k > 0 {
      assert s[..k][0] == s[0];
      assert s[1..][..k - 1] == s[..k][1..];
      SniffAtFirstNonWhiteSpace(s[1..], k - 1);
    }
  }

  /** Empty or white-space-only content is Unknown. */
  lemma {:induction false} SniffAllWhiteSpace(s: string)
    requires AllWhiteSpace(s)
    ensures SniffFormat(s) == Unknown
  {
    if s != [] {
      assert AllWhiteSpace(s[1..]) by {
        forall j | 0 <= j < |s| - 1 ensures IsWhiteSpace(s[1..][j]) {
          assert s[1..][j] == s[j + 1];
        }
      }
      SniffAllWhiteSpace(s[1..]);
    }
  }

  /** What sniffing returns, in terms of the first non-white-space character,
      in both directions; BIN is never a sniffing outcome. */
  lemma SniffFormatCharacterized(s: string)
    ensures SniffFormat(s) == YAML <==> exists k :: FirstNonWhiteSpaceAt(s, k) && s[k] == '-'
    ensures SniffFormat(s) == XML <==> exists k :: FirstNonWhiteSpaceAt(s, k) && s[k] == '<'
    ensures SniffFormat(s) == JSON <==>
              exists k :: FirstNonWhiteSpaceAt(s, k) && (s[k] == '{' || s[k] == '[')
    ensures SniffFormat(s) == Unknown <==>
              AllWhiteSpace(s) || exists k :: FirstNonWhiteSpaceAt(s, k) && s[k] !in "-<{["
    ensures SniffFormat(s) != BIN
  {
    if AllWhiteSpace(s) {
      SniffAllWhiteSpace(s);
      forall k | 0 <= k < |s| ensures !FirstNonWhiteSpaceAt(s, k) {
        assert IsWhiteSpace(s[k]);
      }
    } else {
      var k := FirstNonWhiteSpaceExists(s);
      SniffAtFirstNonWhiteSpace(s, k);
      forall m | FirstNonWhiteSpaceAt(s, m) ensures m == k {
        FirstNonWhiteSpaceUnique(s, k, m);
      }
    }
  }

  /** Leading white space never changes the classification. */
  lemma {:induction false} WhiteSpacePrefixIgnored(ws: string, s: string)
    requires AllWhiteSpace(ws)
    ensures SniffFormat(ws + s) == SniffFormat(s)
  {
    if ws != [] {
      assert IsWhiteSpace(ws[0]);
      assert (ws + s)[0] == ws[0];
      assert (ws + s)[1..] == ws[1..] + s;
      assert AllWhiteSpace(ws[1..]) by {
        forall j | 0 <= j < |ws| - 1 ensures IsWhiteSpace(ws[1..][j]) {
          assert ws[1..][j] == ws[j + 1];
        }
      }
      WhiteSpacePrefixIgnored(ws[1..], s);
    } else {
      assert ws + s == s;
    }
  }

  /** Once a non-white-space character has been seen, nothing after it
      changes the classification. */
  lemma {:induction false} SuffixIgnored(s: string, t: string)
    requires !AllWhiteSpace(s)
    ensures SniffFormat(s + t) == SniffFormat(s)
  {
    assert (s + t)[0] == s[0];
    if IsWhiteSpace(s[0]) {
      assert (s + t)[1..] == s[1..] + t;
      assert !AllWhiteSpace(s[1..]) by {
        var j :| 0 <= j < |s| && !IsWhiteSpace(s[j]);
        assert s[1..][j - 1] == s[j];
      }
      SuffixIgnored(s[1..], t);
    }
  }

  // ---------------------------------------------------------------------
  // Dispatch to the codecs

  /** `LoadFromString(format, contents)`: only the three text formats have a
      reader to delegate to; BIN and Unknown are "Format not supported". */
  function LoadFromStringAs(format: DataFormat, contents: string): (r: Result<Load>)
    ensures r.Ok? <==> format in {XML, JSON, YAML}
    ensures r.Ok? ==> r.value.ReadText? && r.value.codec.Format() == format && r.value.text == contents
    ensures r.Err? ==> r.error == FormatNotSupported
  {
    match format
    case XML => Ok(ReadText(XMLCodec, contents))
    case JSON => Ok(ReadText(JSONCodec, contents))
    case YAML => Ok(ReadText(YAMLCodec, contents))
    case _ => Err(FormatNotSupported)
  }

  /** `SaveToString(format, root)`: only the three text formats have a writer;
      BIN and Unknown are "Format not supported". */
  function SaveToString<N>(format: DataFormat, root: N): (r: Result<Encode<N>>)
    ensures r.Ok? <==> format in {XML, JSON, YAML}
    ensures r.Ok? ==> r.value.codec.Format() == format && r.value.root == root
    ensures r.Err? ==> r.error == FormatNotSupported
  {
    match format
    case XML => Ok(Encode(XMLCodec, root))
    case JSON => Ok(Encode(JSONCodec, root))
    case YAML => Ok(Encode(YAMLCodec, root))
    case _ => Err(FormatNotSupported)
  }

  /** Reading and writing accept the same formats and use the same codec for
      each, so a string saved in a format is read back by that format's codec. */
  lemma ReadWriteSymmetric<N>(format: DataFormat, contents: string, root: N)
    ensures LoadFromStringAs(format, contents).Ok? <==> SaveToString(format, root).Ok?
    ensures SaveToString(format, root).Ok? ==>
              LoadFromStringAs(format, contents) == Ok(ReadText(SaveToString(format, root).value.codec, contents))
  {
  }

  /** `LoadFromString(content)`: sniff, then dispatch on what was sniffed.
      It succeeds exactly when the first non-white-space character is one of
      `-`, `<`, `{`, `[`. */
  function LoadFromString(contents: string): (r: Result<Load>)
    ensures r == LoadFromStringAs(SniffFormat(contents), contents)
    ensures r.Ok? <==> exists k :: FirstNonWhiteSpaceAt(contents, k) && contents[k] in "-<{["
    ensures r.Err? ==> r.error == FormatNotSupported
  {
    SniffFormatCharacterized(contents);
    LoadFromStringAs(SniffFormat(contents), contents)
  }

  // ---------------------------------------------------------------------
  // Loading and saving files

  /** `LoadFromFile(fileName)`. The file is given by what the file system
      reports: whether it exists, the extension of its name as
      `Path.GetExtension` returns it, its raw bytes and its decoded text.
      Existence is checked first; a lower-cased ".bin" goes to the binary
      reader; otherwise the extension decides, and the content is sniffed
      only when the extension is unrecognised. */
  function LoadFromFile(fileExists: bool, extension: string, bytes: seq<byte>, text: string): (r: Result<Load>)
    ensures !fileExists ==> r == Err(FileNotFound)
    ensures fileExists && ToLower(extension) == ".bin" ==> r == Ok(ReadBinary(bytes))
    ensures fileExists && ToLower(extension) != ".bin" && GetFormatForExtension(ToLower(extension)) != Unknown ==>
              r.Ok? && r.value.ReadText? && r.value.text == text &&
              r.value.codec.Format() == GetFormatForExtension(ToLower(extension))
    ensures fileExists && GetFormatForExtension(ToLower(extension)) == Unknown ==> r == LoadFromString(text)
  {
    if !fileExists then Err(FileNotFound)
    else
      var ext := ToLower(extension);
      if ext == ".bin" then Ok(ReadBinary(bytes))
      else
        var format := GetFormatForExtension(ext);
        var format := if format == Unknown then SniffFormat(text) else format;
        LoadFromStringAs(format, text)
  }

  /** When a file load fails, and with which error. */
  lemma LoadFromFileFailures(fileExists: bool, extension: string, bytes: seq<byte>, text: string)
    ensures LoadFromFile(fileExists, extension, bytes, text) == Err(FileNotFound) <==> !fileExists
    ensures LoadFromFile(fileExists, extension, bytes, text) == Err(FormatNotSupported) <==>
              fileExists && GetFormatForExtension(ToLower(extension)) == Unknown && SniffFormat(text) == Unknown
  {
  }

  /** An existing file with a recognised extension is read by that
      extension's codec whatever its content looks like. */
  lemma ExtensionOverridesContent(extension: string, bytes: seq<byte>, text1: string, text2: string)
    requires GetFormatForExtension(ToLower(extension)) != Unknown
    ensures LoadFromFile(true, extension, bytes, text1).Ok?
    ensures LoadFromFile(true, extension, bytes, text1).value.ReadBinary? ||
              LoadFromFile(true, extension, bytes, text2).value.codec ==
              LoadFromFile(true, extension, bytes, text1).value.codec
  {
  }

  /** `SaveToFile(fileName, root)`: the lower-cased extension alone picks the
      writer; nothing is sniffed, and ".bin" or an unrecognised extension is
      "Format not supported" before anything is written. On success the
      writer's output replaces the whole file. */
  function SaveToFile<N>(extension: string, root: N): (r: Result<Encode<N>>)
    ensures r.Ok? <==> ToLower(extension) in {".xml", ".json", ".yaml"}
    ensures r.Ok? ==> r.value.root == root && r.value.codec.Format() == GetFormatForExtension(ToLower(extension))
    ensures r.Err? ==> r.error == FormatNotSupported
  {
    var ext := ToLower(extension);
    var format := GetFormatForExtension(ext);
    SaveToString(format, root)
  }

  /** Names that differ only in the case of ASCII letters are loaded and
      saved alike. */
  lemma ExtensionCaseIgnored<N>(e1: string, e2: string, fileExists: bool, bytes: seq<byte>, text: string, root: N)
    requires ToLower(e1) == ToLower(e2)
    ensures LoadFromFile(fileExists, e1, bytes, text) == LoadFromFile(fileExists, e2, bytes, text)
    ensures SaveToFile(e1, root) == SaveToFile(e2, root)
  {
  }

  /** A file that was saved under a name is loaded back from that name by
      the codec that wrote it, whatever the writer produced. */
  lemma SaveThenLoadSameCodec<N>(extension: string, root: N, bytes: seq<byte>, written: string)
    requires SaveToFile(extension, root).Ok?
    ensures LoadFromFile(true, extension, bytes, written) ==
              Ok(ReadText(SaveToFile(extension, root).value.codec, written))
  {
  }

  /** Concrete cases of sniffing. */
  lemma SniffExamples()
    ensures SniffFormat("  {\"a\":1}") == JSON
    ensures SniffFormat("<root><a>1</a></root>") == XML
    ensures SniffFormat("   ") == Unknown && SniffFormat("") == Unknown
  {
  }

  /** Concrete cases of file resolution: a missing file, the extension
      beating the content, the fallback to sniffing, upper-case extensions,
      and BIN being loadable but not savable. */
  lemma FileExamples()
    ensures LoadFromFile(false, ".json", [], "{}") == Err(FileNotFound)
    ensures LoadFromFile(true, ".json", [], "- a") == Ok(ReadText(JSONCodec, "- a"))
    ensures LoadFromFile(true, ".txt", [], "- a") == Ok(ReadText(YAMLCodec, "- a"))
    ensures LoadFromStringAs(Unknown, "anything") == Err(FormatNotSupported)
    ensures GetFormatForExtension(".JSON") == Unknown && SaveToFile(".JSON", 0) == Ok(Encode(JSONCodec, 0))
    ensures LoadFromFile(true, ".BIN", [1], "") == Ok(ReadBinary([1])) && SaveToFile(".bin", 0) == Err(FormatNotSupported)
  {
  }
}
