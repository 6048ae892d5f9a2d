# LunarParser format layer, modelled in Dafny

LunarParser reads and writes one data-tree model (`DataNode`) in several
encodings: XML, JSON, YAML and a binary form. This project models the layer
in `LunarParser/Formats.cs` that decides which encoding applies and which
codec is called. That layer is the static class `DataFormats` together with
the `DataFormat` enum. The model covers:

- `DataFormat`, a five-valued tag: Unknown, BIN, XML, JSON, YAML.
- `GetFormatForExtension`, an exact-match table from an extension (dot
  included) to a format.
- `DetectFormat`, the content sniffer. It is a method that keeps the
  source's loop over a moving index, proved equal to the recursive
  specification `SniffFormat`. `SniffFormat` is in turn characterised through
  the first character that is not white space.
- The dispatch of `LoadFromString(format, contents)` (here
  `LoadFromStringAs`, since Dafny has no overloading), `LoadFromString(content)`
  and `SaveToString`.
- The order in which `LoadFromFile` and `SaveToFile` resolve a format.

The codecs are not interpreted. A call into one is an outcome value:
- `ReadText(codec, text)` for the XML, JSON or YAML reader;
- `ReadBinary(bytes)` for the binary reader;
- `Encode(codec, root)` for a writer.

Failures are `Err(FileNotFound)` or `Err(FormatNotSupported)`. The tree type
is a type parameter `N` that is passed through unchanged.

`LoadFromFile` receives a file as the answers the file system would give:
- whether it exists;
- the extension of its name, as `Path.GetExtension` returns it;
- its raw bytes;
- its decoded text.

`SaveToFile` receives only the extension. Its outcome is the writer call
whose output becomes the whole new file content.

The model's `LoadFromString` and `LoadFromFile` are functions, so they use
`SniffFormat` where the source calls `DetectFormat`. The method
`DetectFormat` is proved to return exactly `SniffFormat`, so the two agree.

White space is the set that .NET's `char.IsWhiteSpace` accepts:
- U+0009 to U+000D, and U+0085;
- the space separators U+0020, U+00A0, U+1680, U+2000 to U+200A, U+202F,
  U+205F and U+3000;
- U+2028 and U+2029.

Dafny characters are Unicode scalar values, whereas .NET strings hold UTF-16
units. A surrogate is neither white space nor one of `- < { [`. So a
supplementary character in the leading position gives Unknown under both
readings.

Three points of the code that the model keeps as they are:
- Extension lookup is exact, so `GetFormatForExtension(".JSON")` is Unknown.
  File loads and saves ignore case only because their callers lower-case the
  extension first (`Formats.cs:108`, `:130`). So `SaveToFile(".JSON", …)`
  uses JSON.
- `SaveToString` has no BIN case (`Formats.cs:80-89`). So
  `SaveToString(BIN, …)` and `SaveToFile(".bin", …)` fail, while
  `LoadFromFile` of a ".bin" file succeeds. `Formats.cs` reaches no binary
  writer; only `LoadFromFile` reaches the binary reader.
- Both dispatch failures are a plain `System.Exception("Format not
  supported")` (`Formats.cs:73`, `:87`). The model has the error variant
  `FormatNotSupported` for it.

## Model

| member | source | states |
|---|---|---|
| Text.IsWhiteSpace | LunarParser/Formats.cs:46 | the characters .NET's `char.IsWhiteSpace` accepts: U+0009 to U+000D, U+0085, the space separators U+0020, U+00A0, U+1680, U+2000 to U+200A, U+202F, U+205F and U+3000, and U+2028 and U+2029 |
| Text.LowerChar | LunarParser/Formats.cs:108 | the character lower-cased: an ASCII capital becomes its small letter, every other character is unchanged, and the result is never a capital |
| Text.ToLower | LunarParser/Formats.cs:130 | the extension lower-cased character by character, with the same length |
| Text.ToLowerFixesLowerCase | LunarParser/Formats.cs:108 | lower-casing yields a string without capitals and leaves such a string unchanged |
| DataFormats.TextCodec.Format | LunarParser/Formats.cs:66-70 | each text codec serves one of XML, JSON, YAML, never Unknown or BIN |
| DataFormats.GetFormatForExtension | LunarParser/Formats.cs:22-36 | XML, JSON, YAML and BIN come back for exactly ".xml", ".json", ".yaml" and ".bin"; the match is exact; every other string gives Unknown |
| DataFormats.RecognisedExtensionsSurviveLowerCasing | LunarParser/Formats.cs:108-118 | every recognised extension is already lower-case, so the callers' lower-casing never loses a recognised extension |
| DataFormats.LeadFormat | LunarParser/Formats.cs:51-58 | a leading character never announces BIN |
| DataFormats.SniffFormat | LunarParser/Formats.cs:38-62 | the sniffing rule never yields BIN |
| DataFormats.DetectFormat | LunarParser/Formats.cs:38-62 | the index scan with its `continue` and early returns returns exactly the sniffing rule's result |
| DataFormats.SniffAtFirstNonWhiteSpace | LunarParser/Formats.cs:40-58 | the result is decided by the first character that is not white space |
| DataFormats.SniffAllWhiteSpace | LunarParser/Formats.cs:41-61 | empty or white-space-only content is Unknown |
| DataFormats.SniffFormatCharacterized | LunarParser/Formats.cs:40-61 | YAML, XML and JSON come back exactly when the first non-white-space character is `-`, `<`, or `{`/`[`; Unknown comes back exactly when there is no such character or it is another one; BIN never comes back |
| DataFormats.WhiteSpacePrefixIgnored | LunarParser/Formats.cs:40-49 | prefixing any amount of white space leaves the classification unchanged |
| DataFormats.SuffixIgnored | LunarParser/Formats.cs:51-58 | once a non-white-space character is present, text appended after it does not change the classification |
| DataFormats.LoadFromStringAs | LunarParser/Formats.cs:64-76 | succeeds exactly for XML, JSON and YAML, handing the unchanged contents to that format's reader; BIN and Unknown fail with FormatNotSupported |
| DataFormats.SaveToString | LunarParser/Formats.cs:78-90 | succeeds exactly for XML, JSON and YAML, handing the unchanged root to that format's writer; BIN and Unknown fail with FormatNotSupported |
| DataFormats.ReadWriteSymmetric | LunarParser/Formats.cs:64-90 | reading and writing accept the same formats, and they use the same codec for each format |
| DataFormats.LoadFromString | LunarParser/Formats.cs:92-96 | equals explicit-format dispatch on the sniffed format; it succeeds exactly when the first non-white-space character is one of `-<{[`; otherwise it fails with FormatNotSupported |
| DataFormats.LoadFromFile | LunarParser/Formats.cs:101-126 | a missing file fails with FileNotFound whatever its name; a lower-cased ".bin" goes to the binary reader with the raw bytes; a recognised extension selects its own reader for the text; only an unrecognised extension falls back to sniffing |
| DataFormats.LoadFromFileFailures | LunarParser/Formats.cs:103-125 | FileNotFound exactly when the file is missing; FormatNotSupported exactly when both the extension and the sniff give Unknown |
| DataFormats.ExtensionOverridesContent | LunarParser/Formats.cs:116-125 | a file with a recognised extension always loads, and its reader does not depend on the text |
| DataFormats.SaveToFile | LunarParser/Formats.cs:128-135 | succeeds exactly when the lower-cased extension is ".xml", ".json" or ".yaml"; the writer is chosen from the extension alone and receives the root; ".bin" and every other extension fail with FormatNotSupported |
| DataFormats.ExtensionCaseIgnored | LunarParser/Formats.cs:108-131 | extensions that differ only in ASCII letter case load and save alike |
| DataFormats.SaveThenLoadSameCodec | LunarParser/Formats.cs:101-135 | a file saved under a name is loaded back from that name by the codec that wrote it |
| DataFormats.SniffExamples | LunarParser/Formats.cs:38-62 | leading spaces before `{` give JSON; `<root>…` gives XML; blank or empty content gives Unknown |
| DataFormats.FileExamples | LunarParser/Formats.cs:101-135 | a missing ".json" file fails; a ".json" file starting with `-` is still read as JSON; an unknown extension falls back to sniffing; ".BIN" loads as binary; saving to ".bin" fails |

## Left out

- The codecs (`XMLReader`, `XMLWriter`, `JSONReader`, `JSONWriter`, `YAMLReader`, `YAMLWriter`, `BINReader`) are not part of this model. Only which codec receives which input is modelled. Parse failures inside a codec are not modelled either.
- The `DataNode` tree is not part of this model. It is the type parameter `N`, so no round-trip law about tree contents is stated.
- File system calls (`File.Exists`, `File.ReadAllBytes`, `File.ReadAllText`, `File.WriteAllText`) are inputs or outcomes. The write and its overwrite effect are not modelled.
- Decoding bytes to text is not modelled. `LoadFromFile` takes the bytes and the text as separate parameters.
- `Path.GetExtension` is not modelled: the extension is an input.
- Text.ToLower: models ASCII lower-casing only. .NET's `ToLower` follows the current culture. Non-ASCII capitals, and culture rules such as the Turkish dotless i (which turns ".BIN" into ".bın"), are not captured.
- Exception types and message texts are two error variants only.
- C# `null` strings are not represented: Dafny strings are never null. In C#, `DetectFormat(null)` throws. `File.Exists(null)` is false, so `LoadFromFile(null)` gives FileNotFound.
- Out-of-range enum values such as `(DataFormat)7` are not represented: the `DataFormat` datatype has exactly five values. In C# such a value reaches the `default:` throw (`Formats.cs:71-74`, `:85-88`), the same outcome the model gives BIN and Unknown.
