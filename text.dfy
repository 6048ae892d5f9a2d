/** Character classes and case mapping that the format layer relies on:
    the white-space test used while sniffing content, and the lower-casing
    applied to file extensions before they are looked up. */
module Text {

  /** The characters .NET's `char.IsWhiteSpace` reports as white space:
      the control characters U+0009..U+000D and U+0085, the space separators
      (U+0020, U+00A0, U+1680, U+2000..U+200A, U+202F, U+205F, U+3000) and
      the line and paragraph separators U+2028 and U+2029. */
  predicate IsWhiteSpace(c: char)
  {
    ('\t' <= c <= '\r') || c == ' ' || c == '\U{0085}' || c == '\U{00A0}' ||
    c == '\U{1680}' || ('\U{2000}' <= c <= '\U{200A}') ||
    c == '\U{2028}' || c == '\U{2029}' || c == '\U{202F}' ||
    c == '\U{205F}' || c == '\U{3000}'
  }

  predicate IsUpperAscii(c: char)
  {
    'A' <= c <= 'Z'
  }

  /** Lower-cases an ASCII capital letter and leaves every other character alone. */
  function LowerChar(c: char): (r: char)
    ensures !IsUpperAscii(r)
    ensures IsUpperAscii(c) ==> r as int == c as int + 32 && 'a' <= r <= 'z'
    ensures !IsUpperAscii(c) ==> r == c
  {
    if IsUpperAscii(c) then (c as int + 32) as char else c
  }

  /** The string's characters, each lower-cased; nothing is inserted,
      removed or reordered. */
  function ToLower(s: string): (r: string)
    ensures |r| == |s|
    ensures forall i :: 0 <= i < |s| ==> r[i] == LowerChar(s[i])
  {
    if s == [] then [] else [LowerChar(s[0])] + ToLower(s[1..])
  }

  /** A string without ASCII capitals. */
  predicate IsLowerCase(s: string)
  {
    forall i :: 0 <= i < |s| ==> !IsUpperAscii(s[i])
  }

  /** Lower-casing yields a lower-case string, and leaves a lower-case string
      unchanged. */
  lemma ToLowerFixesLowerCase(s: string)
    ensures IsLowerCase(ToLower(s))
    ensures IsLowerCase(s) ==> ToLower(s) == s
  {
  }
}
