/**
  The .NET string helpers the core relies on, over nullable strings.
  A C# `string?` is an `Option<string>`; None stands for null.
 */
module NullableStrings {
  import opened Wrappers

  type NullableString = Option<string>

  /** char.IsWhiteSpace: the Unicode separators (Zs, Zl, Zp), U+0009 to U+000D and U+0085. */
  predicate IsWhiteSpace(c: char) {
    || c == ' '
    || '\t' <= c <= '\r'
    || c == '\U{85}'
    || c == '\U{A0}'
    || c == '\U{1680}'
    || '\U{2000}' <= c <= '\U{200A}'
    || c == '\U{2028}'
    || c == '\U{2029}'
    || c == '\U{202F}'
    || c == '\U{205F}'
    || c == '\U{3000}'
  }

  /** string.IsNullOrEmpty */
  predicate IsNullOrEmpty(s: NullableString) {
    s.None? || s.value == ""
  }

  /** string.IsNullOrWhiteSpace: null, or every character is white space (so also the empty string). */
  predicate IsNullOrWhiteSpace(s: NullableString) {
    s.None? || forall i :: 0 <= i < |s.value| ==> IsWhiteSpace(s.value[i])
  }

  /** What string interpolation prints for a nullable string: null prints as nothing. */
  function Interpolated(s: NullableString): string {
    match s
    case None => ""
    case Some(t) => t
  }
}
