/** The blank-string test the handler applies to the date and project fields. */
module Text {
  import opened Options

  /**
   * The characters .NET's Char.IsWhiteSpace accepts: the space separators,
   * the line and paragraph separators, and the controls U+0009..U+000D and U+0085.
   */
  predicate IsWhite(c: char) {
    || c == ' '
    || ('\t' <= c <= '\r')
    || c == '\U{85}'
    || c == '\U{A0}'
    || c == '\U{1680}'
    || ('\U{2000}' <= c <= '\U{200A}')
    || c == '\U{2028}'
    || c == '\U{2029}'
    || c == '\U{202F}'
    || c == '\U{205F}'
    || c == '\U{3000}'
  }

  /** `string.IsNullOrWhiteSpace`: absent, empty, or made only of white characters. */
  predicate IsNullOrWhiteSpace(s: Option<string>) {
    s.None? || forall i :: 0 <= i < |s.value| ==> IsWhite(s.value[i])
  }
}
