/** The DataAnnotations validation attributes the portal's models use, as
    predicates over bound property values. Model binding turns an empty form
    value into null, so a string property is an `Option<string>`. */
module Annotations {
  import opened Types

  /** `Char.IsWhiteSpace`: the space separators, line and paragraph
      separators, U+0009..U+000D, U+0085 and U+00A0. */
  predicate IsWhiteSpace(c: char) {
    || c == ' '
    || ('\t' <= c <= '\r')
    || c == '\U{0085}' || c == '\U{00A0}' || c == '\U{1680}'
    || ('\U{2000}' <= c <= '\U{200A}')
    || c == '\U{2028}' || c == '\U{2029}' || c == '\U{202F}'
    || c == '\U{205F}' || c == '\U{3000}'
  }

  /** `String.IsNullOrWhiteSpace` on a non-null string. */
  predicate IsBlank(s: string) {
    forall i :: 0 <= i < |s| ==> IsWhiteSpace(s[i])
  }

  /** UTF-16 code units one character takes: `String.Length` counts these. */
  function Utf16Units(c: char): (n: nat)
    ensures 1 <= n <= 2
  {
    if c as int > 0xFFFF then 2 else 1
  }

  /** `String.Length` of a string whose characters are Unicode scalar values. */
  function Utf16Length(s: string): (n: nat)
    ensures |s| <= n <= 2 * |s|
    ensures n == 0 <==> |s| == 0
  {
    if |s| == 0 then 0 else Utf16Units(s[0]) + Utf16Length(s[1..])
  }

  lemma {:induction false} Utf16LengthAppend(a: string, b: string)
    ensures Utf16Length(a + b) == Utf16Length(a) + Utf16Length(b)
  {
    if |a| == 0 {
      assert a + b == b;
    } else {
      assert (a + b)[1..] == a[1..] + b;
      Utf16LengthAppend(a[1..], b);
    }
  }

  /** A string of characters from the Basic Multilingual Plane has one code unit per character. */
  lemma {:induction false} Utf16LengthBmp(s: string)
    requires forall i :: 0 <= i < |s| ==> s[i] as int <= 0xFFFF
    ensures Utf16Length(s) == |s|
  {
    if |s| > 0 {
      Utf16LengthBmp(s[1..]);
    }
  }

  /** `[Required]` with the default `AllowEmptyStrings = false`. */
  function Required(s: Option<string>): (ok: bool)
    ensures ok ==> s.Some? && |s.value| >= 1
  {
    s.Some? && !IsBlank(s.value)
  }

  /** `[StringLength(max)]`: null passes, otherwise at most `max` code units. */
  function StringLength(s: Option<string>, max: nat): (ok: bool)
    ensures ok && s.Some? ==> |s.value| <= max
  {
    s.None? || Utf16Length(s.value) <= max
  }

  /** A format attribute such as `[EmailAddress]` or `[Phone]`: null passes,
      otherwise the framework's format check decides. */
  predicate Format(s: Option<string>, check: string -> bool) {
    s.None? || check(s.value)
  }

  /** The format checks the framework supplies, left abstract. */
  datatype Formats = Formats(isEmail: string -> bool, isPhone: string -> bool)
}
