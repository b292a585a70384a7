/**
 * The string operations the localization code relies on: ordinal
 * case-insensitive comparison, lower-casing of lookup keys, and the
 * "null or white space" test.  Case mapping is modelled on ASCII letters.
 */
module Text {

  /** Lower-case mapping of one character (ASCII letters only). */
  function LowerChar(c: char): char
  {
    if 'A' <= c <= 'Z' then (c as int + 32) as char else c
  }

  /** Upper-case mapping of one character, the fold used by ordinal ignore-case comparison. */
  function UpperChar(c: char): char
  {
    if 'a' <= c <= 'z' then (c as int - 32) as char else c
  }

  /** string.ToLower: every character mapped to its lower-case form, nothing else changes. */
  function ToLower(s: string): string
  {
    seq(|s|, i requires 0 <= i < |s| => LowerChar(s[i]))
  }

  /** The upper-case fold under which StringComparer.OrdinalIgnoreCase compares. */
  function ToUpper(s: string): string
  {
    seq(|s|, i requires 0 <= i < |s| => UpperChar(s[i]))
  }

  /** Ordinal case-insensitive string equality. */
  predicate EqualsIgnoreCase(a: string, b: string)
  {
    ToUpper(a) == ToUpper(b)
  }

  lemma UpperLowerCharAgree(x: char, y: char)
    ensures UpperChar(x) == UpperChar(y) <==> LowerChar(x) == LowerChar(y)
  {
  }

  /** Two strings fold to the same upper case exactly when they lower-case to the same string. */
  lemma {:induction false} IgnoreCaseIsLowerCaseEquality(a: string, b: string)
    ensures EqualsIgnoreCase(a, b) <==> ToLower(a) == ToLower(b)
  {
    if |a| == |b| {
      forall i | 0 <= i < |a|
        ensures ToUpper(a)[i] == ToUpper(b)[i] <==> ToLower(a)[i] == ToLower(b)[i]
      {
        UpperLowerCharAgree(a[i], b[i]);
      }
      if ToLower(a) == ToLower(b) {
        assert forall i :: 0 <= i < |a| ==> ToLower(a)[i] == ToLower(b)[i];
        assert ToUpper(a) == ToUpper(b);
      }
      if ToUpper(a) == ToUpper(b) {
        assert forall i :: 0 <= i < |a| ==> ToUpper(a)[i] == ToUpper(b)[i];
        assert ToLower(a) == ToLower(b);
      }
    } else {
      assert |ToUpper(a)| != |ToUpper(b)| && |ToLower(a)| != |ToLower(b)|;
    }
  }

  /** char.IsWhiteSpace: the Unicode separators and the white-space control characters. */
  predicate IsWhiteSpace(c: char)
  {
    || '\U{9}' <= c <= '\U{D}'
    || c == ' ' || c == '\U{85}' || c == '\U{A0}' || c == '\U{1680}'
    || '\U{2000}' <= c <= '\U{200A}'
    || c == '\U{2028}' || c == '\U{2029}' || c == '\U{202F}' || c == '\U{205F}' || c == '\U{3000}'
  }

  /**
   * string.IsNullOrWhiteSpace, for a string that is present.  A missing
   * string (null) is represented by the empty string, for which it holds too.
   */
  predicate IsNullOrWhiteSpace(s: string)
  {
    forall i :: 0 <= i < |s| ==> IsWhiteSpace(s[i])
  }
}
