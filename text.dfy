/** The string comparisons the services use: `String.toLowerCase` and
    `String.equalsIgnoreCase`, restricted to ASCII letters. */
module Text {

  /** `Character.toLowerCase` on the ASCII range: 'A'..'Z' map to 'a'..'z',
      every other character is left alone. */
  function LowerChar(c: char): char
  {
    if 'A' <= c <= 'Z' then (c as int + 32) as char else c
  }

  predicate IsLowerCase(s: string)
  {
    forall i :: 0 <= i < |s| ==> !('A' <= s[i] <= 'Z')
  }

  /** `String.toLowerCase`: folds every character, keeps the length. */
  function ToLower(s: string): (r: string)
    ensures |r| == |s|
    ensures forall i :: 0 <= i < |s| ==> r[i] == LowerChar(s[i])
    ensures IsLowerCase(r)
  {
    if s == [] then [] else [LowerChar(s[0])] + ToLower(s[1..])
  }

  /** `String.equalsIgnoreCase`: same length, and the characters agree
      position by position once folded. */
  predicate EqualsIgnoreCase(a: string, b: string)
  {
    |a| == |b| && forall i :: 0 <= i < |a| ==> LowerChar(a[i]) == LowerChar(b[i])
  }

  /** Comparing ignoring case is the same as comparing the lower-cased strings. */
  lemma EqualsIgnoreCaseByLowering(a: string, b: string)
    ensures EqualsIgnoreCase(a, b) <==> ToLower(a) == ToLower(b)
  {
  }

  /** Comparing a lower-case literal with `s` ignoring case is asking whether
      `s` lower-cases to that literal (the form the rate table uses). */
  lemma EqualsLiteralIgnoreCase(literal: string, s: string)
    requires IsLowerCase(literal)
    ensures EqualsIgnoreCase(literal, s) <==> ToLower(s) == literal
  {
  }
}
