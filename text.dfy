/** Case folding used by the user-principal-name comparison of the RADIUS server.

    JavaScript's `toLowerCase` folds every Unicode letter.  This module folds the
    letters of the Basic Latin and Latin-1 Supplement blocks that have a one-to-one
    lower-case partner (A-Z and U+00C0..U+00DE except the multiplication sign U+00D7);
    every other character is left as it is.
 */
module Text {

  /** True for the upper-case letters this model folds. */
  predicate IsFoldedUpper(c: char) {
    ('A' <= c <= 'Z') || ('\U{C0}' <= c <= '\U{DE}' && c != '\U{D7}')
  }

  /** The lower-case partner of one character (the character itself when it has none). */
  function LowerChar(c: char): (r: char)
    ensures IsFoldedUpper(c) ==> r as int == c as int + 32
    ensures !IsFoldedUpper(c) ==> r == c
    ensures !IsFoldedUpper(r)
  {
    if IsFoldedUpper(c) then (c as int + 32) as char else c
  }

  /** `s.toLowerCase()`: every character folded, position by position. */
  function ToLower(s: string): (r: string)
    ensures |r| == |s|
    ensures forall i :: 0 <= i < |s| ==> r[i] == LowerChar(s[i])
  {
    if s == [] then [] else [LowerChar(s[0])] + ToLower(s[1..])
  }

  /** `a.toLowerCase() === b.toLowerCase()` */
  predicate EqualsIgnoringCase(a: string, b: string)
    ensures a == b ==> EqualsIgnoringCase(a, b)
    ensures EqualsIgnoringCase(a, b) ==> |a| == |b|
  {
    ToLower(a) == ToLower(b)
  }

  /** Folding twice is folding once. */
  lemma ToLowerIdempotent(s: string)
    ensures ToLower(ToLower(s)) == ToLower(s)
  {
  }

  /** Case-insensitive equality holds exactly when the two strings have the same
      length and agree position by position after folding. */
  lemma EqualsIgnoringCasePointwise(a: string, b: string)
    ensures EqualsIgnoringCase(a, b) <==>
              |a| == |b| && forall i :: 0 <= i < |a| ==> LowerChar(a[i]) == LowerChar(b[i])
  {
  }

  /** Case-insensitive equality is an equivalence relation. */
  lemma EqualsIgnoringCaseIsEquivalence(a: string, b: string, c: string)
    ensures EqualsIgnoringCase(a, a)
    ensures EqualsIgnoringCase(a, b) ==> EqualsIgnoringCase(b, a)
    ensures EqualsIgnoringCase(a, b) && EqualsIgnoringCase(b, c) ==> EqualsIgnoringCase(a, c)
  {
  }
}
