/**
 * The character classification and case conversion of C's <ctype.h>, in the
 * default "C" locale: only the 26 ASCII letters of each case are letters, and
 * `tolower` / `toupper` move between them and leave every other character as
 * it is. C strings are modelled as `string` (the characters before the NUL
 * terminator).
 */
module CType {

  predicate IsUpper(c: char) { 'A' <= c <= 'Z' }

  predicate IsLower(c: char) { 'a' <= c <= 'z' }

  /** An ASCII letter of either case: the characters `tolower` maps into
      'a'..'z', and so the first characters for which `hash` gives a bucket
      index. */
  predicate IsAlpha(c: char) { IsUpper(c) || IsLower(c) }

  /** `tolower` in the "C" locale. */
  function ToLower(c: char): (r: char)
    ensures !IsUpper(r)
    ensures IsAlpha(r) <==> IsAlpha(c)
    ensures !IsUpper(c) ==> r == c
    ensures IsUpper(c) ==> ToUpper(r) == c
  {
    if IsUpper(c) then (c as int + ('a' as int - 'A' as int)) as char else c
  }

  /** `toupper` in the "C" locale. */
  function ToUpper(c: char): (r: char)
    ensures !IsLower(r)
    ensures IsAlpha(r) <==> IsAlpha(c)
    ensures !IsLower(c) ==> r == c
    ensures IsLower(c) ==> r as int - 'A' as int == c as int - 'a' as int
  {
    if IsLower(c) then (c as int - ('a' as int - 'A' as int)) as char else c
  }

  /** A string with no upper-case ASCII letter. */
  predicate NoUpper(s: string) {
    forall i :: 0 <= i < |s| ==> !IsUpper(s[i])
  }

  /** `tolower` applied to every character of `s`. */
  function Lower(s: string): (r: string)
    ensures |r| == |s| && NoUpper(r)
    ensures NoUpper(s) ==> r == s
    ensures forall i :: 0 <= i < |s| ==> (IsAlpha(r[i]) <==> IsAlpha(s[i]))
    ensures forall i :: 0 <= i < |s| ==> ToUpper(r[i]) == ToUpper(s[i])
  {
    seq(|s|, i requires 0 <= i < |s| => ToLower(s[i]))
  }

  /** Case folding forgets exactly the case of the letters: upper-casing a
      character gives the same result before and after lower-casing it. */
  lemma UpperIgnoresLowering(c: char)
    ensures ToUpper(ToLower(c)) == ToUpper(c)
  {
  }

  /** Lower-casing a string twice is lower-casing it once. */
  lemma LowerIdempotent(s: string)
    ensures Lower(Lower(s)) == Lower(s)
  {
  }
}
