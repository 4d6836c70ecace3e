/**
 Case mapping of the version tag (`str.lower` and `str.upper`), restricted to
 ASCII letters, and the conditions under which the two undo each other.
 */
module Ascii {

  predicate IsUpper(c: char) {
    'A' <= c <= 'Z'
  }

  predicate IsLower(c: char) {
    'a' <= c <= 'z'
  }

  predicate NoUpper(s: string) {
    forall i :: 0 <= i < |s| ==> !IsUpper(s[i])
  }

  predicate NoLower(s: string) {
    forall i :: 0 <= i < |s| ==> !IsLower(s[i])
  }

  function LowerChar(c: char): char {
    if IsUpper(c) then (c as int + 32) as char else c
  }

  function UpperChar(c: char): char {
    if IsLower(c) then (c as int - 32) as char else c
  }

  /** `s.lower()`: the same length, and no upper-case letter is left. */
  function Lower(s: string): (r: string)
    ensures |r| == |s|
    ensures NoUpper(r)
  {
    seq(|s|, i requires 0 <= i < |s| => LowerChar(s[i]))
  }

  /** `s.upper()`: the same length, and no lower-case letter is left. */
  function Upper(s: string): (r: string)
    ensures |r| == |s|
    ensures NoLower(r)
  {
    seq(|s|, i requires 0 <= i < |s| => UpperChar(s[i]))
  }

  /** Lower-casing leaves a string alone exactly when it has no upper-case letter. */
  lemma LowerFixes(s: string)
    ensures Lower(s) == s <==> NoUpper(s)
  {
  }

  /** Upper-casing then lower-casing gives the string back exactly when it
      has no upper-case letter. */
  lemma LowerOfUpper(s: string)
    ensures Lower(Upper(s)) == s <==> NoUpper(s)
  {
  }

  /** Lower-casing then upper-casing gives the string back exactly when it
      has no lower-case letter. */
  lemma UpperOfLower(s: string)
    ensures Upper(Lower(s)) == s <==> NoLower(s)
  {
  }
}
