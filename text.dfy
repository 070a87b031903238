/** ASCII case mapping and substring search, the string primitives the profiler uses:
    `str.lower()` on the DOI column and `str.contains(..., case=False, regex=False)` on
    the document-type and reprint-address columns. With `case=False` the text and the
    pattern are both upper-cased before the plain substring test. */
module Text {

  function UpperChar(c: char): char {
    if 'a' <= c <= 'z' then (c as int - 32) as char else c
  }

  function LowerChar(c: char): char {
    if 'A' <= c <= 'Z' then (c as int + 32) as char else c
  }

  /** Upper-cases every ASCII letter, one character at a time. */
  function Upper(s: string): string {
    seq(|s|, i requires 0 <= i < |s| => UpperChar(s[i]))
  }

  /** Lower-cases every ASCII letter, one character at a time. */
  function Lower(s: string): string {
    seq(|s|, i requires 0 <= i < |s| => LowerChar(s[i]))
  }

  predicate IsUpperLetter(c: char) {
    'A' <= c <= 'Z'
  }

  predicate IsLowerLetter(c: char) {
    'a' <= c <= 'z'
  }

  /** No lower-case letter survives Upper, and Upper is idempotent. */
  lemma UpperIsUpperCase(s: string)
    ensures forall i :: 0 <= i < |Upper(s)| ==> !IsLowerLetter(Upper(s)[i])
    ensures Upper(Upper(s)) == Upper(s)
  {
  }

  /** No upper-case letter survives Lower, and Lower is idempotent. */
  lemma LowerIsLowerCase(s: string)
    ensures forall i :: 0 <= i < |Lower(s)| ==> !IsUpperLetter(Lower(s)[i])
    ensures Lower(Lower(s)) == Lower(s)
  {
  }

  /** Lower-casing first does not change what a case-insensitive comparison sees:
      the two strings differ at most in the case of their letters. */
  lemma UpperOfLower(s: string)
    ensures Upper(Lower(s)) == Upper(s)
  {
  }

  /** `p` occurs in `s` starting at position `i`. */
  predicate OccursAt(s: string, p: string, i: int) {
    0 <= i && i + |p| <= |s| && s[i..i + |p|] == p
  }

  /** Python's `p in s`: a left-to-right scan for `p` as a prefix of a suffix of `s`.
      The empty pattern occurs in every string. */
  predicate Contains(s: string, p: string)
    decreases |s|
  {
    (|p| <= |s| && s[..|p|] == p) || (s != [] && Contains(s[1..], p))
  }

  /** The scan finds `p` exactly when `p` occurs at some position of `s`. */
  lemma {:induction false} ContainsIffOccurs(s: string, p: string)
    ensures Contains(s, p) <==> exists i :: OccursAt(s, p, i)
    decreases |s|
  {
    if |p| <= |s| && s[..|p|] == p {
      assert OccursAt(s, p, 0);
    } else if s == [] {
      assert forall i :: !OccursAt(s, p, i);
    } else {
      ContainsIffOccurs(s[1..], p);
      OccursAtShift(s, p);
      assert !OccursAt(s, p, 0);
      if Contains(s[1..], p) {
        var i :| OccursAt(s[1..], p, i);
        assert OccursAt(s, p, i + 1);
      }
    }
  }

  /** An occurrence past the first position is an occurrence in the rest of the text. */
  lemma OccursAtShift(s: string, p: string)
    requires s != []
    ensures forall i :: 0 < i ==> (OccursAt(s, p, i) <==> OccursAt(s[1..], p, i - 1))
  {
    forall i | 0 < i
      ensures OccursAt(s, p, i) <==> OccursAt(s[1..], p, i - 1)
    {
      if i + |p| <= |s| {
        assert s[i..i + |p|] == s[1..][i - 1..i - 1 + |p|];
      }
    }
  }

  /** pandas `str.contains(p, case=False, regex=False)` on a present cell:
      the upper-cased pattern is searched in the upper-cased text. */
  predicate ContainsIgnoreCase(s: string, p: string) {
    Contains(Upper(s), Upper(p))
  }

  /** A case-sensitive occurrence is also a case-insensitive one. */
  lemma ContainsImpliesContainsIgnoreCase(s: string, p: string)
    requires Contains(s, p)
    ensures ContainsIgnoreCase(s, p)
  {
    ContainsIffOccurs(s, p);
    var i :| OccursAt(s, p, i);
    assert Upper(s)[i..i + |p|] == Upper(p) by {
      forall k | 0 <= k < |p|
        ensures Upper(s)[i..i + |p|][k] == Upper(p)[k]
      {
        assert s[i + k] == p[k];
      }
    }
    assert OccursAt(Upper(s), Upper(p), i);
    ContainsIffOccurs(Upper(s), Upper(p));
  }

  /** A case-insensitive test does not depend on the case of the text searched. */
  lemma ContainsIgnoreCaseOfLower(s: string, p: string)
    ensures ContainsIgnoreCase(Lower(s), p) == ContainsIgnoreCase(s, p)
  {
    UpperOfLower(s);
  }
}
