/** Case-insensitive string comparison as the catalogue uses it (String.equalsIgnoreCase and
    String.compareToIgnoreCase), restricted to ASCII case mapping: letters 'A'..'Z' and 'a'..'z'
    change case, every other character maps to itself. */
module Ascii {

  predicate IsUpper(c: char) { 'A' <= c <= 'Z' }

  predicate IsLower(c: char) { 'a' <= c <= 'z' }

  predicate IsLetter(c: char) { IsUpper(c) || IsLower(c) }

  /** Character.toLowerCase on ASCII: an upper-case letter becomes the same letter in lower case,
      32 code points further on; every other character is left as it is. */
  function ToLower(c: char): (d: char)
    ensures IsLetter(c) ==> IsLower(d)
    ensures IsUpper(c) ==> d as int == c as int + 32
    ensures !IsUpper(c) ==> d == c
  {
    if IsUpper(c) then (c as int - 'A' as int + 'a' as int) as char else c
  }

  /** Character.toUpperCase on ASCII: a lower-case letter becomes the same letter in upper case,
      32 code points back; every other character is left as it is. */
  function ToUpper(c: char): (d: char)
    ensures IsLetter(c) ==> IsUpper(d)
    ensures IsLower(c) ==> d as int == c as int - 32
    ensures !IsLower(c) ==> d == c
  {
    if IsLower(c) then (c as int - 'a' as int + 'A' as int) as char else c
  }

  /** String.equalsIgnoreCase: same length and the same characters once both are folded. */
  predicate EqualsIgnoreCase(a: string, b: string) {
    |a| == |b| && forall i :: 0 <= i < |a| ==> ToLower(a[i]) == ToLower(b[i])
  }

  /** String.compareToIgnoreCase: the difference of the first pair of folded characters that
      differ, or else the difference of the lengths. */
  function CompareIgnoreCase(a: string, b: string): int
    decreases |a|
  {
    if |a| == 0 || |b| == 0 then |a| - |b|
    else if ToLower(a[0]) != ToLower(b[0]) then ToLower(a[0]) as int - ToLower(b[0]) as int
    else CompareIgnoreCase(a[1..], b[1..])
  }

  lemma EqualsIgnoreCaseTransitive(a: string, b: string, c: string)
    requires EqualsIgnoreCase(a, b) && EqualsIgnoreCase(b, c)
    ensures EqualsIgnoreCase(a, c) && EqualsIgnoreCase(c, a)
  {
    forall i | 0 <= i < |a| ensures ToLower(a[i]) == ToLower(c[i]) {
      assert ToLower(a[i]) == ToLower(b[i]);
    }
  }

  /** The comparison is zero exactly when the strings are equal ignoring case. */
  lemma {:induction false} CompareZeroIffEquals(a: string, b: string)
    ensures CompareIgnoreCase(a, b) == 0 <==> EqualsIgnoreCase(a, b)
  {
    if |a| == 0 || |b| == 0 {
    } else if ToLower(a[0]) != ToLower(b[0]) {
    } else {
      CompareZeroIffEquals(a[1..], b[1..]);
      if EqualsIgnoreCase(a[1..], b[1..]) {
        forall i | 0 < i < |a| ensures ToLower(a[i]) == ToLower(b[i]) {
          assert a[i] == a[1..][i - 1] && b[i] == b[1..][i - 1];
        }
      }
      if EqualsIgnoreCase(a, b) {
        forall i | 0 <= i < |a| - 1 ensures ToLower(a[1..][i]) == ToLower(b[1..][i]) {
          assert a[1..][i] == a[i + 1] && b[1..][i] == b[i + 1];
        }
      }
    }
  }

  /** Swapping the arguments negates the comparison. */
  lemma {:induction false} CompareAntisymmetric(a: string, b: string)
    ensures CompareIgnoreCase(b, a) == -CompareIgnoreCase(a, b)
  {
    if |a| > 0 && |b| > 0 && ToLower(a[0]) == ToLower(b[0]) {
      CompareAntisymmetric(a[1..], b[1..]);
    }
  }

  /** "Strictly before, ignoring case" is transitive. */
  lemma {:induction false} CompareTransitive(a: string, b: string, c: string)
    requires CompareIgnoreCase(a, b) < 0 && CompareIgnoreCase(b, c) < 0
    ensures CompareIgnoreCase(a, c) < 0
  {
    if |a| > 0 && |b| > 0 && |c| > 0 && ToLower(a[0]) == ToLower(b[0]) && ToLower(b[0]) == ToLower(c[0]) {
      CompareTransitive(a[1..], b[1..], c[1..]);
    }
  }
}
