/** ASCII lower case, on bytes. */
module Ascii {

  function LowerByte(c: char): char {
    if 'A' <= c <= 'Z' then c + 32 as char else c
  }

  function Lower(s: string): (k: string)
    ensures |k| == |s|
  {
    seq(|s|, i requires 0 <= i < |s| => LowerByte(s[i]))
  }

  /** Two bytes that differ at most in the case of a letter. */
  predicate SameByte(a: char, b: char) {
    || a == b
    || ('A' <= a <= 'Z' && b as int == a as int + 32)
    || ('A' <= b <= 'Z' && a as int == b as int + 32)
  }

  predicate SameIgnoringCase(a: string, b: string) {
    |a| == |b| && forall i :: 0 <= i < |a| ==> SameByte(a[i], b[i])
  }

  /** Lower case is equal exactly for strings that differ at most in case. */
  lemma LowerDecides(a: string, b: string)
    ensures Lower(a) == Lower(b) <==> SameIgnoringCase(a, b)
  {
    forall x: char, y: char ensures LowerByte(x) == LowerByte(y) <==> SameByte(x, y) {
    }
    if Lower(a) == Lower(b) {
      forall i | 0 <= i < |a| ensures SameByte(a[i], b[i]) {
        assert Lower(a)[i] == Lower(b)[i];
      }
    }
  }

  /** Lower case changes case alone, and leaves no capital. */
  lemma LowerIs(s: string)
    ensures SameIgnoringCase(Lower(s), s)
    ensures forall i :: 0 <= i < |s| ==> !('A' <= Lower(s)[i] <= 'Z')
  {
  }
}
