// Bytes and names, and what ignoring case means.
module Bytes {
  type Byte = b: nat | b < 256
  type Name = seq<Byte>

  // tolower for ASCII, as MZ_TOLOWER and _stricmp apply it
  function Lower(c: Byte): Byte {
    if 65 <= c <= 90 then c + 32 else c
  }

  function LowerName(s: Name): (t: Name)
    ensures |t| == |s| && forall i :: 0 <= i < |s| ==> t[i] == Lower(s[i])
  {
    seq(|s|, i requires 0 <= i < |s| => Lower(s[i]))
  }

  // Equal but for case.
  predicate Same(a: Name, b: Name) {
    LowerName(a) == LowerName(b)
  }

  // The same letter, as a capital or not.
  predicate SameLetter(a: Byte, b: Byte) {
    a == b || (65 <= a <= 90 && b == a + 32) || (65 <= b <= 90 && a == b + 32)
  }

  lemma {:induction false} SameByLetter(a: Name, b: Name)
    ensures Same(a, b) <==> |a| == |b| && forall i :: 0 <= i < |a| ==> SameLetter(a[i], b[i])
  {
    if Same(a, b) {
      forall i | 0 <= i < |a|
        ensures SameLetter(a[i], b[i])
      {
        assert LowerName(a)[i] == LowerName(b)[i];
      }
    }
  }
}
