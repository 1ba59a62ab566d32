/**
 * NUL-terminated C strings, seen as the sequence of bytes before the NUL,
 * and the library comparison `strcmp` on them.
 */
module CStrings {

  /** Every character is a non-NUL byte, compared as an unsigned char. */
  predicate IsCString(s: string)
  {
    forall i | 0 <= i < |s| :: 0 < s[i] as int < 256
  }

  /** The contents of a C string: the bytes before its terminating NUL. */
  type CString = s: string | IsCString(s) witness ""

  /**
   * `strcmp(a, b)`: the difference of the first pair of bytes that differ,
   * where the terminating NUL counts as the byte 0.
   */
  function StrCmp(a: CString, b: CString): int
    decreases |a|
  {
    if a == [] && b == [] then 0
    else if a == [] then 0 - b[0] as int
    else if b == [] then a[0] as int
    else if a[0] != b[0] then a[0] as int - b[0] as int
    else StrCmp(a[1..], b[1..])
  }

  /** `strcmp(a, b) < 0`: the order the clue tree is keyed by. */
  predicate Less(a: CString, b: CString)
  {
    StrCmp(a, b) < 0
  }

  /** `strcmp` returns 0 exactly on equal strings. */
  lemma {:induction false} StrCmpZeroIffEqual(a: CString, b: CString)
    ensures StrCmp(a, b) == 0 <==> a == b
    decreases |a|
  {
    if a != [] && b != [] && a[0] == b[0] {
      StrCmpZeroIffEqual(a[1..], b[1..]);
      assert a == [a[0]] + a[1..] && b == [b[0]] + b[1..];
    }
  }

  /** Swapping the arguments of `strcmp` negates its result. */
  lemma {:induction false} StrCmpAntisymmetric(a: CString, b: CString)
    ensures StrCmp(b, a) == 0 - StrCmp(a, b)
    decreases |a|
  {
    if a != [] && b != [] && a[0] == b[0] {
      StrCmpAntisymmetric(a[1..], b[1..]);
    }
  }

  /** `Less` is a strict order: irreflexive and asymmetric ... */
  lemma LessAsymmetric(a: CString, b: CString)
    ensures !Less(a, a)
    ensures Less(a, b) ==> !Less(b, a)
  {
    StrCmpZeroIffEqual(a, a);
    StrCmpAntisymmetric(a, b);
  }

  /** ... that is transitive ... */
  lemma {:induction false} LessTransitive(a: CString, b: CString, c: CString)
    requires Less(a, b) && Less(b, c)
    ensures Less(a, c)
    decreases |a|
  {
    if a != [] && b != [] && c != [] && a[0] == b[0] && b[0] == c[0] {
      LessTransitive(a[1..], b[1..], c[1..]);
    }
  }

  /** ... and total on distinct strings. */
  lemma LessTotal(a: CString, b: CString)
    ensures a == b || Less(a, b) || Less(b, a)
  {
    StrCmpZeroIffEqual(a, b);
    StrCmpAntisymmetric(a, b);
  }
}
