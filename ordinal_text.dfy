/** Ordinal string comparison with and without case, as .NET's
    `StringComparison.Ordinal` and `StringComparison.OrdinalIgnoreCase` do it
    for ASCII letters. */
module OrdinalText {

  /** An upper-case ASCII letter. */
  predicate IsUpperAscii(c: char) {
    'A' <= c <= 'Z'
  }

  /** Upper-cases an ASCII letter; every other character is left alone. */
  function ToUpperAscii(c: char): char {
    if 'a' <= c <= 'z' then (c as int - 32) as char else c
  }

  /** Ordinal, case-insensitive equality. */
  function EqualsIgnoreCase(a: string, b: string): (r: bool)
    ensures a == b ==> r
    ensures r ==> |a| == |b|
  {
    |a| == |b| && forall i :: 0 <= i < |a| ==> ToUpperAscii(a[i]) == ToUpperAscii(b[i])
  }

  /** `s.StartsWith(prefix, StringComparison.OrdinalIgnoreCase)`. */
  function StartsWithIgnoreCase(s: string, prefix: string): (r: bool)
    ensures r ==> |prefix| <= |s|
    ensures |prefix| <= |s| && s[..|prefix|] == prefix ==> r
  {
    |prefix| <= |s| && EqualsIgnoreCase(s[..|prefix|], prefix)
  }

  /** A prefix test only looks at the front: whatever follows does not matter. */
  lemma StartsWithIgnoreCaseExtends(s: string, prefix: string, tail: string)
    requires StartsWithIgnoreCase(s, prefix)
    ensures StartsWithIgnoreCase(s + tail, prefix)
  {
    assert (s + tail)[..|prefix|] == s[..|prefix|];
  }

  /** Case is ignored on both sides: exact equality implies the test. */
  lemma StartsWithExactly(s: string, prefix: string)
    requires |prefix| <= |s| && s[..|prefix|] == prefix
    ensures StartsWithIgnoreCase(s, prefix)
  {
  }

  /** Ignore-case equality is an equivalence: of two names that differ, at
      most one equals a third. */
  lemma DiffersThrough(a: string, b: string, m: string)
    requires EqualsIgnoreCase(a, m) && (!EqualsIgnoreCase(a, b) || !EqualsIgnoreCase(b, a))
    ensures !EqualsIgnoreCase(b, m)
  {
  }
}
