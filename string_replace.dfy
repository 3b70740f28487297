/** `String.Replace(oldValue, newValue)`: literal, ordinal, left-to-right,
    non-overlapping replacement in a single pass.  .NET rejects an empty
    `oldValue`, so every function here requires a non-empty pattern. */
module StringReplace {

  /** `pat` occurs in `s` starting at index `i`. */
  predicate OccursAt(s: string, pat: string, i: int) {
    0 <= i && i + |pat| <= |s| && s[i..i + |pat|] == pat
  }

  predicate Contains(s: string, pat: string) {
    exists i :: 0 <= i <= |s| - |pat| && OccursAt(s, pat, i)
  }

  /** The result of `s.Replace(pat, rep)`: scan from the left; at a match emit
      `rep` and continue after the match, otherwise keep one character. */
  function Replace(s: string, pat: string, rep: string): (r: string)
    requires |pat| > 0
    ensures pat == rep ==> r == s
    decreases |s|
  {
    if |s| < |pat| then s
    else if s[..|pat|] == pat then
      assert s == s[..|pat|] + s[|pat|..];
      rep + Replace(s[|pat|..], pat, rep)
    else
      assert s == [s[0]] + s[1..];
      [s[0]] + Replace(s[1..], pat, rep)
  }

  /** The number of matches that scan finds. */
  function Count(s: string, pat: string): nat
    requires |pat| > 0
    decreases |s|
  {
    if |s| < |pat| then 0
    else if s[..|pat|] == pat then 1 + Count(s[|pat|..], pat)
    else Count(s[1..], pat)
  }

  /** The same scan, cutting `s` at every match instead of replacing: the text
      between consecutive matches, in order (as `String.Split` does). */
  function Split(s: string, pat: string): (parts: seq<string>)
    requires |pat| > 0
    ensures |parts| >= 1
    decreases |s|
  {
    if |s| < |pat| then [s]
    else if s[..|pat|] == pat then [""] + Split(s[|pat|..], pat)
    else
      var rest := Split(s[1..], pat);
      [[s[0]] + rest[0]] + rest[1..]
  }

  /** `String.Join(sep, parts)`. */
  function Join(parts: seq<string>, sep: string): string
    requires |parts| >= 1
    decreases |parts|
  {
    if |parts| == 1 then parts[0] else parts[0] + sep + Join(parts[1..], sep)
  }

  lemma JoinConsHead(c: char, parts: seq<string>, sep: string)
    requires |parts| >= 1
    ensures Join([[c] + parts[0]] + parts[1..], sep) == [c] + Join(parts, sep)
  {
    var q := [[c] + parts[0]] + parts[1..];
    assert q[1..] == parts[1..];
  }

  /** Replacing is cutting at every match and gluing the pieces back with the
      replacement in between. */
  lemma {:induction false} ReplaceIsJoinOfSplit(s: string, pat: string, rep: string)
    requires |pat| > 0
    ensures Replace(s, pat, rep) == Join(Split(s, pat), rep)
    decreases |s|
  {
    if |s| < |pat| {
    } else if s[..|pat|] == pat {
      ReplaceIsJoinOfSplit(s[|pat|..], pat, rep);
      assert ([""] + Split(s[|pat|..], pat))[1..] == Split(s[|pat|..], pat);
    } else {
      ReplaceIsJoinOfSplit(s[1..], pat, rep);
      JoinConsHead(s[0], Split(s[1..], pat), rep);
    }
  }

  /** Gluing the pieces back with the pattern itself restores the input. */
  lemma {:induction false} SplitJoinRoundTrip(s: string, pat: string)
    requires |pat| > 0
    ensures Join(Split(s, pat), pat) == s
    decreases |s|
  {
    if |s| < |pat| {
    } else if s[..|pat|] == pat {
      SplitJoinRoundTrip(s[|pat|..], pat);
      assert ([""] + Split(s[|pat|..], pat))[1..] == Split(s[|pat|..], pat);
      assert s == s[..|pat|] + s[|pat|..];
    } else {
      SplitJoinRoundTrip(s[1..], pat);
      JoinConsHead(s[0], Split(s[1..], pat), pat);
      assert s == [s[0]] + s[1..];
    }
  }

  /** There is one piece more than there are matches. */
  lemma {:induction false} SplitCount(s: string, pat: string)
    requires |pat| > 0
    ensures |Split(s, pat)| == Count(s, pat) + 1
    decreases |s|
  {
    if |s| < |pat| {
    } else if s[..|pat|] == pat {
      SplitCount(s[|pat|..], pat);
    } else {
      SplitCount(s[1..], pat);
    }
  }

  /** With `n` matches the output is `n * (|rep| - |pat|)` longer than the input. */
  lemma {:induction false} ReplaceLength(s: string, pat: string, rep: string)
    requires |pat| > 0
    ensures |Replace(s, pat, rep)| == |s| + Count(s, pat) * (|rep| - |pat|)
    decreases |s|
  {
    if |s| < |pat| {
    } else if s[..|pat|] == pat {
      var t := s[|pat|..];
      ReplaceLength(t, pat, rep);
      var n, d := Count(t, pat), |rep| - |pat|;
      assert |Replace(s, pat, rep)| == |rep| + |Replace(t, pat, rep)|;
      assert Count(s, pat) == 1 + n;
      assert (1 + n) * d == d + n * d;
    } else {
      ReplaceLength(s[1..], pat, rep);
      assert |Replace(s, pat, rep)| == 1 + |Replace(s[1..], pat, rep)|;
    }
  }

  /** Occurrences in the tail of `s` are occurrences in `s`, one index later;
      an occurrence in `s` other than at 0 is one in the tail. */
  lemma ContainsTail(s: string, pat: string)
    requires |s| > 0
    ensures Contains(s[1..], pat) ==> Contains(s, pat)
    ensures Contains(s, pat) && !OccursAt(s, pat, 0) ==> Contains(s[1..], pat)
  {
    if Contains(s[1..], pat) {
      var i :| 0 <= i <= |s[1..]| - |pat| && OccursAt(s[1..], pat, i);
      assert s[1..][i..i + |pat|] == s[i + 1..i + 1 + |pat|];
      assert OccursAt(s, pat, i + 1);
    }
    if Contains(s, pat) && !OccursAt(s, pat, 0) {
      var i :| 0 <= i <= |s| - |pat| && OccursAt(s, pat, i);
      assert s[1..][i - 1..i - 1 + |pat|] == s[i..i + |pat|];
      assert OccursAt(s[1..], pat, i - 1);
    }
  }

  /** The scan finds no match exactly when the pattern does not occur. */
  lemma {:induction false} CountZeroIffAbsent(s: string, pat: string)
    requires |pat| > 0
    ensures Count(s, pat) == 0 <==> !Contains(s, pat)
    decreases |s|
  {
    if |s| < |pat| {
    } else if s[..|pat|] == pat {
      assert OccursAt(s, pat, 0);
    } else {
      CountZeroIffAbsent(s[1..], pat);
      ContainsTail(s, pat);
    }
  }

  /** Text in which the pattern does not occur comes back unchanged. */
  lemma {:induction false} ReplaceAbsent(s: string, pat: string, rep: string)
    requires |pat| > 0 && !Contains(s, pat)
    ensures Replace(s, pat, rep) == s
    decreases |s|
  {
    if |s| >= |pat| {
      assert !OccursAt(s, pat, 0);
      ContainsTail(s, pat);
      ReplaceAbsent(s[1..], pat, rep);
      assert s == [s[0]] + s[1..];
    }
  }

  /** A match at the front is replaced, and the scan resumes after it: the
      inserted text is never scanned again. */
  lemma ReplaceLeadingMatch(pat: string, rest: string, rep: string)
    requires |pat| > 0
    ensures Replace(pat + rest, pat, rep) == rep + Replace(rest, pat, rep)
  {
    assert (pat + rest)[..|pat|] == pat;
    assert (pat + rest)[|pat|..] == rest;
  }

  /** Text in front of the first match is copied unchanged. */
  lemma {:induction false} ReplaceCopiesUntilMatch(a: string, b: string, pat: string, rep: string)
    requires |pat| > 0
    requires forall i :: 0 <= i < |a| ==> !OccursAt(a + b, pat, i)
    ensures Replace(a + b, pat, rep) == a + Replace(b, pat, rep)
    decreases |a|
  {
    if a != [] {
      var s := a + b;
      assert !OccursAt(s, pat, 0);
      if |s| < |pat| {
        assert Replace(b, pat, rep) == b;
      } else {
        assert s[1..] == a[1..] + b;
        forall i | 0 <= i < |a[1..]| ensures !OccursAt(a[1..] + b, pat, i) {
          assert !OccursAt(s, pat, i + 1);
          if i + |pat| <= |s[1..]| {
            assert s[1..][i..i + |pat|] == s[i + 1..i + 1 + |pat|];
          }
        }
        ReplaceCopiesUntilMatch(a[1..], b, pat, rep);
        assert s[..|pat|] != pat;
        assert Replace(s, pat, rep) == [a[0]] + Replace(a[1..] + b, pat, rep);
        assert a == [a[0]] + a[1..];
      }
    } else {
      assert a + b == b;
    }
  }

  /** Single pass: when the replacement itself contains the pattern, the
      output still contains it. */
  lemma SinglePass(pat: string, rep: string)
    requires |pat| > 0 && Contains(rep, pat)
    ensures Contains(Replace(pat, pat, rep), pat)
  {
    ReplaceLeadingMatch(pat, "", rep);
    assert pat + "" == pat;
    assert Replace("", pat, rep) == "";
    assert rep + "" == rep;
  }
}
