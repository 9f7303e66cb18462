/**
  The one piece of `java.lang.String` the servlet relies on for naming:
  `s.replace(target, "")`, which removes every occurrence of `target`,
  scanning left to right and never letting two removed copies overlap.
  An empty target leaves the string as it is.
*/
module Strings {

  /** `pat` is found in `s` starting at index `i`. */
  predicate OccursAt(s: string, pat: string, i: int) {
    0 <= i && i + |pat| <= |s| && s[i..i + |pat|] == pat
  }

  predicate Occurs(s: string, pat: string) {
    exists i | 0 <= i <= |s| :: OccursAt(s, pat, i)
  }

  /** `s.replace(pat, "")` in Java. */
  function RemoveAll(s: string, pat: string): (r: string)
    ensures |r| <= |s|
    ensures |pat| > 0 && OccursAt(s, pat, 0) ==> |r| <= |s| - |pat|
    decreases |s|
  {
    if |pat| == 0 || |s| < |pat| then s
    else if s[..|pat|] == pat then RemoveAll(s[|pat|..], pat)
    else [s[0]] + RemoveAll(s[1..], pat)
  }

  /** A string with no copy of the pattern comes through unchanged. */
  lemma {:induction false} RemoveAllAbsent(s: string, pat: string)
    requires !Occurs(s, pat)
    ensures RemoveAll(s, pat) == s
    decreases |s|
  {
    if |pat| == 0 || |s| < |pat| {
    } else {
      assert !OccursAt(s, pat, 0);
      assert !Occurs(s[1..], pat) by {
        forall i | OccursAt(s[1..], pat, i)
          ensures OccursAt(s, pat, i + 1)
        {
          assert s[1..][i..i + |pat|] == s[i + 1..i + 1 + |pat|];
        }
      }
      RemoveAllAbsent(s[1..], pat);
      assert s == [s[0]] + s[1..];
    }
  }

  /** A leading copy of the pattern is dropped and the scan resumes after it. */
  lemma RemoveAllLeading(pat: string, t: string)
    requires |pat| > 0
    ensures RemoveAll(pat + t, pat) == RemoveAll(t, pat)
  {
    assert (pat + t)[..|pat|] == pat;
    assert (pat + t)[|pat|..] == t;
  }

  /** No copy of `pat` in a + pat starts inside `a` and runs past its end. */
  predicate NoStraddle(a: string, pat: string) {
    forall i :: 0 <= i < |a| < i + |pat| ==> !OccursAt(a + pat, pat, i)
  }

  /** Dropping the first k characters of `a` keeps it free of straddling copies. */
  lemma NoStraddleSuffix(a: string, pat: string, k: int)
    requires 0 <= k <= |a|
    requires NoStraddle(a, pat)
    ensures NoStraddle(a[k..], pat)
  {
    var a' := a[k..];
    forall i | 0 <= i < |a'| < i + |pat|
      ensures !OccursAt(a' + pat, pat, i)
    {
      assert !OccursAt(a + pat, pat, i + k);
      assert (a' + pat)[i..i + |pat|] == (a + pat)[i + k..i + k + |pat|];
    }
  }

  /**
    A copy of the pattern in the middle is removed too: removal on a + pat + b
    is removal on a and on b, side by side, unless some copy of the pattern
    starts inside a and ends inside the middle copy.
  */
  lemma {:induction false} RemoveAllAround(a: string, pat: string, b: string)
    requires |pat| > 0
    requires NoStraddle(a, pat)
    ensures RemoveAll(a + pat + b, pat) == RemoveAll(a, pat) + RemoveAll(b, pat)
    decreases |a|
  {
    var s := a + pat + b;
    if |a| == 0 {
      assert s == pat + b;
      RemoveAllLeading(pat, b);
    } else if s[..|pat|] == pat {
      LeadingCopyInsideA(a, pat, b);
      var a' := a[|pat|..];
      assert s[|pat|..] == a' + pat + b;
      NoStraddleSuffix(a, pat, |pat|);
      RemoveAllAround(a', pat, b);
    } else {
      var a' := a[1..];
      assert s[1..] == a' + pat + b;
      NoStraddleSuffix(a, pat, 1);
      RemoveAllAround(a', pat, b);
      if |a| < |pat| {
        assert a == [a[0]] + a';
      } else {
        assert a[..|pat|] == s[..|pat|];
      }
    }
  }

  /** A copy of the pattern at the start of a + pat + b lies wholly inside a. */
  lemma LeadingCopyInsideA(a: string, pat: string, b: string)
    requires 0 < |a| && |pat| > 0
    requires NoStraddle(a, pat)
    requires (a + pat + b)[..|pat|] == pat
    ensures |pat| <= |a| && a[..|pat|] == pat
  {
    if |a| < |pat| {
      assert (a + pat)[0..|pat|] == (a + pat + b)[..|pat|];
      assert OccursAt(a + pat, pat, 0);
      assert false;
    }
    assert a[..|pat|] == (a + pat + b)[..|pat|];
  }

  /** Removing a leading pattern from pattern + n gives n when n holds no further copy. */
  lemma StripLeading(pat: string, n: string)
    requires |pat| > 0
    requires !Occurs(n, pat)
    ensures RemoveAll(pat + n, pat) == n
  {
    RemoveAllLeading(pat, n);
    RemoveAllAbsent(n, pat);
  }
}
