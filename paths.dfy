/** The last segment of a separated path, stated independently of any way of computing it. */
module Paths {
  /**
    `t` is what follows the last `sep` in `s`, or the whole of `s` when `sep` does not occur:
    a suffix of `s` free of `sep` that is either all of `s` or directly preceded by `sep`.
  */
  predicate IsLastSegment(s: string, sep: char, t: string) {
    && |t| <= |s|
    && s[|s| - |t|..] == t
    && sep !in t
    && (|t| < |s| ==> s[|s| - |t| - 1] == sep)
  }

  /** A string has exactly one last segment. */
  lemma LastSegmentUnique(s: string, sep: char, t1: string, t2: string)
    requires IsLastSegment(s, sep, t1) && IsLastSegment(s, sep, t2)
    ensures t1 == t2
  {
    ShorterSegmentIsWhole(s, sep, t1, t2);
    ShorterSegmentIsWhole(s, sep, t2, t1);
  }

  /** A last segment cannot be strictly shorter than another one: the separator before it would lie in the longer one. */
  lemma ShorterSegmentIsWhole(s: string, sep: char, short: string, long: string)
    requires IsLastSegment(s, sep, short) && IsLastSegment(s, sep, long)
    ensures |long| <= |short|
  {
    var start := |s| - |long|;
    assert forall i :: start <= i < |s| ==> s[i] == long[i - start];
  }
}
