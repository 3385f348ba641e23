/** The part of JavaScript's String semantics that the page relies on. */
module JavaScript {
  import opened Paths

  /** The inverse of `split`: the parts glued back together with `sep` between them. */
  function Join(parts: seq<string>, sep: char): string
    requires |parts| >= 1
  {
    if |parts| == 1 then parts[0] else parts[0] + [sep] + Join(parts[1..], sep)
  }

  /**
    `s.split(sep)` for a one-character separator: always at least one part (`"".split("/")`
    is `[""]`), and no part holds the separator.
  */
  function Split(s: string, sep: char): (parts: seq<string>)
    ensures |parts| >= 1
    ensures forall i :: 0 <= i < |parts| ==> sep !in parts[i]
  {
    if |s| == 0 then [""]
    else
      var rest := Split(s[1..], sep);
      if s[0] == sep then [""] + rest
      else [[s[0]] + rest[0]] + rest[1..]
  }

  /** Joining the parts of a split gives the string back. */
  lemma {:induction false} JoinSplit(s: string, sep: char)
    ensures Join(Split(s, sep), sep) == s
  {
    if |s| > 0 {
      var rest := Split(s[1..], sep);
      JoinSplit(s[1..], sep);
      var parts := Split(s, sep);
      assert s == [s[0]] + s[1..];
      if s[0] == sep {
        assert parts[1..] == rest;
      } else if |rest| > 1 {
        assert parts[1..] == rest[1..];
      }
    }
  }

  /** A split yields a single part exactly when the separator does not occur. */
  lemma {:induction false} SplitSingle(s: string, sep: char)
    ensures |Split(s, sep)| == 1 <==> sep !in s
  {
    if |s| > 0 {
      SplitSingle(s[1..], sep);
      assert s == [s[0]] + s[1..];
    }
  }

  /** The last part of a split (what `pop()` returns) is the last segment of the string. */
  lemma {:induction false} SplitLastSegment(s: string, sep: char)
    ensures IsLastSegment(s, sep, Last(Split(s, sep)))
  {
    if |s| > 0 {
      var tail := s[1..];
      SplitLastSegment(tail, sep);
      LastOfSplitCons(s, sep);
      if s[0] == sep || |Split(tail, sep)| > 1 {
        SplitSingle(tail, sep);
        assert s == [s[0]] + tail;
        SegmentExtends(s[0], tail, sep, Last(Split(tail, sep)));
      } else {
        JoinSplit(tail, sep);
      }
    }
  }

  /** How the last part of a split relates to the last part of the split of the tail. */
  lemma LastOfSplitCons(s: string, sep: char)
    requires |s| > 0
    ensures
      var rest := Split(s[1..], sep);
      Last(Split(s, sep)) == if s[0] == sep || |rest| > 1 then Last(rest) else [s[0]] + rest[0]
  {
  }

  /** The last element of a non-empty list, as `pop()` returns it. */
  function Last(parts: seq<string>): string
    requires |parts| >= 1
  {
    parts[|parts| - 1]
  }

  /** Putting a character in front keeps a last segment, unless the segment was the whole string and the character is not the separator. */
  lemma SegmentExtends(c: char, s: string, sep: char, t: string)
    requires IsLastSegment(s, sep, t)
    requires c == sep || (sep in s && |t| <= |s|)
    ensures IsLastSegment([c] + s, sep, t)
  {
    var s' := [c] + s;
    assert s'[|s'| - |t|..] == s[|s| - |t|..];
    if |t| == |s| {
      assert t == s;
    }
  }
}
