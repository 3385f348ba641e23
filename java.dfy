/** The parts of Java's String semantics that the backend relies on. */
module Java {
  import opened Base

  /** A thrown `java.lang.Exception` (the type both handlers catch); its `getMessage()` may be null. */
  datatype Exception = Exception(message: Option<string>)

  /** What `"..." + x` appends for a String reference `x`: its characters, or "null" when it is null. */
  function Str(s: Option<string>): string {
    match s
    case Some(v) => v
    case None => "null"
  }

  /** `s.lastIndexOf(c)`: the greatest index holding `c`, or -1 when `c` does not occur. */
  function LastIndexOf(s: string, c: char): (r: int)
    ensures -1 <= r < |s|
    ensures r >= 0 ==> s[r] == c
    ensures forall j :: r < j < |s| ==> s[j] != c
  {
    if |s| == 0 then -1
    else if s[|s| - 1] == c then |s| - 1
    else LastIndexOf(s[..|s| - 1], c)
  }

  /** `s.indexOf(c)`: the least index holding `c`, or -1 when `c` does not occur. */
  function IndexOf(s: string, c: char): (r: int)
    ensures -1 <= r < |s|
    ensures r >= 0 ==> s[r] == c
    ensures forall j :: 0 <= j < |s| && (r < 0 || j < r) ==> s[j] != c
  {
    if |s| == 0 then -1
    else if s[0] == c then 0
    else
      var k := IndexOf(s[1..], c);
      if k < 0 then -1 else k + 1
  }
}
