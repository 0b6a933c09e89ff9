/** The one string operation of ECMAScript the mapping uses. */
module Strings {

  /**
   * `String.prototype.padStart(width, fill)` with a one-character fill: the
   * string is prefixed with copies of fill until it is width long; a string
   * already that long or longer is returned as it is, never cut. Lengths
   * here count Unicode scalar values where ECMAScript counts UTF-16 code
   * units; the two agree on the ASCII hex the mapping pads.
   */
  function PadStart(s: string, width: nat, fill: char): (r: string)
    ensures |r| == if |s| < width then width else |s|
    ensures r[|r| - |s|..] == s
    ensures forall i :: 0 <= i < |r| - |s| ==> r[i] == fill
  {
    if |s| < width then Repeat(fill, width - |s|) + s else s
  }

  /** n copies of c. */
  function Repeat(c: char, n: nat): (r: string)
    ensures |r| == n
    ensures forall i :: 0 <= i < n ==> r[i] == c
  {
    if n == 0 then [] else [c] + Repeat(c, n - 1)
  }

  /** The contract of PadStart pins its result down: length, suffix and fill determine it. */
  lemma PadStartUnique(s: string, width: nat, fill: char, r: string)
    requires |r| == if |s| < width then width else |s|
    requires r[|r| - |s|..] == s
    requires forall i :: 0 <= i < |r| - |s| ==> r[i] == fill
    ensures r == PadStart(s, width, fill)
  {
    var p := PadStart(s, width, fill);
    assert r == r[..|r| - |s|] + r[|r| - |s|..];
    assert p == p[..|p| - |s|] + p[|p| - |s|..];
    assert r[..|r| - |s|] == p[..|p| - |s|];
  }

  /** A string no longer than width is prefixed with exactly width - |s| copies of fill. */
  lemma PadStartCount(s: string, width: nat, fill: char)
    requires |s| <= width
    ensures PadStart(s, width, fill) == Repeat(fill, width - |s|) + s
  {
    if |s| == width {
      assert Repeat(fill, 0) + s == s;
    }
  }
}
