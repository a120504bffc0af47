/**
 * The fixed-length points list: a length fixed at creation and an array of
 * 16-bit points, read and written through bounds-checked accessors that
 * report failure with -1 instead of touching memory.
 */
module PointsList {
  import opened Ints

  /** A pixel position. */
  datatype Point = Point(x: u16, y: u16)

  const Origin: Point := Point(0, 0)

  /** What reading slot `index` of contents `s` gives: status and the point left in the out-parameter `pt`. */
  function GetAt(s: seq<Point>, index: int, pt: Point): (r: (int, Point))
    ensures r.0 == 0 || r.0 == -1
    ensures r.0 == 0 <==> 0 <= index < |s|
    ensures r.0 == 0 ==> r.1 == s[index]
    ensures r.0 != 0 ==> r.1 == pt
  {
    if 0 <= index < |s| then (0, s[index]) else (-1, pt)
  }

  /** What writing `pt` to slot `index` of contents `s` gives: status and the new contents. */
  function SetAt(s: seq<Point>, index: int, pt: Point): (r: (int, seq<Point>))
    ensures |r.1| == |s|
    ensures r.0 == 0 <==> 0 <= index < |s|
    ensures r.0 != 0 ==> r.0 == -1 && r.1 == s
    ensures r.0 == 0 ==> r.1[index] == pt
    ensures forall j :: 0 <= j < |s| && j != index ==> r.1[j] == s[j]
  {
    if 0 <= index < |s| then (0, s[index := pt]) else (-1, s)
  }

  /** A get after a set sees the point written there and the old point elsewhere. */
  lemma GetAfterSet(s: seq<Point>, i: int, p: Point, j: int, q: Point)
    ensures GetAt(SetAt(s, i, p).1, j, q) ==
            (if i == j && 0 <= i < |s| then (0, p) else GetAt(s, j, q))
  {
  }

  class PointsList {
    const points: array<Point>

    /** A list of `n` points, all zero (the memset of the source). */
    constructor (n: nat)
      ensures fresh(points)
      ensures points.Length == n
      ensures forall i :: 0 <= i < n ==> points[i] == Origin
    {
      points := new Point[n](_ => Origin);
    }
  }

  /** The length fixed at creation; 0 for an absent list. */
  function PointsNum(pl: PointsList?): (r: nat)
    ensures pl == null ==> r == 0
    ensures pl != null ==> r == pl.points.Length
  {
    if pl == null then 0 else pl.points.Length
  }

  /** Reading a slot: -1 for an absent list or an index out of range, `pt` left as it was. */
  function GetPoint(pl: PointsList?, index: int, pt: Point): (r: (int, Point))
    reads if pl == null then {} else {pl.points}
    ensures pl == null ==> r == (-1, pt)
    ensures pl != null ==> r == GetAt(pl.points[..], index, pt)
  {
    if pl == null then (-1, pt) else GetAt(pl.points[..], index, pt)
  }

  /** Writing a slot: -1 for an absent list or an index out of range, which leaves the list alone. */
  method SetPoint(pl: PointsList?, index: int, pt: Point) returns (r: int)
    modifies if pl == null then {} else {pl.points}
    ensures pl == null ==> r == -1
    ensures pl != null ==> r == SetAt(old(pl.points[..]), index, pt).0
    ensures pl != null ==> pl.points[..] == SetAt(old(pl.points[..]), index, pt).1
  {
    if pl == null {
      return -1;
    }
    if 0 <= index < pl.points.Length {
      pl.points[index] := pt;
      return 0;
    }
    return -1;
  }
}
