/**
 * The bridge between bitmaps and points lists: scanning a bitmap for the
 * pixels of one colour, row by row, into a points list, and drawing the
 * points of a list onto a bitmap in one colour.
 */
module BitmapPoints {
  import opened Ints
  import opened Bitmaps
  import opened PointsList

  /** The scan only handles bitmaps whose coordinates fit in 16 bits. */
  predicate Scannable(info: BitmapInfo) {
    info.width <= 0xffff && info.height <= 0xffff
  }

  /** Whether a point lies on the canvas of a bitmap with header `info`. */
  predicate InCanvas(info: BitmapInfo, p: Point) {
    p.x < info.width && p.y < info.height
  }

  /** Row-major order: by row, then by column within the row. */
  predicate Before(p: Point, q: Point) {
    p.y < q.y || (p.y == q.y && p.x < q.x)
  }

  /** Points strictly in row-major order, so in particular each at most once. */
  predicate RowMajor(s: seq<Point>) {
    forall i, j :: 0 <= i < j < |s| ==> Before(s[i], s[j])
  }

  // ---------------------------------------------------------------------
  // What the scan finds
  // ---------------------------------------------------------------------

  /** What a bitmap shows: its size and the colour of each pixel on it. */
  datatype Canvas = Canvas(width: nat, height: nat, colour: (nat, nat) -> bv32)

  /** The canvas of a bitmap: pixel (x, y) has the colour `get_pixel` reads there. */
  function CanvasOf(bm: RawBitmap): (cv: Canvas)
    requires bm.Valid()
    reads bm.pixels
    ensures cv.width == bm.info.width && cv.height == bm.info.height
    ensures forall x: u32, y: u32 | x < cv.width && y < cv.height :: GetPixel(bm, x, y) == Some(cv.colour(x, y))
  {
    var bpp, width, height, words := bm.info.bitsPerPixel, bm.info.width, bm.info.height, bm.pixels[..];
    Canvas(width, height,
           (x: nat, y: nat) => if x < width && y < height then PixelAt(bpp, width, height, words, x, y) else 0)
  }

  /** The points of row `y` among its first `n` columns whose colour is `pixel`, left to right. */
  function RowMatches(cv: Canvas, pixel: bv32, y: nat, n: nat): (r: seq<Point>)
    requires cv.width <= 0xffff && cv.height <= 0xffff
    requires y < cv.height && n <= cv.width
    ensures |r| <= n
  {
    if n == 0 then []
    else
      var r := RowMatches(cv, pixel, y, n - 1);
      if cv.colour(n - 1, y) == pixel then r + [Point(n - 1, y)] else r
  }

  /** The points of the first `rows` rows whose colour is `pixel`, in row-major order. */
  function Matches(cv: Canvas, pixel: bv32, rows: nat): (r: seq<Point>)
    requires cv.width <= 0xffff && cv.height <= 0xffff
    requires rows <= cv.height
  {
    if rows == 0 then []
    else Matches(cv, pixel, rows - 1) + RowMatches(cv, pixel, rows - 1, cv.width)
  }

  /** A row's matches lie in that row, before column `n`, and have colour `pixel`; every such pixel is among them, left to right. */
  lemma {:induction false} RowMatchesExact(cv: Canvas, pixel: bv32, y: nat, n: nat)
    requires cv.width <= 0xffff && cv.height <= 0xffff
    requires y < cv.height && n <= cv.width
    ensures var r := RowMatches(cv, pixel, y, n);
            (forall p :: p in r ==> p.y == y && p.x < n && cv.colour(p.x, p.y) == pixel) &&
            (forall x: nat | x < n :: cv.colour(x, y) == pixel ==> Point(x, y) in r) &&
            RowMajor(r)
  {
    if n > 0 {
      RowMatchesExact(cv, pixel, y, n - 1);
    }
  }

  /** The matches of the first `rows` rows lie in those rows and have colour `pixel`; every such pixel is among them, in row-major order. */
  lemma {:induction false} MatchesExact(cv: Canvas, pixel: bv32, rows: nat)
    requires cv.width <= 0xffff && cv.height <= 0xffff
    requires rows <= cv.height
    ensures var r := Matches(cv, pixel, rows);
            (forall p :: p in r ==> p.y < rows && p.x < cv.width && cv.colour(p.x, p.y) == pixel) &&
            (forall x: nat, y: nat | x < cv.width && y < rows :: cv.colour(x, y) == pixel ==> Point(x, y) in r) &&
            RowMajor(r)
  {
    if rows > 0 {
      MatchesExact(cv, pixel, rows - 1);
      RowMatchesExact(cv, pixel, rows - 1, cv.width);
      var before := Matches(cv, pixel, rows - 1);
      var row := RowMatches(cv, pixel, rows - 1, cv.width);
      assert forall i, j :: 0 <= i < |before| <= j < |before| + |row| ==>
        (before + row)[i] in before && (before + row)[j] in row;
    }
  }

  /** The points of the whole bitmap whose pixel is `pixel`, in row-major order; none when the scan refuses the bitmap. */
  function AllMatches(bm: RawBitmap?, pixel: bv32): (r: seq<Point>)
    requires bm != null ==> bm.Valid()
    reads if bm != null then {bm.pixels} else {}
    ensures forall p :: p in r ==> bm != null && InCanvas(bm.info, p)
  {
    if bm == null || !Scannable(bm.info) then []
    else
      MatchesExact(CanvasOf(bm), pixel, bm.info.height);
      Matches(CanvasOf(bm), pixel, bm.info.height)
  }

  /** The scan's result is exactly the matching pixels: each on the canvas with colour `pixel`, each matching pixel listed, none twice, in row-major order. */
  lemma AllMatchesExact(bm: RawBitmap, pixel: bv32)
    requires bm.Valid() && Scannable(bm.info)
    ensures RowMajor(AllMatches(bm, pixel))
    ensures forall p :: p in AllMatches(bm, pixel) ==> InCanvas(bm.info, p) && GetPixel(bm, p.x, p.y) == Some(pixel)
    ensures forall x: u32, y: u32 | x < bm.info.width && y < bm.info.height ::
              GetPixel(bm, x, y) == Some(pixel) ==> Point(x, y) in AllMatches(bm, pixel)
    ensures forall i, j :: 0 <= i < j < |AllMatches(bm, pixel)| ==> AllMatches(bm, pixel)[i] != AllMatches(bm, pixel)[j]
  {
    MatchesExact(CanvasOf(bm), pixel, bm.info.height);
  }

  /** One more column of a row adds that column's point exactly when its colour is `pixel`. */
  lemma RowMatchesStep(cv: Canvas, pixel: bv32, y: nat, n: nat)
    requires cv.width <= 0xffff && cv.height <= 0xffff
    requires y < cv.height && n < cv.width
    ensures RowMatches(cv, pixel, y, n + 1) ==
            RowMatches(cv, pixel, y, n) + if cv.colour(n, y) == pixel then [Point(n, y)] else []
  {
  }

  /** Contents `s` with the first slots replaced by the points of `ms`, as far as `s` reaches. */
  function Overlay(s: seq<Point>, ms: seq<Point>): (r: seq<Point>)
    ensures |r| == |s|
    ensures forall k :: 0 <= k < |s| ==> r[k] == if k < |ms| then ms[k] else s[k]
  {
    seq(|s|, k requires 0 <= k < |s| => if k < |ms| then ms[k] else s[k])
  }

  /** Writing the next match at the running count extends the overlay by that match. */
  lemma OverlayStep(s: seq<Point>, ms: seq<Point>, p: Point)
    ensures Overlay(s, ms + [p]) == SetAt(Overlay(s, ms), |ms|, p).1
  {
  }

  // ---------------------------------------------------------------------
  // The scan
  // ---------------------------------------------------------------------

  /**
   * Counts the pixels of colour `pixel` row by row and, when a list is
   * given, writes each match at the running count (a slot past the list's
   * end is not written). A missing bitmap or one wider or taller than
   * 65535 pixels gives 0 and writes nothing.
   */
  method GetPoints(bm: RawBitmap?, pts: PointsList?, pixel: bv32) returns (points: nat)
    requires bm != null ==> bm.Valid()
    requires bm != null && pts != null ==> bm.pixels as object != pts.points
    modifies if pts != null then {pts.points} else {}
    ensures points == |AllMatches(bm, pixel)|
    ensures pts != null ==> pts.points[..] == Overlay(old(pts.points[..]), AllMatches(bm, pixel))
  {
    points := 0;
    var rbi := GetRawBitmapInfo(bm);
    if rbi.width > 0xffff {
      return 0;
    }
    if rbi.height > 0xffff {
      return 0;
    }
    if bm == null {
      return 0;
    }
    points := ScanRows(bm, pts, pixel);
  }

  /** The outer loop of the scan: every row in turn, top to bottom. */
  method ScanRows(bm: RawBitmap, pts: PointsList?, pixel: bv32) returns (points: nat)
    requires bm.Valid() && Scannable(bm.info)
    requires pts != null ==> bm.pixels as object != pts.points
    modifies if pts != null then {pts.points} else {}
    ensures points == |Matches(CanvasOf(bm), pixel, bm.info.height)|
    ensures pts != null ==> pts.points[..] == Overlay(old(pts.points[..]), Matches(CanvasOf(bm), pixel, bm.info.height))
  {
    points := 0;
    ghost var original := if pts != null then pts.points[..] else [];
    ghost var cv := CanvasOf(bm);
    var j := 0;
    while j < bm.info.height
      invariant j <= bm.info.height
      invariant cv == CanvasOf(bm)
      invariant points == |Matches(cv, pixel, j)|
      invariant pts != null ==> pts.points[..] == Overlay(original, Matches(cv, pixel, j))
    {
      points := ScanRow(bm, pts, pixel, j, points, Matches(cv, pixel, j), original);
      j := j + 1;
    }
  }

  /** Writes match `p` at the running count, which extends the list by that match. */
  method Record(pts: PointsList?, count: nat, p: Point, ghost original: seq<Point>, ghost before: seq<Point>)
    requires count == |before|
    requires pts != null ==> pts.points[..] == Overlay(original, before)
    modifies if pts != null then {pts.points} else {}
    ensures pts != null ==> pts.points[..] == Overlay(original, before + [p])
  {
    if pts != null {
      var _ := SetPoint(pts, count, p);
      OverlayStep(original, before, p);
    }
  }

  /** One column of the row scan: reads pixel (i, j) and records it when it has colour `pixel`. */
  method ScanPixel(bm: RawBitmap, pts: PointsList?, pixel: bv32, i: u32, j: u32, count: nat,
                   ghost cv: Canvas, ghost found: seq<Point>, ghost original: seq<Point>) returns (count': nat)
    requires bm.Valid() && Scannable(bm.info) && j < bm.info.height && i < bm.info.width
    requires cv == CanvasOf(bm)
    requires pts != null ==> bm.pixels as object != pts.points
    requires count == |found| + |RowMatches(cv, pixel, j, i)|
    requires pts != null ==> pts.points[..] == Overlay(original, found + RowMatches(cv, pixel, j, i))
    modifies if pts != null then {pts.points} else {}
    ensures count' == |found| + |RowMatches(cv, pixel, j, i + 1)|
    ensures pts != null ==> pts.points[..] == Overlay(original, found + RowMatches(cv, pixel, j, i + 1))
  {
    var col := GetPixel(bm, i, j);
    assert col == Some(cv.colour(i, j));
    ghost var before := found + RowMatches(cv, pixel, j, i);
    RowMatchesStep(cv, pixel, j, i);
    count' := count;
    if col == Some(pixel) {
      Record(pts, count, Point(i, j), original, before);
      count' := count + 1;
      assert before + [Point(i, j)] == found + (RowMatches(cv, pixel, j, i) + [Point(i, j)]);
    }
  }

  /**
   * The inner loop of the scan over row `j`: each pixel of colour `pixel`
   * is written at the running count `points` (when a list is given) and
   * counted.
   */
  method ScanRow(bm: RawBitmap, pts: PointsList?, pixel: bv32, j: u32, points: nat,
                 ghost found: seq<Point>, ghost original: seq<Point>) returns (count: nat)
    requires bm.Valid() && Scannable(bm.info) && j < bm.info.height
    requires pts != null ==> bm.pixels as object != pts.points
    requires points == |found|
    requires pts != null ==> pts.points[..] == Overlay(original, found)
    modifies if pts != null then {pts.points} else {}
    ensures count == points + |RowMatches(CanvasOf(bm), pixel, j, bm.info.width)|
    ensures pts != null ==> pts.points[..] == Overlay(original, found + RowMatches(CanvasOf(bm), pixel, j, bm.info.width))
  {
    ghost var cv := CanvasOf(bm);
    count := points;
    var i := 0;
    while i < bm.info.width
      invariant i <= bm.info.width
      invariant cv == CanvasOf(bm)
      invariant count == |found| + |RowMatches(cv, pixel, j, i)|
      invariant pts != null ==> pts.points[..] == Overlay(original, found + RowMatches(cv, pixel, j, i))
    {
      count := ScanPixel(bm, pts, pixel, i, j, count, cv, found, original);
      i := i + 1;
    }
  }

  /** The list of the pixels of colour `pixel`: the count pass sizes it, the second pass fills it. */
  method GetPointsList(bm: RawBitmap?, pixel: bv32) returns (pl: PointsList?)
    requires bm != null ==> bm.Valid()
    ensures pl != null && fresh(pl.points)
    ensures pl.points[..] == AllMatches(bm, pixel)
  {
    var points := GetPoints(bm, null, pixel);
    pl := new PointsList(points);
    assert Overlay(pl.points[..], AllMatches(bm, pixel)) == AllMatches(bm, pixel);
    var _ := GetPoints(bm, pl, pixel);
  }

  // ---------------------------------------------------------------------
  // Drawing
  // ---------------------------------------------------------------------

  /** The pixel words after setting each point of `ps` on the canvas to `c`, in list order; points off the canvas are skipped. */
  function Paint(info: BitmapInfo, w: seq<bv32>, ps: seq<Point>, c: bv32): (r: seq<bv32>)
    requires Shaped(info.bitsPerPixel, info.width, info.height, w)
    ensures Shaped(info.bitsPerPixel, info.width, info.height, r)
  {
    if |ps| == 0 then w
    else
      var r := Paint(info, w, ps[..|ps| - 1], c);
      var p := ps[|ps| - 1];
      if InCanvas(info, p) then StoreAt(info.bitsPerPixel, info.width, info.height, r, p.x, p.y, c) else r
  }

  /** The number of points of `ps` off the canvas. */
  function Outside(info: BitmapInfo, ps: seq<Point>): (r: nat)
    ensures r <= |ps|
  {
    if |ps| == 0 then 0
    else Outside(info, ps[..|ps| - 1]) + (if InCanvas(info, ps[|ps| - 1]) then 0 else 1)
  }

  /** Whether some point of `ps` is (x, y). */
  predicate Listed(ps: seq<Point>, x: nat, y: nat) {
    exists k :: 0 <= k < |ps| && ps[k].x == x && ps[k].y == y
  }

  /** Off-canvas points are at most all of them, and all of them exactly when none lies on the canvas. */
  lemma OutsideBound(info: BitmapInfo, ps: seq<Point>)
    ensures Outside(info, ps) <= |ps|
    ensures Outside(info, ps) == |ps| <==> forall k :: 0 <= k < |ps| ==> !InCanvas(info, ps[k])
  {
    if |ps| > 0 {
      OutsideBound(info, ps[..|ps| - 1]);
      assert forall k :: 0 <= k < |ps| - 1 ==> ps[..|ps| - 1][k] == ps[k];
    }
  }

  /** Painting a list reads at (x, y) as painting all but its last point, unless that last point is (x, y). */
  lemma PaintLast(info: BitmapInfo, w: seq<bv32>, ps: seq<Point>, c: bv32, x: nat, y: nat)
    requires Shaped(info.bitsPerPixel, info.width, info.height, w)
    requires x < info.width && y < info.height && |ps| > 0
    ensures var p := ps[|ps| - 1];
            PixelAt(info.bitsPerPixel, info.width, info.height, Paint(info, w, ps, c), x, y) ==
            if p.x == x && p.y == y then c & ValueMask(info.bitsPerPixel)
            else PixelAt(info.bitsPerPixel, info.width, info.height, Paint(info, w, ps[..|ps| - 1], c), x, y)
  {
    var p := ps[|ps| - 1];
    if InCanvas(info, p) {
      SetThenGet(info.bitsPerPixel, info.width, info.height, Paint(info, w, ps[..|ps| - 1], c), p.x, p.y, c, x, y);
    }
  }

  /** (x, y) is listed in a list exactly when it is listed in all but its last point or is that last point. */
  lemma ListedLast(ps: seq<Point>, x: nat, y: nat)
    requires |ps| > 0
    ensures Listed(ps, x, y) <==>
            Listed(ps[..|ps| - 1], x, y) || (ps[|ps| - 1].x == x && ps[|ps| - 1].y == y)
  {
    var front := ps[..|ps| - 1];
    if Listed(ps, x, y) && !(ps[|ps| - 1].x == x && ps[|ps| - 1].y == y) {
      var k :| 0 <= k < |ps| && ps[k].x == x && ps[k].y == y;
      assert front[k] == ps[k];
    }
    if Listed(front, x, y) {
      var k :| 0 <= k < |front| && front[k].x == x && front[k].y == y;
      assert ps[k] == front[k];
    }
  }

  /** After painting, a pixel on the canvas holds `c` cut to the depth if it is listed, and its old value otherwise. */
  lemma {:induction false} PaintReadBack(info: BitmapInfo, w: seq<bv32>, ps: seq<Point>, c: bv32, x: nat, y: nat)
    requires Shaped(info.bitsPerPixel, info.width, info.height, w)
    requires x < info.width && y < info.height
    ensures PixelAt(info.bitsPerPixel, info.width, info.height, Paint(info, w, ps, c), x, y) ==
            if Listed(ps, x, y) then c & ValueMask(info.bitsPerPixel)
            else PixelAt(info.bitsPerPixel, info.width, info.height, w, x, y)
  {
    if |ps| > 0 {
      PaintReadBack(info, w, ps[..|ps| - 1], c, x, y);
      PaintLast(info, w, ps, c, x, y);
      ListedLast(ps, x, y);
    }
  }

  /**
   * Sets every listed point to `pixel`, in list order, and returns how many
   * points fell off the canvas; -1 when the bitmap or the list is missing.
   */
  method DrawPointsList(bm: RawBitmap?, pts: PointsList?, pixel: bv32) returns (result: int)
    requires bm != null ==> bm.Valid()
    requires bm != null && pts != null ==> bm.pixels as object != pts.points
    modifies if bm != null then {bm.pixels} else {}
    ensures bm == null || pts == null ==> result == -1
    ensures bm != null && pts == null ==> bm.pixels[..] == old(bm.pixels[..])
    ensures bm != null && pts != null ==>
              result == Outside(bm.info, pts.points[..]) &&
              bm.pixels[..] == Paint(bm.info, old(bm.pixels[..]), pts.points[..], pixel)
    ensures bm != null && pts != null ==>
              forall x: u32, y: u32 | x < bm.info.width && y < bm.info.height ::
                GetPixel(bm, x, y) ==
                Some(if Listed(pts.points[..], x, y) then pixel & ValueMask(bm.info.bitsPerPixel)
                     else old(GetPixel(bm, x, y)).value)
  {
    if bm == null {
      return -1;
    }
    if pts == null {
      return -1;
    }
    var pointsNum := PointsNum(pts);
    result := 0;
    ghost var original := bm.pixels[..];
    for i := 0 to pointsNum
      invariant result == Outside(bm.info, pts.points[..i])
      invariant bm.pixels[..] == Paint(bm.info, original, pts.points[..i], pixel)
    {
      var pt := GetPoint(pts, i, Origin).1;
      var drawn := SetPixel(bm, pt.x, pt.y, pixel);
      if drawn != 0 {
        result := result + 1;
      }
      assert pts.points[..i + 1][..i] == pts.points[..i];
    }
    assert pts.points[..pointsNum] == pts.points[..];
    forall x: u32, y: u32 | x < bm.info.width && y < bm.info.height
      ensures GetPixel(bm, x, y) ==
              Some(if Listed(pts.points[..], x, y) then pixel & ValueMask(bm.info.bitsPerPixel)
                   else PixelAt(bm.info.bitsPerPixel, bm.info.width, bm.info.height, original, x, y))
    {
      PaintReadBack(bm.info, original, pts.points[..], pixel, x, y);
    }
  }
}
