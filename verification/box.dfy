/** Axis-aligned integer rectangles (`Box.java`): construction from an OpenCV
    rectangle, the overlap test, the shortest distance between two boxes and
    the minimal box enclosing a collection.

    Coordinates are unbounded integers; Java's 32-bit `int` arithmetic in
    `x + width` is not modelled. */
module Boxes {
  import opened Wrappers

  /** A point with integer coordinates. OpenCV's `Point` holds doubles, but
      every point built here comes from integer box bounds. */
  datatype Point = Point(x: int, y: int)

  /** OpenCV's `Rect`: the corner with the smallest coordinates plus an extent. */
  datatype Rect = Rect(x: int, y: int, width: int, height: int) {

    /** OpenCV's `Rect.contains(Point)`: closed on the near edges and OPEN on
        the far edges. */
    predicate Contains(p: Point) {
      x <= p.x < x + width && y <= p.y < y + height
    }
  }

  /** Guava's `Range.closed(lower, upper)`: both ends included. */
  datatype ClosedRange = ClosedRange(lower: int, upper: int) {

    predicate Contains(v: int) {
      lower <= v && v <= upper
    }
  }

  /** A box wraps the rectangle it was built from; every other field of the
      Java class is derived from it. */
  datatype Box = Box(rect: Rect) {

    /** What the Java constructor guarantees of every box it returns: it
        builds `Range.closed(startX, endX)` and `Range.closed(startY, endY)`,
        and Guava rejects a range whose lower end exceeds its upper end. */
    predicate Valid() {
      rect.width >= 0 && rect.height >= 0
    }

    function StartX(): int { rect.x }
    function StartY(): int { rect.y }
    function EndX(): int { rect.x + rect.width }
    function EndY(): int { rect.y + rect.height }

    function XRange(): ClosedRange { ClosedRange(StartX(), EndX()) }
    function YRange(): ClosedRange { ClosedRange(StartY(), EndY()) }

    /** The four corners, named as in the source (y grows "up"). */
    function BL(): Point { Point(StartX(), StartY()) }
    function BR(): Point { Point(EndX(), StartY()) }
    function TL(): Point { Point(StartX(), EndY()) }
    function TR(): Point { Point(EndX(), EndY()) }

    /** The corner list in the order the constructor builds it. */
    function Corners(): seq<Point> { [BL(), BR(), TL(), TR()] }

    /** The point lies in the closed region of the box. */
    predicate Covers(p: Point) {
      XRange().Contains(p.x) && YRange().Contains(p.y)
    }
  }

  /** Why a box could not be built: Guava's `IllegalArgumentException`. */
  datatype BoxError = InvalidRange

  /** Why `meld` failed: `orElseThrow` on an empty stream. */
  datatype MeldError = EmptyInput

  predicate AllValid(boxes: seq<Box>) {
    forall i :: 0 <= i < |boxes| ==> boxes[i].Valid()
  }

  /** The `Box(Rect)` constructor. It fails exactly when one of the two
      closed ranges would be inverted; otherwise every derived field is the
      documented function of the rectangle. */
  function NewBox(rect: Rect): (r: Result<Box, BoxError>)
    ensures r.Success? <==> rect.width >= 0 && rect.height >= 0
    ensures r.Success? ==> r.value.Valid() && r.value.rect == rect
    ensures r.Success? ==>
      && r.value.EndX() - r.value.StartX() == rect.width
      && r.value.EndY() - r.value.StartY() == rect.height
      && r.value.XRange().lower <= r.value.XRange().upper
      && r.value.YRange().lower <= r.value.YRange().upper
    ensures r.Success? ==>
      forall k :: 0 <= k < 4 ==> r.value.Covers(r.value.Corners()[k])
  {
    if rect.width < 0 then Failure(InvalidRange)
    else if rect.height < 0 then Failure(InvalidRange)
    else Success(Box(rect))
  }

  // ---------------------------------------------------------------------
  // Overlap
  // ---------------------------------------------------------------------

  /** The closed rectangles of the two boxes share at least one point, stated
      through their coordinate intervals. */
  predicate ClosedIntersect(a: Box, b: Box) {
    a.StartX() <= b.EndX() && b.StartX() <= a.EndX() &&
    a.StartY() <= b.EndY() && b.StartY() <= a.EndY()
  }

  /** Some element of `pts` lies in `r` (Java's `stream().anyMatch(r::contains)`). */
  predicate AnyInside(r: Rect, pts: seq<Point>) {
    exists i :: 0 <= i < |pts| && r.Contains(pts[i])
  }

  /** The corner tests of `overlap` are sound: a corner of one box inside the
      other's half-open rectangle lies in its closed region too, so the two
      closed rectangles intersect. */
  lemma CornerInsideMeansIntersect(a: Box, b: Box)
    requires a.Valid() && b.Valid()
    ensures AnyInside(a.rect, b.Corners()) ==> ClosedIntersect(a, b)
    ensures AnyInside(b.rect, a.Corners()) ==> ClosedIntersect(a, b)
  {
    if AnyInside(a.rect, b.Corners()) {
      var i :| 0 <= i < 4 && a.rect.Contains(b.Corners()[i]);
      assert a.Covers(b.Corners()[i]) && b.Covers(b.Corners()[i]);
    }
    if AnyInside(b.rect, a.Corners()) {
      var i :| 0 <= i < 4 && b.rect.Contains(a.Corners()[i]);
      assert a.Covers(a.Corners()[i]) && b.Covers(a.Corners()[i]);
    }
  }

  /** The private `overlap` of the source: two corner tests through OpenCV's
      half-open `Rect.contains`, then eight edge-crossing tests through
      Guava's closed ranges. Taken together they decide exactly whether the
      CLOSED rectangles intersect, so boxes touching along an edge or at a
      corner overlap. */
  function Overlap(a: Box, b: Box): (r: bool)
    requires a.Valid() && b.Valid()
    ensures r <==> ClosedIntersect(a, b)
  {
    OverlapCatchesIntersection(a, b);
    // the first box contains one of the other's corners, or vice versa
    AnyInside(a.rect, b.Corners())
    || AnyInside(b.rect, a.Corners())
    // left edge of a against the top / bottom edge of b
    || (a.YRange().Contains(b.EndY()) && b.XRange().Contains(a.StartX()))
    || (a.YRange().Contains(b.StartY()) && b.XRange().Contains(a.StartX()))
    // right edge of a against the top / bottom edge of b
    || (a.YRange().Contains(b.EndY()) && b.XRange().Contains(a.EndX()))
    || (a.YRange().Contains(b.StartY()) && b.XRange().Contains(a.EndX()))
    // bottom edge of a against the right / left edge of b
    || (a.XRange().Contains(b.EndX()) && b.YRange().Contains(a.StartY()))
    || (a.XRange().Contains(b.StartX()) && b.YRange().Contains(a.StartY()))
    // top edge of a against the right / left edge of b
    || (a.XRange().Contains(b.EndX()) && b.YRange().Contains(a.EndY()))
    || (a.XRange().Contains(b.StartX()) && b.YRange().Contains(a.EndY()))
  }

  /** Whenever the closed rectangles intersect, one of the ten tests of
      `Overlap` fires: which one depends on which box starts later on each
      axis and on which ends first. */
  lemma OverlapCatchesIntersection(a: Box, b: Box)
    requires a.Valid() && b.Valid()
    ensures ClosedIntersect(a, b) ==>
      AnyInside(a.rect, b.Corners()) || AnyInside(b.rect, a.Corners())
      || (a.YRange().Contains(b.EndY()) && b.XRange().Contains(a.StartX()))
      || (a.YRange().Contains(b.StartY()) && b.XRange().Contains(a.StartX()))
      || (a.YRange().Contains(b.StartY()) && b.XRange().Contains(a.EndX()))
      || (a.XRange().Contains(b.EndX()) && b.YRange().Contains(a.StartY()))
      || (a.XRange().Contains(b.StartX()) && b.YRange().Contains(a.StartY()))
      || (a.XRange().Contains(b.StartX()) && b.YRange().Contains(a.EndY()))
  {
    if !ClosedIntersect(a, b) {
    } else if b.StartX() <= a.StartX() && a.StartY() < b.StartY() {
      assert a.YRange().Contains(b.StartY()) && b.XRange().Contains(a.StartX());
    } else if a.StartX() < b.StartX() && b.StartY() <= a.StartY() {
      assert a.XRange().Contains(b.StartX()) && b.YRange().Contains(a.StartY());
    } else if b.StartX() <= a.StartX() && b.StartY() <= a.StartY() {
      // a starts later on both axes
      if b.EndX() <= a.EndX() {
        assert a.XRange().Contains(b.EndX()) && b.YRange().Contains(a.StartY());
      } else if b.EndY() <= a.EndY() {
        assert a.YRange().Contains(b.EndY()) && b.XRange().Contains(a.StartX());
      } else {
        assert b.rect.Contains(a.Corners()[0]);
      }
    } else {
      // b starts later on both axes
      if a.EndX() <= b.EndX() {
        assert a.YRange().Contains(b.StartY()) && b.XRange().Contains(a.EndX());
      } else if a.EndY() <= b.EndY() {
        assert a.XRange().Contains(b.StartX()) && b.YRange().Contains(a.EndY());
      } else {
        assert a.rect.Contains(b.Corners()[0]);
      }
    }
  }

  /** `overlap` does not depend on which box asks. */
  lemma OverlapSymmetric(a: Box, b: Box)
    requires a.Valid() && b.Valid()
    ensures Overlap(a, b) == Overlap(b, a)
  {
  }

  /** Interval intersection is the same as sharing a point of the plane. */
  lemma ClosedIntersectIffSharedPoint(a: Box, b: Box)
    requires a.Valid() && b.Valid()
    ensures ClosedIntersect(a, b) <==> exists p :: a.Covers(p) && b.Covers(p)
  {
    if ClosedIntersect(a, b) {
      var p := Point(Max(a.StartX(), b.StartX()), Max(a.StartY(), b.StartY()));
      assert a.Covers(p) && b.Covers(p);
    }
  }

  /** A box enclosing another overlaps it, whichever of the two asks. */
  lemma ContainmentImpliesOverlap(outer: Box, inner: Box)
    requires outer.Valid() && inner.Valid()
    requires Encloses(outer, inner)
    ensures Overlap(outer, inner) && Overlap(inner, outer)
    ensures ShortestDistanceSquared(outer, inner) == 0
  {
  }

  // ---------------------------------------------------------------------
  // Shortest distance
  // ---------------------------------------------------------------------

  function Abs(n: int): nat { if n < 0 then -n else n }
  function Min(a: int, b: int): int { if a <= b then a else b }
  function Max(a: int, b: int): int { if a >= b then a else b }
  function Sq(n: nat): nat { n * n }

  /** The source's `euclid`, squared: `Math.pow(d, 2)` of each coordinate
      difference, summed, without the final `Math.sqrt`. It is 0 exactly for
      equal points, and never less than the square of either coordinate
      difference. */
  function EuclidSquared(p: Point, q: Point): (d: nat)
    ensures d == 0 <==> p == q
    ensures Sq(Abs(p.x - q.x)) <= d && Sq(Abs(p.y - q.y)) <= d
  {
    SqZero(Abs(p.x - q.x));
    SqZero(Abs(p.y - q.y));
    Sq(Abs(p.x - q.x)) + Sq(Abs(p.y - q.y))
  }

  /** The horizontal gap between the closed x-intervals; 0 when they meet. */
  function GapX(a: Box, b: Box): nat {
    if a.StartX() > b.EndX() then a.StartX() - b.EndX()
    else if b.StartX() > a.EndX() then b.StartX() - a.EndX()
    else 0
  }

  /** The vertical gap between the closed y-intervals; 0 when they meet. */
  function GapY(a: Box, b: Box): nat {
    if a.StartY() > b.EndY() then a.StartY() - b.EndY()
    else if b.StartY() > a.EndY() then b.StartY() - a.EndY()
    else 0
  }

  /** One closed range has an end inside the other: the four `contains`
      tests the source uses to detect side-by-side or stacked boxes. */
  predicate RangesMeet(r: ClosedRange, s: ClosedRange) {
    s.Contains(r.lower) || s.Contains(r.upper) || r.Contains(s.lower) || r.Contains(s.upper)
  }

  lemma SqZero(n: nat)
    ensures Sq(n) == 0 <==> n == 0
  {
    if n > 0 {
      assert Sq(n) == n * n >= n * 1;
    }
  }

  /** The SQUARE of the source's `shortestDistance`: the Java method returns
      `Math.sqrt` of this value in the diagonal case and the plain gap, whose
      square this is, in the side-by-side and stacked cases.

      Whatever branch is taken, the value is the squared Euclidean distance
      between the closed rectangles, `GapX^2 + GapY^2`; it is 0 exactly when
      the boxes overlap, and positive otherwise. */
  function ShortestDistanceSquared(a: Box, b: Box): (d: nat)
    requires a.Valid() && b.Valid()
    ensures d == Sq(GapX(a, b)) + Sq(GapY(a, b))
    ensures d == 0 <==> Overlap(a, b)
    ensures !Overlap(a, b) && RangesMeet(a.YRange(), b.YRange()) ==> d == Sq(GapX(a, b)) && GapX(a, b) > 0
    ensures !Overlap(a, b) && !RangesMeet(a.YRange(), b.YRange()) && RangesMeet(a.XRange(), b.XRange()) ==>
      d == Sq(GapY(a, b)) && GapY(a, b) > 0
    ensures !RangesMeet(a.XRange(), b.XRange()) && !RangesMeet(a.YRange(), b.YRange()) ==>
      GapX(a, b) > 0 && GapY(a, b) > 0
  {
    SqZero(GapX(a, b));
    SqZero(GapY(a, b));
    if Overlap(a, b) then
      0
    else if b.YRange().Contains(a.StartY()) || b.YRange().Contains(a.EndY()) ||
            a.YRange().Contains(b.StartY()) || a.YRange().Contains(b.EndY()) then
      // side by side
      Sq(Min(Abs(a.StartX() - b.EndX()), Abs(a.EndX() - b.StartX())))
    else if b.XRange().Contains(a.StartX()) || b.XRange().Contains(a.EndX()) ||
            a.XRange().Contains(b.StartX()) || a.XRange().Contains(b.EndX()) then
      // stacked
      Sq(Min(Abs(a.StartY() - b.EndY()), Abs(a.EndY() - b.StartY())))
    else if a.StartX() > b.EndX() then
      if a.StartY() > b.EndY() then EuclidSquared(a.BL(), b.TR())
      else EuclidSquared(a.TL(), b.BR())
    else
      if a.StartY() > b.EndY() then EuclidSquared(a.BR(), b.TL())
      else EuclidSquared(a.TR(), b.BL())
  }

  /** The distance does not depend on which box asks. */
  lemma DistanceSymmetric(a: Box, b: Box)
    requires a.Valid() && b.Valid()
    ensures ShortestDistanceSquared(a, b) == ShortestDistanceSquared(b, a)
  {
  }

  // ---------------------------------------------------------------------
  // Meld
  // ---------------------------------------------------------------------

  /** `outer`'s closed region includes `inner`'s. */
  predicate Encloses(outer: Box, inner: Box) {
    outer.StartX() <= inner.StartX() && inner.EndX() <= outer.EndX() &&
    outer.StartY() <= inner.StartY() && inner.EndY() <= outer.EndY()
  }

  /** The smallest element of a non-empty sequence (`stream.min`). */
  function MinOf(xs: seq<int>): (m: int)
    requires |xs| > 0
    ensures m in xs
    ensures forall i :: 0 <= i < |xs| ==> m <= xs[i]
  {
    if |xs| == 1 then xs[0] else Min(xs[0], MinOf(xs[1..]))
  }

  /** The largest element of a non-empty sequence (`stream.max`). */
  function MaxOf(xs: seq<int>): (m: int)
    requires |xs| > 0
    ensures m in xs
    ensures forall i :: 0 <= i < |xs| ==> xs[i] <= m
  {
    if |xs| == 1 then xs[0] else Max(xs[0], MaxOf(xs[1..]))
  }

  function StartXs(boxes: seq<Box>): (xs: seq<int>)
    ensures |xs| == |boxes| && forall i :: 0 <= i < |boxes| ==> xs[i] == boxes[i].StartX()
  {
    seq(|boxes|, i requires 0 <= i < |boxes| => boxes[i].StartX())
  }

  function StartYs(boxes: seq<Box>): (ys: seq<int>)
    ensures |ys| == |boxes| && forall i :: 0 <= i < |boxes| ==> ys[i] == boxes[i].StartY()
  {
    seq(|boxes|, i requires 0 <= i < |boxes| => boxes[i].StartY())
  }

  function EndXs(boxes: seq<Box>): (xs: seq<int>)
    ensures |xs| == |boxes| && forall i :: 0 <= i < |boxes| ==> xs[i] == boxes[i].EndX()
  {
    seq(|boxes|, i requires 0 <= i < |boxes| => boxes[i].EndX())
  }

  function EndYs(boxes: seq<Box>): (ys: seq<int>)
    ensures |ys| == |boxes| && forall i :: 0 <= i < |boxes| ==> ys[i] == boxes[i].EndY()
  {
    seq(|boxes|, i requires 0 <= i < |boxes| => boxes[i].EndY())
  }

  /** The source's static `meld`: the box with the least start and greatest
      end coordinates over the collection. It fails on an empty collection;
      otherwise the result is a valid box enclosing every input, and each of
      its four bounds is the bound of some input. */
  function Meld(boxes: seq<Box>): (r: Result<Box, MeldError>)
    requires AllValid(boxes)
    ensures r.Failure? <==> |boxes| == 0
    ensures r.Success? ==> r.value.Valid()
    ensures r.Success? ==> forall i :: 0 <= i < |boxes| ==> Encloses(r.value, boxes[i])
    ensures r.Success? ==>
      && (exists i :: 0 <= i < |boxes| && boxes[i].StartX() == r.value.StartX())
      && (exists i :: 0 <= i < |boxes| && boxes[i].StartY() == r.value.StartY())
      && (exists i :: 0 <= i < |boxes| && boxes[i].EndX() == r.value.EndX())
      && (exists i :: 0 <= i < |boxes| && boxes[i].EndY() == r.value.EndY())
  {
    if |boxes| == 0 then
      Failure(EmptyInput)
    else
      var startX := MinOf(StartXs(boxes));
      var endX := MaxOf(EndXs(boxes));
      var startY := MinOf(StartYs(boxes));
      var endY := MaxOf(EndYs(boxes));
      assert boxes[0].StartX() <= boxes[0].EndX() && boxes[0].StartY() <= boxes[0].EndY();
      Success(Box(Rect(startX, startY, endX - startX, endY - startY)))
  }

  /** Minimality: every box that encloses all the inputs encloses their meld. */
  lemma MeldIsMinimal(boxes: seq<Box>, e: Box)
    requires AllValid(boxes) && |boxes| > 0
    requires forall i :: 0 <= i < |boxes| ==> Encloses(e, boxes[i])
    ensures Encloses(e, Meld(boxes).value)
  {
  }

  /** Melding a single box gives back that box. */
  lemma MeldSingleton(b: Box)
    requires b.Valid()
    ensures Meld([b]) == Success(b)
  {
  }

  /** A box enclosing every box of `t` encloses every box of a collection
      whose boxes all occur in `t`. */
  lemma EnclosesSubset(m: Box, s: seq<Box>, t: seq<Box>)
    requires forall i :: 0 <= i < |t| ==> Encloses(m, t[i])
    requires forall b :: b in s ==> b in t
    ensures forall i :: 0 <= i < |s| ==> Encloses(m, s[i])
  {
    forall i | 0 <= i < |s| ensures Encloses(m, s[i]) {
      assert s[i] in t;
    }
  }

  /** The meld depends only on which boxes are in the collection, not on
      their order or repetition. */
  lemma MeldOrderIndependent(s: seq<Box>, t: seq<Box>)
    requires AllValid(s) && AllValid(t)
    requires forall b :: b in s <==> b in t
    ensures Meld(s) == Meld(t)
  {
    assert |s| > 0 ==> s[0] in t;
    assert |t| > 0 ==> t[0] in s;
    if |s| > 0 {
      var ms, mt := Meld(s).value, Meld(t).value;
      EnclosesSubset(mt, s, t);
      EnclosesSubset(ms, t, s);
      MeldIsMinimal(s, mt);
      MeldIsMinimal(t, ms);
      assert ms.rect == mt.rect;
    }
  }
}
