/** Coordinate normalisation done once per load (`on_svg_loaded`, lines 87-105):
    y is negated, a bounding box is accumulated from the origin, and every node
    is shifted by the box's lower corner and scaled by one factor so that the
    box fits a 1024 x 1024 square. */
module Layout {

  datatype Point = Point(x: real, y: real)

  /** Lower and upper corners of an axis-aligned box. */
  datatype Box = Box(minX: real, minY: real, maxX: real, maxY: real)

  /** The side of the square the drawing is scaled into. */
  const Side: real := 1024.0

  /** `n.y = -n.y` (line 93). */
  function Flip(p: Point): (q: Point)
  {
    Point(p.x, -p.y)
  }

  function FlipAll(ps: seq<Point>): (fs: seq<Point>)
    ensures |fs| == |ps|
    ensures forall i :: 0 <= i < |ps| ==> fs[i] == Flip(ps[i])
  {
    seq(|ps|, i requires 0 <= i < |ps| => Flip(ps[i]))
  }

  predicate Inside(b: Box, p: Point)
  {
    b.minX <= p.x <= b.maxX && b.minY <= p.y <= b.maxY
  }

  /** The box holds the origin and every point. */
  ghost predicate Encloses(b: Box, ps: seq<Point>)
  {
    Inside(b, Point(0.0, 0.0)) && forall i :: 0 <= i < |ps| ==> Inside(b, ps[i])
  }

  /** Every side of the box is 0 or is reached by a point. */
  ghost predicate Tight(b: Box, ps: seq<Point>)
  {
    && (b.minX == 0.0 || exists i :: 0 <= i < |ps| && ps[i].x == b.minX)
    && (b.maxX == 0.0 || exists i :: 0 <= i < |ps| && ps[i].x == b.maxX)
    && (b.minY == 0.0 || exists i :: 0 <= i < |ps| && ps[i].y == b.minY)
    && (b.maxY == 0.0 || exists i :: 0 <= i < |ps| && ps[i].y == b.maxY)
  }

  /** A tight enclosing box lies within every box that holds the origin and
      the points: it is the least such box. */
  lemma TightBoxIsLeast(b: Box, c: Box, ps: seq<Point>)
    requires Tight(b, ps) && Encloses(c, ps)
    ensures c.minX <= b.minX && b.maxX <= c.maxX && c.minY <= b.minY && b.maxY <= c.maxY
  {
    if b.minX != 0.0 {
      var i :| 0 <= i < |ps| && ps[i].x == b.minX;
      assert Inside(c, ps[i]);
    }
    if b.maxX != 0.0 {
      var i :| 0 <= i < |ps| && ps[i].x == b.maxX;
      assert Inside(c, ps[i]);
    }
    if b.minY != 0.0 {
      var i :| 0 <= i < |ps| && ps[i].y == b.minY;
      assert Inside(c, ps[i]);
    }
    if b.maxY != 0.0 {
      var i :| 0 <= i < |ps| && ps[i].y == b.maxY;
      assert Inside(c, ps[i]);
    }
  }

  /** Hence there is only one tight enclosing box. */
  lemma TightBoxIsUnique(b1: Box, b2: Box, ps: seq<Point>)
    requires Encloses(b1, ps) && Tight(b1, ps)
    requires Encloses(b2, ps) && Tight(b2, ps)
    ensures b1 == b2
  {
    TightBoxIsLeast(b1, b2, ps);
    TightBoxIsLeast(b2, b1, ps);
  }

  /** The scale the source computes at line 102. JavaScript divides by zero to
      +Infinity and `Math.min` then ignores that side; when both sides are 0 the
      scale is +Infinity. With no nodes the assignment never runs and the
      global keeps its initial value 1 (line 33). */
  datatype Scale = Finite(k: real) | Infinite

  function ScaleFor(count: nat, b: Box): (s: Scale)
    ensures s.Infinite? <==> count > 0 && b.minX == b.maxX && b.minY == b.maxY
  {
    var w := b.maxX - b.minX;
    var h := b.maxY - b.minY;
    if count == 0 then Finite(1.0)
    else if w == 0.0 && h == 0.0 then Infinite
    else if w == 0.0 then Finite(Side / h)
    else if h == 0.0 then Finite(Side / w)
    else Finite(Min(Side / w, Side / h))
  }

  function Min(a: real, b: real): (m: real)
    ensures m <= a && m <= b && (m == a || m == b)
  {
    if a <= b then a else b
  }

  /** The finite scale of a non-empty drawing is positive, keeps both sides of
      the box within 1024, and makes one of them exactly 1024. */
  lemma ScaleFits(count: nat, b: Box)
    requires count > 0 && b.minX <= b.maxX && b.minY <= b.maxY
    requires ScaleFor(count, b).Finite?
    ensures KeepsWithinSide(ScaleFor(count, b).k, b)
    ensures FillsSide(ScaleFor(count, b).k, b)
  {
    var w := b.maxX - b.minX;
    var h := b.maxY - b.minY;
    if w > 0.0 && h > 0.0 {
      if Side / w <= Side / h {
        DivOrder(w, h);
      } else {
        DivOrder(h, w);
      }
    }
  }

  /** Scaling by `k` keeps both sides of `b` within 1024. */
  predicate KeepsWithinSide(k: real, b: Box)
  {
    k > 0.0 && k * (b.maxX - b.minX) <= Side && k * (b.maxY - b.minY) <= Side
  }

  /** Scaling by `k` stretches one side of `b` to exactly 1024. */
  predicate FillsSide(k: real, b: Box)
  {
    k * (b.maxX - b.minX) == Side || k * (b.maxY - b.minY) == Side
  }

  /** `1024/a <= 1024/b` means the scale also keeps side `b` within 1024. */
  lemma DivOrder(a: real, b: real)
    requires a > 0.0 && b > 0.0 && Side / a <= Side / b
    ensures (Side / a) * b <= Side
  {
    calc {
      (Side / a) * b;
    <= (Side / b) * b;
    == Side;
    }
  }

  /** Lines 103-104 for one node: shift by the box's lower corner, then scale. */
  function Place(p: Point, b: Box, k: real): (q: Point)
  {
    Point((p.x - b.minX) * k, (p.y - b.minY) * k)
  }

  /** Lines 101-105: every point placed with the same box and scale. */
  function PlaceAll(fs: seq<Point>, b: Box, k: real): (ps: seq<Point>)
    ensures |ps| == |fs|
    ensures forall i :: 0 <= i < |fs| ==> ps[i] == Place(fs[i], b, k)
  {
    seq(|fs|, i requires 0 <= i < |fs| => Place(fs[i], b, k))
  }

  /** The result of normalisation: the box, the scale and the placed points,
      or, when the scale is +Infinity, `count` nodes whose coordinates all
      become `0 * Infinity`, that is NaN. */
  datatype Layout = Placed(box: Box, scale: real, points: seq<Point>) | NotANumber(count: nat)

  /** `l` is what lines 87-105 make of `raw`. */
  ghost predicate NormalisedFrom(l: Layout, raw: seq<Point>)
  {
    var fs := FlipAll(raw);
    match l
    case NotANumber(count) => count == |raw| && ScaleFor(|raw|, Box(0.0, 0.0, 0.0, 0.0)).Infinite?
    case Placed(b, k, points) =>
      && Encloses(b, fs) && Tight(b, fs)
      && ScaleFor(|raw|, b) == Finite(k)
      && points == PlaceAll(fs, b, k)
  }

  /** Lines 88-98: the box accumulated over the (already flipped) points,
      starting from the origin. */
  method Bounds(fs: seq<Point>) returns (b: Box)
    ensures Encloses(b, fs) && Tight(b, fs)
  {
    b := Box(0.0, 0.0, 0.0, 0.0);
    var n := 0;
    while n < |fs|
      invariant n <= |fs|
      invariant Encloses(b, fs[..n]) && Tight(b, fs[..n])
    {
      var p := fs[n];
      b := Box(if p.x < b.minX then p.x else b.minX,
               if p.y < b.minY then p.y else b.minY,
               if p.x > b.maxX then p.x else b.maxX,
               if p.y > b.maxY then p.y else b.maxY);
      assert fs[..n + 1] == fs[..n] + [p];
      n := n + 1;
    }
    assert fs[..n] == fs;
  }

  /** Lines 87-105: negate y, accumulate the box from the origin, then place
      every node with the one scale. Every placed node lies in the 1024 x 1024
      square, and the square is filled along the box's longer side; the
      coordinates are NaN exactly when there are nodes and all of them sit at
      the origin. */
  method Normalise(raw: seq<Point>) returns (l: Layout)
    ensures NormalisedFrom(l, raw)
    ensures l.NotANumber? <==> |raw| > 0 && forall i :: 0 <= i < |raw| ==> raw[i] == Point(0.0, 0.0)
    ensures l.Placed? ==> |l.points| == |raw| && l.scale > 0.0
    ensures l.Placed? && |raw| > 0 ==> FillsSide(l.scale, l.box)
    ensures l.Placed? ==> forall i :: 0 <= i < |raw| ==>
      0.0 <= l.points[i].x <= Side && 0.0 <= l.points[i].y <= Side
  {
    var fs := FlipAll(raw);
    var b := Bounds(fs);
    var s := ScaleFor(|raw|, b);
    if s.Infinite? {
      l := NotANumber(|raw|);
      AllAtOrigin(raw, b);
    } else {
      var k := s.k;
      l := Placed(b, k, PlaceAll(fs, b, k));
      if |raw| > 0 {
        assert Inside(b, Point(0.0, 0.0));
        ScaleFits(|raw|, b);
        PlaceAllFits(fs, b, k);
        NotAllAtOrigin(raw, b);
      }
    }
  }

  /** A degenerate box holds only the origin. */
  lemma AllAtOrigin(raw: seq<Point>, b: Box)
    requires Encloses(b, FlipAll(raw)) && b.minX == b.maxX && b.minY == b.maxY
    ensures forall i :: 0 <= i < |raw| ==> raw[i] == Point(0.0, 0.0)
  {
    var fs := FlipAll(raw);
    forall i | 0 <= i < |raw|
      ensures raw[i] == Point(0.0, 0.0)
    {
      assert Inside(b, fs[i]);
    }
  }

  /** A tight box with some extent is reached by a point away from the origin. */
  lemma NotAllAtOrigin(raw: seq<Point>, b: Box)
    requires Tight(b, FlipAll(raw)) && Inside(b, Point(0.0, 0.0))
    requires !(b.minX == b.maxX && b.minY == b.maxY)
    ensures exists i :: 0 <= i < |raw| && raw[i] != Point(0.0, 0.0)
  {
    var fs := FlipAll(raw);
    if b.minX != 0.0 {
      var i :| 0 <= i < |fs| && fs[i].x == b.minX;
      assert raw[i].x != 0.0;
    } else if b.maxX != 0.0 {
      var i :| 0 <= i < |fs| && fs[i].x == b.maxX;
      assert raw[i].x != 0.0;
    } else if b.minY != 0.0 {
      var i :| 0 <= i < |fs| && fs[i].y == b.minY;
      assert raw[i].y != 0.0;
    } else {
      var i :| 0 <= i < |fs| && fs[i].y == b.maxY;
      assert raw[i].y != 0.0;
    }
  }

  /** Points inside the box, placed with a scale that keeps the box within
      1024, land inside the 1024 x 1024 square. */
  lemma PlaceAllFits(fs: seq<Point>, b: Box, k: real)
    requires forall i :: 0 <= i < |fs| ==> Inside(b, fs[i])
    requires KeepsWithinSide(k, b)
    ensures forall i :: 0 <= i < |fs| ==>
      0.0 <= PlaceAll(fs, b, k)[i].x <= Side && 0.0 <= PlaceAll(fs, b, k)[i].y <= Side
  {
    forall i | 0 <= i < |fs|
      ensures 0.0 <= PlaceAll(fs, b, k)[i].x <= Side && 0.0 <= PlaceAll(fs, b, k)[i].y <= Side
    {
      PlaceFits(fs[i], b, k);
    }
  }

  lemma PlaceFits(p: Point, b: Box, k: real)
    requires Inside(b, p) && KeepsWithinSide(k, b)
    ensures 0.0 <= Place(p, b, k).x <= Side && 0.0 <= Place(p, b, k).y <= Side
  {
    ScaledWithin(p.x - b.minX, b.maxX - b.minX, k);
    ScaledWithin(p.y - b.minY, b.maxY - b.minY, k);
  }

  /** An offset within a side, scaled by a factor that keeps the side within 1024. */
  lemma ScaledWithin(d: real, w: real, k: real)
    requires 0.0 <= d <= w && k > 0.0
    requires k * w <= Side
    ensures 0.0 <= d * k <= Side
  {
    assert d * k <= w * k;
  }

  /** One scale for all nodes: any two normalised nodes are as far apart as the
      raw nodes, times the scale, with the vertical direction mirrored. */
  lemma NormaliseIsUniform(raw: seq<Point>, l: Layout, i: nat, j: nat)
    requires l.Placed? && l.points == PlaceAll(FlipAll(raw), l.box, l.scale)
    requires i < |raw| && j < |raw|
    ensures l.points[i].x - l.points[j].x == l.scale * (raw[i].x - raw[j].x)
    ensures l.points[i].y - l.points[j].y == l.scale * (raw[j].y - raw[i].y)
  {
    PlacedPairDifference(raw, l.box, l.scale, i, j);
  }

  lemma PlacedFlipped(raw: seq<Point>, b: Box, k: real, i: nat)
    requires i < |raw|
    ensures PlaceAll(FlipAll(raw), b, k)[i] == Place(Flip(raw[i]), b, k)
  {
  }

  lemma PlacedPairDifference(raw: seq<Point>, b: Box, k: real, i: nat, j: nat)
    requires i < |raw| && j < |raw|
    ensures var ps := PlaceAll(FlipAll(raw), b, k);
      && ps[i].x - ps[j].x == k * (raw[i].x - raw[j].x)
      && ps[i].y - ps[j].y == k * (raw[j].y - raw[i].y)
  {
    var ps := PlaceAll(FlipAll(raw), b, k);
    PlacedFlipped(raw, b, k, i);
    PlacedFlipped(raw, b, k, j);
    FlippedPlaceDifference(raw[i], raw[j], ps[i], ps[j], b, k);
  }

  lemma FlippedPlaceDifference(r: Point, s: Point, p: Point, q: Point, b: Box, k: real)
    requires p == Place(Flip(r), b, k) && q == Place(Flip(s), b, k)
    ensures p.x - q.x == k * (r.x - s.x)
    ensures p.y - q.y == k * (s.y - r.y)
  {
    PlaceDifference(Flip(r), Flip(s), b, k);
  }

  /** Placing two points scales their difference and nothing else. */
  lemma PlaceDifference(p: Point, q: Point, b: Box, k: real)
    ensures Place(p, b, k).x - Place(q, b, k).x == k * (p.x - q.x)
    ensures Place(p, b, k).y - Place(q, b, k).y == k * (p.y - q.y)
  {
  }

  /** Left-to-right order is kept and top-to-bottom order is reversed. */
  lemma NormaliseKeepsOrder(raw: seq<Point>, l: Layout, i: nat, j: nat)
    requires l.Placed? && l.points == PlaceAll(FlipAll(raw), l.box, l.scale) && l.scale > 0.0
    requires i < |raw| && j < |raw|
    ensures raw[i].x <= raw[j].x <==> l.points[i].x <= l.points[j].x
    ensures raw[i].y <= raw[j].y <==> l.points[i].y >= l.points[j].y
  {
    var p, q := l.points[i], l.points[j];
    assert p == Place(Flip(raw[i]), l.box, l.scale) && q == Place(Flip(raw[j]), l.box, l.scale) by {
      PlacedFlipped(raw, l.box, l.scale, i);
      PlacedFlipped(raw, l.box, l.scale, j);
    }
    FlippedPlaceOrder(raw[i], raw[j], p, q, l.box, l.scale);
  }

  lemma FlippedPlaceOrder(r: Point, s: Point, p: Point, q: Point, b: Box, k: real)
    requires k > 0.0 && p == Place(Flip(r), b, k) && q == Place(Flip(s), b, k)
    ensures r.x <= s.x <==> p.x <= q.x
    ensures r.y <= s.y <==> p.y >= q.y
  {
    PlaceIsMonotone(Flip(r), Flip(s), b, k);
  }

  /** Placing with a positive scale keeps the order of both coordinates. */
  lemma PlaceIsMonotone(p: Point, q: Point, b: Box, k: real)
    requires k > 0.0
    ensures p.x <= q.x <==> Place(p, b, k).x <= Place(q, b, k).x
    ensures p.y <= q.y <==> Place(p, b, k).y <= Place(q, b, k).y
  {
    PlaceDifference(p, q, b, k);
    ScalingKeepsSign(Place(p, b, k).x, Place(q, b, k).x, p.x, q.x, k);
    ScalingKeepsSign(Place(p, b, k).y, Place(q, b, k).y, p.y, q.y, k);
  }

  /** Differences scaled by a positive factor keep their sign. */
  lemma ScalingKeepsSign(a: real, b: real, c: real, d: real, k: real)
    requires k > 0.0 && a - b == k * (c - d)
    ensures c <= d <==> a <= b
  {
    if c > d {
      assert k * (c - d) > 0.0;
    } else {
      assert k * (d - c) >= 0.0;
    }
  }
}
