/** Axis-aligned boxes and their intersection over union. */
module Boxes {
  import opened Counting

  datatype Box = Box(xMin: real, yMin: real, xMax: real, yMax: real)

  function Max(a: real, b: real): real {
    if a < b then b else a
  }

  function Min(a: real, b: real): real {
    if b < a then b else a
  }

  /** `max(0.0, high - low)` */
  function Length(low: real, high: real): (r: real)
    ensures r >= 0.0
  {
    Max(0.0, high - low)
  }

  function Area(b: Box): real {
    Length(b.xMin, b.xMax) * Length(b.yMin, b.yMax)
  }

  function OverlapWidth(a: Box, b: Box): real {
    Length(Max(a.xMin, b.xMin), Min(a.xMax, b.xMax))
  }

  function OverlapHeight(a: Box, b: Box): real {
    Length(Max(a.yMin, b.yMin), Min(a.yMax, b.yMax))
  }

  function Intersection(a: Box, b: Box): real {
    OverlapWidth(a, b) * OverlapHeight(a, b)
  }

  function Union(a: Box, b: Box): real {
    Area(a) + Area(b) - Intersection(a, b)
  }

  /** `_box_iou` */
  function Iou(a: Box, b: Box): real {
    var union := Union(a, b);
    if union > 0.0 then Intersection(a, b) / union else 0.0
  }

  lemma ProductMonotone(w: real, h: real, w': real, h': real)
    requires 0.0 <= w <= w' && 0.0 <= h <= h'
    ensures 0.0 <= w * h <= w' * h'
    ensures w * h == w' * h' && w' * h' > 0.0 ==> w == w' && h == h'
  {
    assert w' * h' - w * h == (w' - w) * h' + w * (h' - h);
    assert (w' - w) * h' >= 0.0 && w * (h' - h) >= 0.0;
    if w * h == w' * h' && w' * h' > 0.0 {
      assert w' > 0.0 && h' > 0.0;
      assert w < w' ==> (w' - w) * h' > 0.0;
      assert w == w' && h < h' ==> w * (h' - h) > 0.0;
    }
  }

  lemma IntersectionWithin(a: Box, b: Box)
    ensures 0.0 <= Intersection(a, b) <= Area(a)
    ensures Intersection(a, b) == Area(a) && Area(a) > 0.0 ==>
      b.xMin <= a.xMin && a.xMax <= b.xMax && b.yMin <= a.yMin && a.yMax <= b.yMax
  {
    ProductMonotone(OverlapWidth(a, b), OverlapHeight(a, b), Length(a.xMin, a.xMax), Length(a.yMin, a.yMax));
  }

  lemma Symmetric(a: Box, b: Box)
    ensures Intersection(a, b) == Intersection(b, a) && Union(a, b) == Union(b, a) && Iou(a, b) == Iou(b, a)
  {
  }

  lemma Ratio(part: real, whole: real)
    requires 0.0 <= part <= whole && whole > 0.0
    ensures 0.0 <= part / whole <= 1.0
    ensures part / whole == 1.0 <==> part == whole
    ensures part / whole > 0.0 <==> part > 0.0
  {
    var q := part / whole;
    assert q * whole == part;
    assert q > 1.0 ==> (q - 1.0) * whole > 0.0;
    assert q < 0.0 ==> -q * whole > 0.0;
    assert q > 0.0 ==> q * whole > 0.0;
  }

  /** The score is a fraction; it is positive exactly for overlapping boxes and one exactly
      for identical boxes with an area. */
  lemma IouRange(a: Box, b: Box)
    ensures 0.0 <= Iou(a, b) <= 1.0
    ensures Iou(a, b) > 0.0 <==> Intersection(a, b) > 0.0
    ensures Iou(a, b) == 1.0 <==> a == b && Area(a) > 0.0
  {
    IntersectionWithin(a, b);
    IntersectionWithin(b, a);
    Symmetric(a, b);
    hide Area, Intersection;
    if Union(a, b) > 0.0 {
      Ratio(Intersection(a, b), Union(a, b));
      if a == b { SelfIntersection(a); }
    } else if a == b {
      SelfIntersection(a);
    }
  }

  lemma SelfIntersection(a: Box)
    ensures Intersection(a, a) == Area(a)
  {
  }

  ghost predicate Inside(b: Box, x: real, y: real) {
    b.xMin <= x <= b.xMax && b.yMin <= y <= b.yMax
  }

  /** `c` consists of the points the two boxes share, of which there is one at least. */
  ghost predicate Shared(a: Box, b: Box, c: Box) {
    && c.xMin <= c.xMax && c.yMin <= c.yMax
    && forall x, y :: Inside(c, x, y) <==> Inside(a, x, y) && Inside(b, x, y)
  }

  ghost function WidthTimesHeight(b: Box): real {
    (b.xMax - b.xMin) * (b.yMax - b.yMin)
  }

  lemma SharedCorners(a: Box, b: Box, c: Box)
    requires Shared(a, b, c)
    ensures c == Box(Max(a.xMin, b.xMin), Max(a.yMin, b.yMin), Min(a.xMax, b.xMax), Min(a.yMax, b.yMax))
    ensures a.xMin <= a.xMax && a.yMin <= a.yMax && b.xMin <= b.xMax && b.yMin <= b.yMax
  {
    var left, bottom, right, top :=
      Max(a.xMin, b.xMin), Max(a.yMin, b.yMin), Min(a.xMax, b.xMax), Min(a.yMax, b.yMax);
    assert Inside(c, c.xMin, c.yMin) && Inside(c, c.xMax, c.yMax);
    assert Inside(c, left, c.yMin) && Inside(c, right, c.yMin);
    assert Inside(c, c.xMin, bottom) && Inside(c, c.xMin, top);
  }

  /** For boxes that meet, the score times the area the two cover is the area they share. */
  lemma IouIsSharedPart(a: Box, b: Box, c: Box)
    requires Shared(a, b, c)
    ensures Iou(a, b) * (WidthTimesHeight(a) + WidthTimesHeight(b) - WidthTimesHeight(c)) == WidthTimesHeight(c)
    ensures WidthTimesHeight(a) > 0.0 ==>
      WidthTimesHeight(a) + WidthTimesHeight(b) - WidthTimesHeight(c) > 0.0
  {
    hide Area, Intersection, WidthTimesHeight, Shared;
    SharedCorners(a, b, c);
    IntersectionWithin(a, b);
    IntersectionWithin(b, a);
    Symmetric(a, b);
    AreaOfSides(a);
    AreaOfSides(b);
    AreaShared(a, b, c);
    if Union(a, b) > 0.0 { QuotientBack(Intersection(a, b), Union(a, b)); }
  }

  lemma AreaOfSides(b: Box)
    requires b.xMin <= b.xMax && b.yMin <= b.yMax
    ensures WidthTimesHeight(b) == Area(b)
  {
    assert Length(b.xMin, b.xMax) == b.xMax - b.xMin && Length(b.yMin, b.yMax) == b.yMax - b.yMin;
  }

  lemma AreaShared(a: Box, b: Box, c: Box)
    requires Shared(a, b, c)
    ensures WidthTimesHeight(c) == Intersection(a, b)
  {
    SharedCorners(a, b, c);
    assert OverlapWidth(a, b) == c.xMax - c.xMin && OverlapHeight(a, b) == c.yMax - c.yMin;
  }
}
