/**
  Points of a segment's line by their position along it: point_position
  of the difference algorithm and its inverse, and the facts about
  "between" and "on the segment" that follow on one line.
*/
module Lines {
  import opened Kernel

  /**
    point_position: 0 at the source, 1 at the target, measured along x, or
    along y when the segment is vertical. The division needs a segment of
    positive length.
  */
  function PointPosition(seg: Segment, pt: Point2): (r: real)
    requires !seg.IsDegenerate()
    ensures pt == seg.source ==> r == 0.0
    ensures pt == seg.target ==> r == 1.0
  {
    var den := seg.target.x - seg.source.x;
    if den == 0.0 then
      var dy := seg.target.y - seg.source.y;
      assert dy != 0.0 && dy / dy == 1.0;
      (pt.y - seg.source.y) / dy
    else
      assert den / den == 1.0;
      (pt.x - seg.source.x) / den
  }

  /** The point at parameter t on the line of seg: the inverse of PointPosition. */
  function PointAt(seg: Segment, t: real): Point2
  {
    Point2(seg.source.x + t * (seg.target.x - seg.source.x),
           seg.source.y + t * (seg.target.y - seg.source.y))
  }

  /** Measuring the point at parameter t gives t back. */
  lemma PositionOfPointAt(seg: Segment, t: real)
    requires !seg.IsDegenerate()
    ensures PointPosition(seg, PointAt(seg, t)) == t
  {
    var dx := seg.target.x - seg.source.x;
    var dy := seg.target.y - seg.source.y;
    if dx == 0.0 {
      assert dy != 0.0;
      assert PointAt(seg, t).y - seg.source.y == t * dy;
    } else {
      assert PointAt(seg, t).x - seg.source.x == t * dx;
    }
  }

  /** A point on the line of seg sits at its own position. */
  lemma PointAtPosition(seg: Segment, pt: Point2)
    requires !seg.IsDegenerate() && Cross(seg.source, seg.target, pt) == 0.0
    ensures PointAt(seg, PointPosition(seg, pt)) == pt
  {
    var dx := seg.target.x - seg.source.x;
    var dy := seg.target.y - seg.source.y;
    var u := pt.x - seg.source.x;
    var v := pt.y - seg.source.y;
    assert dx * v == dy * u;
    if dx == 0.0 {
      assert u * dy == 0.0;
      assert u == 0.0;
      assert (v / dy) * dy == v;
    } else {
      assert (u / dx) * dx == u;
      assert (u / dx) * dy * dx == dx * v;
      assert (u / dx) * dy == v;
    }
  }

  /** Points on the line of a segment with the same position are the same point. */
  lemma SamePositionSamePoint(seg: Segment, p: Point2, q: Point2)
    requires !seg.IsDegenerate()
    requires Cross(seg.source, seg.target, p) == 0.0 && Cross(seg.source, seg.target, q) == 0.0
    requires PointPosition(seg, p) == PointPosition(seg, q)
    ensures p == q
  {
    PointAtPosition(seg, p);
    PointAtPosition(seg, q);
  }

  /** Scaling by d and shifting by c keeps "between", unless d is 0, which makes it hold. */
  lemma BetweenScaled(c: real, d: real, a: real, b: real, u: real)
    ensures Between(c + a * d, c + b * d, c + u * d) <==> d == 0.0 || Between(a, b, u)
  {
    if d > 0.0 {
      assert (c + u * d) - (c + a * d) == (u - a) * d;
      assert (c + b * d) - (c + u * d) == (b - u) * d;
    } else if d < 0.0 {
      assert (c + u * d) - (c + a * d) == (u - a) * d;
      assert (c + b * d) - (c + u * d) == (b - u) * d;
    }
  }

  lemma ProductsSwap(k: real, m: real, dx: real, dy: real)
    ensures (k * dx) * (m * dy) == (k * dy) * (m * dx)
  {
  }

  /** Three points of the line of s are collinear. */
  lemma LineCollinear(s: Segment, a: real, b: real, u: real)
    ensures Cross(PointAt(s, a), PointAt(s, b), PointAt(s, u)) == 0.0
  {
    var dx := s.target.x - s.source.x;
    var dy := s.target.y - s.source.y;
    var pa, pb, pu := PointAt(s, a), PointAt(s, b), PointAt(s, u);
    assert pb.x - pa.x == (b - a) * dx && pb.y - pa.y == (b - a) * dy;
    assert pu.x - pa.x == (u - a) * dx && pu.y - pa.y == (u - a) * dy;
    ProductsSwap(b - a, u - a, dx, dy);
  }

  /**
    On the line of a segment s, a point lies on the segment joining two other
    points of the line exactly when its position lies between theirs.
  */
  lemma OnLine(s: Segment, a: real, b: real, u: real)
    requires !s.IsDegenerate()
    ensures HasOn(Segment(PointAt(s, a), PointAt(s, b)), PointAt(s, u)) <==> Between(a, b, u)
  {
    LineCollinear(s, a, b, u);
    BetweenAlong(s, a, b, u);
  }

  /** Each coordinate of a point of the line lies between two others' exactly when its position does, unless the line is flat in it. */
  lemma BetweenAlong(s: Segment, a: real, b: real, u: real)
    ensures Between(PointAt(s, a).x, PointAt(s, b).x, PointAt(s, u).x) <==> s.target.x == s.source.x || Between(a, b, u)
    ensures Between(PointAt(s, a).y, PointAt(s, b).y, PointAt(s, u).y) <==> s.target.y == s.source.y || Between(a, b, u)
  {
    BetweenScaled(s.source.x, s.target.x - s.source.x, a, b, u);
    BetweenScaled(s.source.y, s.target.y - s.source.y, a, b, u);
  }

  /** The ends of s sit at positions 0 and 1 of its line. */
  lemma EndsOnLine(s: Segment)
    ensures PointAt(s, 0.0) == s.source && PointAt(s, 1.0) == s.target
  {
  }
}
