/**
  The dimension of the intersection of two primitives and of two geometry
  sets (algorithm::intersectionDimension): -1 for none, 0 for a point, 1
  for a segment, 2 for a surface.
*/
module Dimensions {
  import opened Options
  import opened Kernel
  import opened Lines
  import opened Primitives
  import opened Geometries
  import opened GeometrySets
  import opened IntersectsAlgorithm

  /**
    algorithm::intersection, which is not part of this model: the
    primitives it adds to the output set for a pair.
  */
  type Intersection = (Primitive, Primitive) -> seq<Primitive>

  /** The end points of the two segments. */
  function Endpoints(s: Segment, t: Segment): seq<Point2>
  {
    [s.source, s.target, t.source, t.target]
  }

  /** p lies on both segments. */
  predicate OnBoth(s: Segment, t: Segment, p: Point2)
  {
    HasOn(s, p) && HasOn(t, p)
  }

  /**
    The segment/segment rule as written: 1 when an end point of either
    segment lies on the other, 0 otherwise.
  */
  function SegmentPairDimensionAsWritten(s: Segment, t: Segment): (d: int)
    ensures d == 0 || d == 1
    ensures d == 1 ==> DoIntersect(s, t)
  {
    if HasOn(s, t.source) || HasOn(s, t.target) || HasOn(t, s.source) || HasOn(t, s.target) then 1 else 0
  }

  /** Two different end points lie on both segments. */
  predicate TwoCommonEndpoints(s: Segment, t: Segment)
  {
    exists p, q :: p in Endpoints(s, t) && q in Endpoints(s, t) && p != q && OnBoth(s, t, p) && OnBoth(s, t, q)
  }

  /**
    The segment/segment rule corrected: 1 exactly when two different end
    points lie on both segments, that is when the two segments overlap
    along a piece of positive length (the ends of such an overlap are end
    points of the segments).
  */
  function SegmentPairDimension(s: Segment, t: Segment): (d: int)
    ensures d == 0 || d == 1
    ensures d == 1 <==> exists p, q :: p != q && OnBoth(s, t, p) && OnBoth(s, t, q)
  {
    if TwoCommonEndpoints(s, t) then 1
    else
      OverlapReachesEndpoints(s, t);
      0
  }

  /** A segment holding a point p has p as both its ends when it is degenerate. */
  lemma DegenerateHoldsOnePoint(s: Segment, p: Point2)
    requires s.IsDegenerate() && HasOn(s, p)
    ensures p == s.source
  {
  }

  /** A segment holding two different points p and q lies on their line. */
  lemma EndsOnLineThrough(s: Segment, p: Point2, q: Point2)
    requires p != q && HasOn(s, p) && HasOn(s, q)
    ensures Cross(p, q, s.source) == 0.0 && Cross(p, q, s.target) == 0.0
  {
    if s.IsDegenerate() {
      DegenerateHoldsOnePoint(s, p);
      DegenerateHoldsOnePoint(s, q);
    }
    PointAtPosition(s, p);
    PointAtPosition(s, q);
    EndsOnLine(s);
    LineCollinear(s, PointPosition(s, p), PointPosition(s, q), 0.0);
    LineCollinear(s, PointPosition(s, p), PointPosition(s, q), 1.0);
  }

  /** The segment joining the points at positions a and b of m's line holds the point at u exactly when u lies between a and b. */
  lemma OnLineAt(m: Segment, s: Segment, a: real, b: real, u: real)
    requires !m.IsDegenerate() && s == Segment(PointAt(m, a), PointAt(m, b))
    ensures HasOn(s, PointAt(m, u)) <==> Between(a, b, u)
  {
    OnLine(m, a, b, u);
  }

  /**
    Two segments sharing two different points p and q share two different
    end points: the ends of the common piece. On the line through p and q,
    the common piece runs from the larger of the two lower ends to the
    smaller of the two upper ends, and it holds p and q.
  */
  lemma OverlapHasCommonEnds(s: Segment, t: Segment, p: Point2, q: Point2)
    requires p != q && OnBoth(s, t, p) && OnBoth(s, t, q)
    ensures TwoCommonEndpoints(s, t)
  {
    var m := Segment(p, q);
    EndsOnLineThrough(s, p, q);
    EndsOnLineThrough(t, p, q);
    var a0, a1 := PointPosition(m, s.source), PointPosition(m, s.target);
    var b0, b1 := PointPosition(m, t.source), PointPosition(m, t.target);
    PointAtPosition(m, s.source);
    PointAtPosition(m, s.target);
    PointAtPosition(m, t.source);
    PointAtPosition(m, t.target);
    EndsOnLine(m);
    OnLineAt(m, s, a0, a1, 0.0);
    OnLineAt(m, s, a0, a1, 1.0);
    OnLineAt(m, t, b0, b1, 0.0);
    OnLineAt(m, t, b0, b1, 1.0);
    var sLo, sHi := if a0 <= a1 then a0 else a1, if a0 <= a1 then a1 else a0;
    var tLo, tHi := if b0 <= b1 then b0 else b1, if b0 <= b1 then b1 else b0;
    var lo := if sLo >= tLo then sLo else tLo;
    var hi := if sHi <= tHi then sHi else tHi;
    assert lo <= 0.0 && 1.0 <= hi;
    OnLineAt(m, s, a0, a1, lo);
    OnLineAt(m, t, b0, b1, lo);
    OnLineAt(m, s, a0, a1, hi);
    OnLineAt(m, t, b0, b1, hi);
    var e, f := PointAt(m, lo), PointAt(m, hi);
    PositionOfPointAt(m, lo);
    PositionOfPointAt(m, hi);
    assert e in Endpoints(s, t) && f in Endpoints(s, t);
    assert e != f && OnBoth(s, t, e) && OnBoth(s, t, f);
  }

  lemma OverlapReachesEndpoints(s: Segment, t: Segment)
    ensures (exists p, q :: p != q && OnBoth(s, t, p) && OnBoth(s, t, q)) ==> TwoCommonEndpoints(s, t)
  {
    if exists p, q :: p != q && OnBoth(s, t, p) && OnBoth(s, t, q) {
      var p, q :| p != q && OnBoth(s, t, p) && OnBoth(s, t, q);
      OverlapHasCommonEnds(s, t, p, q);
    }
  }

  /** The corrected rule only ever lowers the answer of the rule as written. */
  lemma CorrectedNeverRaises(s: Segment, t: Segment)
    ensures SegmentPairDimension(s, t) <= SegmentPairDimensionAsWritten(s, t)
  {
    if TwoCommonEndpoints(s, t) {
      var p, q :| p in Endpoints(s, t) && q in Endpoints(s, t) && p != q && OnBoth(s, t, p) && OnBoth(s, t, q);
      assert p == s.source || p == s.target || p == t.source || p == t.target;
    }
  }

  /**
    Two segments that overlap along a piece, given by the two different end
    points of one lying on the other, have a one-dimensional intersection
    under both rules.
  */
  lemma OverlapIsOneDimensional(s: Segment, t: Segment)
    requires t.source != t.target && HasOn(s, t.source) && HasOn(s, t.target)
    ensures SegmentPairDimension(s, t) == 1 && SegmentPairDimensionAsWritten(s, t) == 1
  {
    assert HasOn(t, t.source) && HasOn(t, t.target);
    assert t.source in Endpoints(s, t) && t.target in Endpoints(s, t);
  }

  /** A horizontal segment, and a vertical one that starts on its middle. */
  const Along: Segment := Segment(Point2(0.0, 0.0), Point2(2.0, 0.0))
  const Across: Segment := Segment(Point2(1.0, 0.0), Point2(1.0, 1.0))

  lemma OnAlong(p: Point2)
    ensures HasOn(Along, p) ==> p.y == 0.0
  {
    assert Cross(Along.source, Along.target, p) == 2.0 * p.y;
  }

  lemma OnAcross(p: Point2)
    ensures HasOn(Across, p) ==> p.x == 1.0
  {
    assert Cross(Across.source, Across.target, p) == 1.0 - p.x;
  }

  /** The horizontal and the vertical segment meet only in (1, 0). */
  lemma TouchingSegmentsMeetOnce(p: Point2)
    requires OnBoth(Along, Across, p)
    ensures p == Point2(1.0, 0.0)
  {
    OnAlong(p);
    OnAcross(p);
  }

  /**
    A segment ending on the middle of another: the rule as written answers
    1, yet the two meet in a single point (TouchingSegmentsMeetOnce).
  */
  lemma TouchingSegmentsCountAsOverlap()
    ensures DoIntersect(Along, Across)
    ensures SegmentPairDimensionAsWritten(Along, Across) == 1
  {
    assert HasOn(Along, Across.source);
  }

  /** On the same pair the corrected rule answers 0. */
  lemma TouchingSegmentsCorrected()
    ensures SegmentPairDimension(Along, Across) == 0
  {
    forall p | p in Endpoints(Along, Across) && OnBoth(Along, Across, p)
      ensures p == Point2(1.0, 0.0)
    {
      TouchingSegmentsMeetOnce(p);
    }
  }

  /**
    intersectionDimension for a pair whose first kind is not below the
    second: -1 when they do not meet, 0 when the second is a point, the
    segment rule for two segments, otherwise the largest dimension in what
    the intersection routine returns.
  */
  function DimensionOrdered(inter: Intersection, pa: Primitive, pb: Primitive): int
  {
    if !Intersects(pa, pb) then -1
    else if pb.GetType() == PrimitivePoint then 0
    else if pa.GetType() == PrimitiveSegment && pb.GetType() == PrimitiveSegment then
      SegmentPairDimension(pa.shape.segment, pb.shape.segment)
    else AddAll(Empty, inter(pa, pb)).MaximumDimension()
  }

  /** intersectionDimension(pa, pb): the arguments are swapped so that the larger kind comes first. */
  function IntersectionDimension(inter: Intersection, pa: Primitive, pb: Primitive): (d: int)
    ensures -1 <= d <= 3
    ensures !Intersects(pa, pb) ==> d == -1
    ensures Intersects(pa, pb) && (pa.GetType() == PrimitivePoint || pb.GetType() == PrimitivePoint) ==> d == 0
    ensures pa.shape.SegmentShape? && pb.shape.SegmentShape? ==>
      d == (if DoIntersect(pa.shape.segment, pb.shape.segment) then SegmentPairDimension(pa.shape.segment, pb.shape.segment) else -1)
  {
    if pa.GetType().Tag() < pb.GetType().Tag() then DimensionOrdered(inter, pb, pa)
    else DimensionOrdered(inter, pa, pb)
  }

  /**
    The result is symmetric for every pair except two surfaces, whose
    answer comes from the intersection routine in the given order.
  */
  lemma IntersectionDimensionSymmetric(inter: Intersection, pa: Primitive, pb: Primitive)
    requires !(pa.shape.SurfaceShape? && pb.shape.SurfaceShape?)
    ensures IntersectionDimension(inter, pa, pb) == IntersectionDimension(inter, pb, pa)
  {
    IntersectsSymmetric(pa, pb);
    if pa.shape.SegmentShape? && pb.shape.SegmentShape? {
      var s, t := pa.shape.segment, pb.shape.segment;
      DoIntersectOpposite(s, t);
      SegmentPairDimensionSymmetric(s, t);
    }
  }

  lemma SegmentPairDimensionSymmetric(s: Segment, t: Segment)
    ensures SegmentPairDimension(s, t) == SegmentPairDimension(t, s)
  {
    assert forall p :: p in Endpoints(s, t) <==> p in Endpoints(t, s);
    assert forall p :: OnBoth(s, t, p) <==> OnBoth(t, s, p);
  }

  /**
    When the intersection routine returns something for every meeting pair,
    the result is -1 exactly when the primitives do not meet.
  */
  lemma MinusOneIffDisjoint(inter: Intersection, pa: Primitive, pb: Primitive)
    requires forall x, y :: Intersects(x, y) ==> inter(x, y) != []
    ensures IntersectionDimension(inter, pa, pb) == -1 <==> !Intersects(pa, pb)
  {
    if Intersects(pa, pb) && !(pa.GetType() == PrimitivePoint || pb.GetType() == PrimitivePoint)
      && !(pa.shape.SegmentShape? && pb.shape.SegmentShape?) {
      if pa.GetType().Tag() < pb.GetType().Tag() {
        IntersectsSymmetricAcrossKinds(pa, pb);
        AddAllNonEmpty(inter(pb, pa));
      } else {
        AddAllNonEmpty(inter(pa, pb));
      }
    }
  }

  /** Pairs of different kinds are dispatched the same way in either order. */
  lemma IntersectsSymmetricAcrossKinds(pa: Primitive, pb: Primitive)
    requires pa.GetType() != pb.GetType()
    ensures Intersects(pa, pb) == Intersects(pb, pa)
  {
    TagsOrdered();
  }

  /** Adding at least one primitive to an empty set leaves it non-empty. */
  lemma AddAllNonEmpty(xs: seq<Primitive>)
    requires xs != []
    ensures AddAll(Empty, xs).MaximumDimension() >= 0
  {
    var x := xs[|xs| - 1];
    var g := AddAll(Empty, xs[..|xs| - 1]);
    assert AddAll(Empty, xs) == Add(g, x);
    var r := Add(g, x);
    match x.GetType()
    case PrimitivePoint => assert x.shape in Shapes(r.points);
    case PrimitiveSegment => assert x.shape in Shapes(r.segments);
    case PrimitiveSurface => assert r.surfaces != [];
    case PrimitiveVolume => assert r.volumes != [];
  }

  // ---------------------------------------------------------------------
  // Set level
  // ---------------------------------------------------------------------

  /** A dimension for each pair, as the callback computes it. */
  type DimensionOf = (Primitive, Primitive) -> int

  /** The callback's maximum over pa against B[..n], for the pairs whose boxes overlap, from m. */
  function RowMax(dim: DimensionOf, pa: Primitive, B: seq<Primitive>, n: nat, m: int): (r: int)
    requires n <= |B|
    ensures r >= m
    decreases n
  {
    if n == 0 then m
    else
      var r0 := RowMax(dim, pa, B, n - 1, m);
      if Overlap(BoxOf(pa), BoxOf(B[n - 1])) && dim(pa, B[n - 1]) > r0 then dim(pa, B[n - 1]) else r0
  }

  /** The callback's maximum over A[..n] against all of B, from -1. */
  function PairsMax(dim: DimensionOf, A: seq<Primitive>, n: nat, B: seq<Primitive>): (r: int)
    requires n <= |A|
    ensures r >= -1
    decreases n
  {
    if n == 0 then -1 else RowMax(dim, A[n - 1], B, |B|, PairsMax(dim, A, n - 1, B))
  }

  /** The dimension of a pair whose boxes overlap, or -1 for one the sweep never reports. */
  function Reported(dim: DimensionOf, A: seq<Primitive>, B: seq<Primitive>, i: int, j: int): int
    requires 0 <= i < |A| && 0 <= j < |B|
  {
    if Overlap(BoxOf(A[i]), BoxOf(B[j])) then dim(A[i], B[j]) else -1
  }

  lemma {:induction false} RowMaxBounds(dim: DimensionOf, pa: Primitive, B: seq<Primitive>, n: nat, m: int)
    requires n <= |B|
    ensures forall j :: 0 <= j < n && Overlap(BoxOf(pa), BoxOf(B[j])) ==> dim(pa, B[j]) <= RowMax(dim, pa, B, n, m)
    ensures RowMax(dim, pa, B, n, m) == m
      || exists j :: 0 <= j < n && Overlap(BoxOf(pa), BoxOf(B[j])) && dim(pa, B[j]) == RowMax(dim, pa, B, n, m)
    decreases n
  {
    if n > 0 {
      RowMaxBounds(dim, pa, B, n - 1, m);
    }
  }

  /**
    The set-level maximum is an upper bound on the dimension of every
    reported pair, and either -1 or attained by one of them.
  */
  lemma {:induction false} PairsMaxIsMaximum(dim: DimensionOf, A: seq<Primitive>, n: nat, B: seq<Primitive>)
    requires n <= |A|
    ensures forall i, j :: 0 <= i < n && 0 <= j < |B| ==> Reported(dim, A, B, i, j) <= PairsMax(dim, A, n, B)
    ensures PairsMax(dim, A, n, B) == -1
      || exists i, j :: 0 <= i < n && 0 <= j < |B| && Reported(dim, A, B, i, j) == PairsMax(dim, A, n, B)
    decreases n
  {
    if n > 0 {
      var prev := PairsMax(dim, A, n - 1, B);
      PairsMaxIsMaximum(dim, A, n - 1, B);
      RowMaxBounds(dim, A[n - 1], B, |B|, prev);
      var r := PairsMax(dim, A, n, B);
      forall i, j | 0 <= i < n && 0 <= j < |B| ensures Reported(dim, A, B, i, j) <= r {
        if i < n - 1 {
          assert Reported(dim, A, B, i, j) <= prev;
        }
      }
      if r != prev {
        var j :| 0 <= j < |B| && Overlap(BoxOf(A[n - 1]), BoxOf(B[j])) && dim(A[n - 1], B[j]) == r;
        assert Reported(dim, A, B, n - 1, j) == r;
      } else if r != -1 {
        var i, j :| 0 <= i < n - 1 && 0 <= j < |B| && Reported(dim, A, B, i, j) == prev;
      }
    }
  }

  /** The primitive-level dimension, for a given intersection routine. */
  function DimensionsFor(inter: Intersection): (dim: DimensionOf)
    ensures forall pa, pb :: dim(pa, pb) == IntersectionDimension(inter, pa, pb)
  {
    (pa, pb) => IntersectionDimension(inter, pa, pb)
  }

  /**
    intersectionDimension(GeometrySet, GeometrySet): a complete side makes
    the result the other side's largest dimension; otherwise the maximum
    over the pairs whose boxes overlap.
  */
  function SetDimension(inter: Intersection, a: GSet, b: GSet): (d: int)
    ensures a.complete ==> d == b.MaximumDimension()
    ensures !a.complete && b.complete ==> d == a.MaximumDimension()
  {
    if a.complete then b.MaximumDimension()
    else if b.complete then a.MaximumDimension()
    else PairsMax(DimensionsFor(inter), a.Primitives(), |a.Primitives()|, b.Primitives())
  }

  /** Two sets that are not complete and have no pair of overlapping boxes give -1. */
  lemma NoOverlapGivesMinusOne(inter: Intersection, a: GSet, b: GSet)
    requires !a.complete && !b.complete
    requires forall i, j :: 0 <= i < |a.Primitives()| && 0 <= j < |b.Primitives()| ==>
      !Overlap(BoxOf(a.Primitives()[i]), BoxOf(b.Primitives()[j]))
    ensures SetDimension(inter, a, b) == -1
  {
    var A, B := a.Primitives(), b.Primitives();
    PairsMaxIsMaximum(DimensionsFor(inter), A, |A|, B);
  }

  /** One call of the callback, on the pair (ah[i], bh[j]). */
  lemma RowMaxStep(dim: DimensionOf, ah: seq<Primitive>, aboxes: seq<HandleBox>, bh: seq<Primitive>, bboxes: seq<HandleBox>,
                   i: nat, j: nat, start: int, maxdim: int)
    requires BoxesOf(ah, aboxes) && BoxesOf(bh, bboxes) && i < |ah| && j < |bh|
    requires maxdim == RowMax(dim, ah[i], bh, j, start)
    ensures RowMax(dim, ah[i], bh, j + 1, start) ==
      if Overlap(aboxes[i].box, bboxes[j].box) && dim(ah[aboxes[i].handle], bh[bboxes[j].handle]) > maxdim
      then dim(ah[aboxes[i].handle], bh[bboxes[j].handle])
      else maxdim
  {
  }

  /** The callback, run over every pair of boxes: it keeps the largest dimension seen. */
  method MaxOverPairs(f: DimensionOf, ah: seq<Primitive>, aboxes: seq<HandleBox>, bh: seq<Primitive>, bboxes: seq<HandleBox>)
    returns (maxdim: int)
    requires BoxesOf(ah, aboxes) && BoxesOf(bh, bboxes)
    ensures maxdim == PairsMax(f, ah, |ah|, bh)
  {
    maxdim := -1;
    var i := 0;
    while i < |aboxes|
      invariant 0 <= i <= |aboxes|
      invariant maxdim == PairsMax(f, ah, i, bh)
    {
      var j := 0;
      ghost var start := maxdim;
      while j < |bboxes|
        invariant 0 <= j <= |bboxes|
        invariant maxdim == RowMax(f, ah[i], bh, j, start)
      {
        RowMaxStep(f, ah, aboxes, bh, bboxes, i, j, start, maxdim);
        if Overlap(aboxes[i].box, bboxes[j].box) {
          var dim := f(ah[aboxes[i].handle], bh[bboxes[j].handle]);
          if dim > maxdim {
            maxdim := dim;
          }
        }
        j := j + 1;
      }
      i := i + 1;
    }
  }

  method IntersectionDimensionOfSets(inter: Intersection, a: GeometrySet, b: GeometrySet) returns (d: int)
    requires a.Valid() && b.Valid()
    ensures d == SetDimension(inter, a.Value(), b.Value())
  {
    if a.complete {
      return b.Value().MaximumDimension();
    }
    if b.complete {
      return a.Value().MaximumDimension();
    }
    var ahandles, aboxes := a.ComputeBoundingBoxes([]);
    var bhandles, bboxes := b.ComputeBoundingBoxes([]);
    assert ahandles == a.Value().Primitives() by { assert [] + a.Value().Primitives() == a.Value().Primitives(); }
    assert bhandles == b.Value().Primitives() by { assert [] + b.Value().Primitives() == b.Value().Primitives(); }
    d := MaxOverPairs(DimensionsFor(inter), ahandles, aboxes, bhandles, bboxes);
  }

  /** intersectionDimension(Geometry, Geometry): both geometries are decomposed into fresh sets first. */
  method IntersectionDimensionOfGeometries(inter: Intersection, ga: Geometry, gb: Geometry) returns (d: int)
    ensures d == SetDimension(inter, Decomposition(Empty, ga), Decomposition(Empty, gb))
  {
    var gsa := new GeometrySet.FromGeometry(ga);
    var gsb := new GeometrySet.FromGeometry(gb);
    d := IntersectionDimensionOfSets(inter, gsa, gsb);
  }
}
