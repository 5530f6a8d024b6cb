/**
  The box stage of the set-level predicates loses no hit: whenever two
  primitives intersect, their bounding boxes overlap. The set-level
  intersects, which only tests pairs whose boxes overlap, is therefore the
  plain pairwise predicate, for polygons whose holes lie within the
  envelope of their outer ring.
*/
module BoxFilter {
  import opened Options
  import opened Kernel
  import opened Primitives
  import opened GeometrySets
  import opened IntersectsAlgorithm
  import opened Dimensions

  /** p lies in the closed box b (an absent box holds nothing). */
  predicate InBox(b: Option<Box>, p: Point2) {
    && b.Some?
    && b.value.xmin <= p.x <= b.value.xmax
    && b.value.ymin <= p.y <= b.value.ymax
  }

  /** Every vertex of every hole lies in the envelope of the outer ring (true of a valid polygon). */
  predicate BoxedHoles(poly: Polygon) {
    forall h, i :: 0 <= h < |poly.holes| && 0 <= i < |poly.holes[h]| ==> InBox(RingBox(poly.outer), poly.holes[h][i])
  }

  /** A surface primitive satisfies BoxedHoles; other kinds need nothing. */
  predicate BoxedIfSurface(p: Primitive) {
    p.shape.SurfaceShape? ==> BoxedHoles(p.shape.polygon)
  }

  // ---------------------------------------------------------------------
  // Boxes
  // ---------------------------------------------------------------------

  /** Two boxes sharing a point overlap. */
  lemma CommonPointOverlap(b1: Option<Box>, b2: Option<Box>, p: Point2)
    requires InBox(b1, p) && InBox(b2, p)
    ensures Overlap(b1, b2)
  {
  }

  /** A point on a segment lies in the segment's box. */
  lemma HasOnInBox(s: Segment, p: Point2)
    requires HasOn(s, p)
    ensures InBox(Some(SegmentBox(s)), p)
  {
  }

  /** A box holding both ends of a segment holds the segment's box. */
  lemma SegmentBoxInside(b: Option<Box>, s: Segment)
    requires InBox(b, s.source) && InBox(b, s.target)
    ensures Contains(b, Some(SegmentBox(s)))
  {
  }

  /** A box overlapping an inner box overlaps the outer one as well. */
  lemma OverlapGrows(outer: Option<Box>, inner: Option<Box>, other: Option<Box>)
    requires Contains(outer, inner) && Overlap(inner, other)
    ensures Overlap(outer, other)
  {
  }

  /** Every vertex of a ring lies in the ring's envelope. */
  lemma {:induction false} VertexInRingBox(ring: seq<Point2>, i: int)
    requires 0 <= i < |ring|
    ensures InBox(RingBox(ring), ring[i])
  {
    if i > 0 {
      VertexInRingBox(ring[1..], i - 1);
    }
  }

  /** Both ends of every edge of a ring lie in the ring's envelope. */
  lemma EdgeEndsInRingBox(ring: seq<Point2>, k: int)
    requires 0 <= k < |ring|
    ensures InBox(RingBox(ring), Edges(ring)[k].source) && InBox(RingBox(ring), Edges(ring)[k].target)
  {
    VertexInRingBox(ring, k);
    VertexInRingBox(ring, (k + 1) % |ring|);
  }

  // ---------------------------------------------------------------------
  // Segment against segment
  // ---------------------------------------------------------------------

  lemma ScaleMonotone(k: real, x: real, y: real)
    requires k > 0.0 && x <= y
    ensures k * x <= k * y
  {
    assert k * y - k * x == k * (y - x);
  }

  lemma CancelPositive(w: real, m: real, u: real)
    requires w > 0.0
    ensures m * w >= u * w ==> m >= u
    ensures m * w <= u * w ==> m <= u
  {
    if m < u {
      ScaleMonotone(w, m, u);
      assert w * m != w * u;
    }
    if m > u {
      ScaleMonotone(w, u, m);
      assert w * m != w * u;
    }
  }

  /** A weighted mean with positive weights lies between the two values. */
  lemma PositiveWeightedBetween(al: real, be: real, u: real, v: real)
    requires al > 0.0 && be > 0.0
    ensures Between(u, v, (al * u + be * v) / (al + be))
  {
    var w := al + be;
    var m := (al * u + be * v) / w;
    assert m * w == al * u + be * v;
    var lo, hi := Min(u, v), Max(u, v);
    ScaleMonotone(al, lo, u);
    ScaleMonotone(be, lo, v);
    ScaleMonotone(al, u, hi);
    ScaleMonotone(be, v, hi);
    assert lo * w == al * lo + be * lo && hi * w == al * hi + be * hi;
    CancelPositive(w, m, lo);
    CancelPositive(w, m, hi);
  }

  /** A weighted mean with weights of one strict sign lies between the two values. */
  lemma WeightedBetween(al: real, be: real, u: real, v: real)
    requires (al > 0.0 && be > 0.0) || (al < 0.0 && be < 0.0)
    ensures Between(u, v, (al * u + be * v) / (al + be))
  {
    if al > 0.0 {
      PositiveWeightedBetween(al, be, u, v);
    } else {
      PositiveWeightedBetween(-al, -be, u, v);
      assert (-al * u + -be * v) / (-al + -be) == (al * u + be * v) / (al + be);
    }
  }

  /**
    The point where line (c, d) cuts segment (a, b), written with the
    orientations of a and b against (c, d), is the point where line (a, b)
    cuts segment (c, d), written with the orientations of c and d.
  */
  lemma CrossingIdentity(a: Point2, b: Point2, c: Point2, d: Point2)
    ensures Cross(c, d, b) - Cross(c, d, a) == Cross(a, b, c) - Cross(a, b, d)
    ensures Cross(c, d, b) * a.x - Cross(c, d, a) * b.x == Cross(a, b, c) * d.x - Cross(a, b, d) * c.x
    ensures Cross(c, d, b) * a.y - Cross(c, d, a) * b.y == Cross(a, b, c) * d.y - Cross(a, b, d) * c.y
  {
  }

  /** Signs of two orientations strictly opposite as cross products. */
  lemma OppositeSigns(p: Point2, q: Point2, r1: Point2, r2: Point2)
    requires StrictlyOpposite(OrientationOf(p, q, r1), OrientationOf(p, q, r2))
    ensures (Cross(p, q, r1) > 0.0 && Cross(p, q, r2) < 0.0) || (Cross(p, q, r1) < 0.0 && Cross(p, q, r2) > 0.0)
  {
  }

  /**
    One coordinate of a common point: the same weighted mean of a and b,
    and of c and d, makes the two ranges meet.
  */
  lemma CommonCoordinate(al: real, be: real, ga: real, de: real, a: real, b: real, c: real, d: real)
    requires (al > 0.0 && be > 0.0) || (al < 0.0 && be < 0.0)
    requires (ga > 0.0 && de > 0.0) || (ga < 0.0 && de < 0.0)
    requires al + be == ga + de && al * a + be * b == ga * c + de * d
    ensures Min(a, b) <= Max(c, d) && Min(c, d) <= Max(a, b)
  {
    WeightedBetween(al, be, a, b);
    WeightedBetween(ga, de, c, d);
  }

  /** Segments crossing properly share a point, which lies in both boxes. */
  lemma ProperCrossingOverlap(s: Segment, t: Segment)
    requires StrictlyOpposite(OrientationOf(s.source, s.target, t.source), OrientationOf(s.source, s.target, t.target))
    requires StrictlyOpposite(OrientationOf(t.source, t.target, s.source), OrientationOf(t.source, t.target, s.target))
    ensures Overlap(Some(SegmentBox(s)), Some(SegmentBox(t)))
  {
    var a, b, c, d := s.source, s.target, t.source, t.target;
    OppositeSigns(a, b, c, d);
    OppositeSigns(c, d, a, b);
    CrossingIdentity(a, b, c, d);
    var cdb, cda, abc, abd := Cross(c, d, b), Cross(c, d, a), Cross(a, b, c), Cross(a, b, d);
    CommonCoordinate(cdb, -cda, -abd, abc, a.x, b.x, c.x, d.x);
    CommonCoordinate(cdb, -cda, -abd, abc, a.y, b.y, c.y, d.y);
  }

  /** Intersecting segments have overlapping boxes. */
  lemma DoIntersectOverlap(s: Segment, t: Segment)
    requires DoIntersect(s, t)
    ensures Overlap(Some(SegmentBox(s)), Some(SegmentBox(t)))
  {
    var bs, bt := Some(SegmentBox(s)), Some(SegmentBox(t));
    if HasOn(s, t.source) {
      HasOnInBox(s, t.source);
      CommonPointOverlap(bs, bt, t.source);
    } else if HasOn(s, t.target) {
      HasOnInBox(s, t.target);
      CommonPointOverlap(bs, bt, t.target);
    } else if HasOn(t, s.source) {
      HasOnInBox(t, s.source);
      CommonPointOverlap(bs, bt, s.source);
    } else if HasOn(t, s.target) {
      HasOnInBox(t, s.target);
      CommonPointOverlap(bs, bt, s.target);
    } else {
      ProperCrossingOverlap(s, t);
    }
  }
  // ---------------------------------------------------------------------
  // Polygon against point
  // ---------------------------------------------------------------------

  /** The number of edges whose ends lie on different sides of the horizontal line through p. */
  function SignChanges(edges: seq<Segment>, p: Point2): nat {
    if edges == [] then 0
    else (if (edges[0].source.y > p.y) != (edges[0].target.y > p.y) then 1 else 0) + SignChanges(edges[1..], p)
  }

  /** Each edge starts where the previous one ends. */
  predicate Chain(edges: seq<Segment>) {
    forall k :: 0 <= k < |edges| - 1 ==> edges[k].target == edges[k + 1].source
  }

  /** A quotient of a numerator within a denominator of the same sign lies in [0, 1]. */
  lemma FractionInUnit(n: real, d: real)
    requires (d > 0.0 && 0.0 <= n <= d) || (d < 0.0 && d <= n <= 0.0)
    ensures 0.0 <= n / d <= 1.0
  {
    var t := n / d;
    assert t * d == n;
    if d > 0.0 {
      if t < 0.0 { ScaleMonotone(d, t, 0.0); }
      if t > 1.0 { ScaleMonotone(d, 1.0, t); }
    } else {
      if t < 0.0 { ScaleMonotone(-d, t, 0.0); }
      if t > 1.0 { ScaleMonotone(-d, 1.0, t); }
    }
  }

  /** A point of the segment from u to v by a parameter in [0, 1] lies between them. */
  lemma LerpBetween(u: real, v: real, t: real)
    requires 0.0 <= t <= 1.0
    ensures Between(u, v, u + t * (v - u))
  {
    ScaleWithin(t, v - u);
    ShiftBetween(u, v - u, t * (v - u));
  }

  /** Scaling by a parameter in [0, 1] keeps a value between 0 and itself. */
  lemma ScaleWithin(t: real, d: real)
    requires 0.0 <= t <= 1.0
    ensures Between(0.0, d, t * d)
  {
    if d >= 0.0 {
      if t > 0.0 { ScaleMonotone(t, 0.0, d); }
      if d > 0.0 { ScaleMonotone(d, t, 1.0); }
    } else {
      if t > 0.0 { ScaleMonotone(t, d, 0.0); }
      ScaleMonotone(-d, t, 1.0);
      assert -d * t == -(t * d);
    }
  }

  /** Shifting by u moves a value between 0 and d to one between u and u + d. */
  lemma ShiftBetween(u: real, d: real, w: real)
    requires Between(0.0, d, w)
    ensures Between(u, u + d, u + w)
  {
  }

  /** Where the line y = p.y cuts the line through e. */
  function CutX(e: Segment, p: Point2): real
    requires e.target.y != e.source.y
  {
    e.source.x + (p.y - e.source.y) * (e.target.x - e.source.x) / (e.target.y - e.source.y)
  }

  /** The ray test is the side change followed by the comparison with the cut. */
  lemma RayCrossesAtCut(e: Segment, p: Point2)
    ensures RayCrosses(e, p) <==> (e.source.y > p.y) != (e.target.y > p.y) && p.x < CutX(e, p)
  {
  }

  /** Where an edge whose ends straddle the line y = p.y cuts it, x lies between the ends' x. */
  lemma CutBetween(e: Segment, p: Point2)
    requires (e.source.y > p.y) != (e.target.y > p.y)
    ensures Between(e.source.x, e.target.x, CutX(e, p))
  {
    var n, d := p.y - e.source.y, e.target.y - e.source.y;
    FractionInUnit(n, d);
    var t := n / d;
    assert n * (e.target.x - e.source.x) / d == t * (e.target.x - e.source.x);
    LerpBetween(e.source.x, e.target.x, t);
  }

  /** An edge within a box does not cross the ray from a point above, below or right of the box. */
  lemma EdgeMissesRay(e: Segment, p: Point2, b: Option<Box>)
    requires InBox(b, e.source) && InBox(b, e.target)
    requires p.y > b.value.ymax || p.y < b.value.ymin || p.x > b.value.xmax
    ensures !RayCrosses(e, p)
  {
    RayCrossesAtCut(e, p);
    if (e.source.y > p.y) != (e.target.y > p.y) {
      CutBetween(e, p);
      assert Between(e.source.x, e.target.x, CutX(e, p));
    }
  }

  /** An edge right of p whose ends straddle the line crosses the ray from p. */
  lemma EdgeMeetsRay(e: Segment, p: Point2)
    requires e.source.x > p.x && e.target.x > p.x
    ensures RayCrosses(e, p) == ((e.source.y > p.y) != (e.target.y > p.y))
  {
    RayCrossesAtCut(e, p);
    if (e.source.y > p.y) != (e.target.y > p.y) {
      CutBetween(e, p);
      assert Between(e.source.x, e.target.x, CutX(e, p));
    }
  }

  lemma {:induction false} NoCrossings(edges: seq<Segment>, p: Point2)
    requires forall k :: 0 <= k < |edges| ==> !RayCrosses(edges[k], p)
    ensures Crossings(edges, p) == 0
  {
    if edges != [] {
      NoCrossings(edges[1..], p);
    }
  }

  lemma {:induction false} CrossingsAreSignChanges(edges: seq<Segment>, p: Point2)
    requires forall k :: 0 <= k < |edges| ==> edges[k].source.x > p.x && edges[k].target.x > p.x
    ensures Crossings(edges, p) == SignChanges(edges, p)
  {
    if edges != [] {
      EdgeMeetsRay(edges[0], p);
      CrossingsAreSignChanges(edges[1..], p);
    }
  }

  /** Along a chain, the sign changes are odd exactly when the ends lie on different sides. */
  lemma {:induction false} ChainParity(edges: seq<Segment>, p: Point2)
    requires |edges| > 0 && Chain(edges)
    ensures SignChanges(edges, p) % 2 ==
      if (edges[0].source.y > p.y) != (edges[|edges| - 1].target.y > p.y) then 1 else 0
  {
    if |edges| > 1 {
      var rest := edges[1..];
      assert Chain(rest) by {
        forall k | 0 <= k < |rest| - 1 ensures rest[k].target == rest[k + 1].source {
          assert rest[k] == edges[k + 1] && rest[k + 1] == edges[k + 2];
        }
      }
      ChainParity(rest, p);
      assert rest[0].source == edges[0].target;
      assert rest[|rest| - 1] == edges[|edges| - 1];
    }
  }

  /** A closed ring changes side an even number of times. */
  lemma RingSignChangesEven(ring: seq<Point2>, p: Point2)
    requires |ring| > 0
    ensures SignChanges(Edges(ring), p) % 2 == 0
  {
    var edges := Edges(ring);
    assert Chain(edges) by {
      forall k | 0 <= k < |edges| - 1 ensures edges[k].target == edges[k + 1].source {
        assert (k + 1) % |ring| == k + 1;
      }
    }
    ChainParity(edges, p);
    assert (|ring| - 1 + 1) % |ring| == 0;
  }

  /** A point the polygon holds lies in the envelope of its outer ring. */
  lemma PolygonHasPointInBox(poly: Polygon, p: Point2)
    requires PolygonHasPoint(poly, p)
    ensures InBox(RingBox(poly.outer), p)
  {
    var ring := poly.outer;
    var edges := Edges(ring);
    var b := RingBox(ring);
    if OnSomeEdge(edges, p) {
      var k :| 0 <= k < |edges| && HasOn(edges[k], p);
      EdgeEndsInRingBox(ring, k);
      HasOnInBox(edges[k], p);
    } else if !InBox(b, p) {
      assert Crossings(edges, p) % 2 == 1;
      assert |ring| > 0;
      forall k | 0 <= k < |edges|
        ensures InBox(b, edges[k].source) && InBox(b, edges[k].target)
      {
        EdgeEndsInRingBox(ring, k);
      }
      if p.y > b.value.ymax || p.y < b.value.ymin || p.x > b.value.xmax {
        forall k | 0 <= k < |edges| ensures !RayCrosses(edges[k], p) {
          EdgeMissesRay(edges[k], p, b);
        }
        NoCrossings(edges, p);
      } else {
        CrossingsAreSignChanges(edges, p);
        RingSignChangesEven(ring, p);
      }
    }
  }
  // ---------------------------------------------------------------------
  // Polygon against segment and against polygon
  // ---------------------------------------------------------------------

  /** Every vertex of every ring of the polygon lies in the envelope of its outer ring. */
  lemma RingVerticesInBox(poly: Polygon, r: int, i: int)
    requires BoxedHoles(poly)
    requires 0 <= r < |AllRings(poly)| && 0 <= i < |AllRings(poly)[r]|
    ensures InBox(RingBox(poly.outer), AllRings(poly)[r][i])
  {
    if r == 0 {
      VertexInRingBox(poly.outer, i);
    } else {
      assert AllRings(poly)[r] == poly.holes[r - 1];
    }
  }

  /** Both ends of every edge of a ring lie in a box holding all its vertices. */
  lemma RingEdgeInBox(ring: seq<Point2>, b: Option<Box>, k: int)
    requires forall i :: 0 <= i < |ring| ==> InBox(b, ring[i])
    requires 0 <= k < |ring|
    ensures InBox(b, Edges(ring)[k].source) && InBox(b, Edges(ring)[k].target)
  {
    assert Edges(ring)[k].target == ring[(k + 1) % |ring|];
  }

  /** Both ends of every edge of a list of rings lie in a box holding all their vertices. */
  lemma {:induction false} RingsEdgesInBox(rings: seq<seq<Point2>>, b: Option<Box>, k: int)
    requires forall r, i :: 0 <= r < |rings| && 0 <= i < |rings[r]| ==> InBox(b, rings[r][i])
    requires 0 <= k < |RingsEdges(rings)|
    ensures InBox(b, RingsEdges(rings)[k].source) && InBox(b, RingsEdges(rings)[k].target)
  {
    var first := Edges(rings[0]);
    if k < |first| {
      RingEdgeInBox(rings[0], b, k);
    } else {
      RingsEdgesInBox(rings[1..], b, k - |first|);
    }
  }

  /** Every edge of a polygon with boxed holes has its box in the envelope of the outer ring. */
  lemma PolygonEdgeInBox(poly: Polygon, k: int)
    requires BoxedHoles(poly)
    requires 0 <= k < |RingsEdges(AllRings(poly))|
    ensures Contains(RingBox(poly.outer), Some(SegmentBox(RingsEdges(AllRings(poly))[k])))
  {
    var rings := AllRings(poly);
    forall r, i | 0 <= r < |rings| && 0 <= i < |rings[r]| ensures InBox(RingBox(poly.outer), rings[r][i]) {
      RingVerticesInBox(poly, r, i);
    }
    RingsEdgesInBox(rings, RingBox(poly.outer), k);
    SegmentBoxInside(RingBox(poly.outer), RingsEdges(rings)[k]);
  }

  /** An edge of one ring of a polygon with boxed holes has its box in the envelope of the outer ring. */
  lemma RingEdgeInOuterBox(poly: Polygon, r: int, k: int)
    requires BoxedHoles(poly)
    requires 0 <= r < |AllRings(poly)| && 0 <= k < |AllRings(poly)[r]|
    ensures Contains(RingBox(poly.outer), Some(SegmentBox(Edges(AllRings(poly)[r])[k])))
  {
    var ring := AllRings(poly)[r];
    forall i | 0 <= i < |ring| ensures InBox(RingBox(poly.outer), ring[i]) {
      RingVerticesInBox(poly, r, i);
    }
    RingEdgeInBox(ring, RingBox(poly.outer), k);
    SegmentBoxInside(RingBox(poly.outer), Edges(ring)[k]);
  }

  /** A polygon with boxed holes that meets a segment has an envelope overlapping the segment's box. */
  lemma PolygonSegmentOverlap(poly: Polygon, s: Segment)
    requires BoxedHoles(poly) && PolygonMeetsSegment(poly, s)
    ensures Overlap(RingBox(poly.outer), Some(SegmentBox(s)))
  {
    PolygonSegmentByEdges(poly, s);
    var rings := AllRings(poly);
    if exists r :: 0 <= r < |rings| && EdgesMeet(Edges(rings[r]), [s]) {
      var r :| 0 <= r < |rings| && EdgesMeet(Edges(rings[r]), [s]);
      var xs := Edges(rings[r]);
      var i, j :| 0 <= i < |xs| && 0 <= j < 1
        && Overlap(Some(SegmentBox(xs[i])), Some(SegmentBox([s][j])))
        && DoIntersect(xs[i], [s][j]);
      RingEdgeInOuterBox(poly, r, i);
      OverlapGrows(RingBox(poly.outer), Some(SegmentBox(xs[i])), Some(SegmentBox(s)));
    } else {
      PolygonHasPointInBox(poly, s.source);
      CommonPointOverlap(RingBox(poly.outer), Some(SegmentBox(s)), s.source);
    }
  }

  /** Two polygons with boxed holes that meet have overlapping envelopes. */
  lemma PolygonsOverlap(poly1: Polygon, poly2: Polygon)
    requires BoxedHoles(poly1) && BoxedHoles(poly2) && PolygonsMeet(poly1, poly2)
    ensures Overlap(RingBox(poly1.outer), RingBox(poly2.outer))
  {
    var xs, ys := RingsEdges(AllRings(poly1)), RingsEdges(AllRings(poly2));
    var e1, e2 := RingBox(poly1.outer), RingBox(poly2.outer);
    if SegmentSetsMeet(EdgeSet(xs), EdgeSet(ys)) {
      SegmentSetsMeetEdges(xs, ys);
      var i, j :| 0 <= i < |xs| && 0 <= j < |ys|
        && Overlap(Some(SegmentBox(xs[i])), Some(SegmentBox(ys[j])))
        && DoIntersect(xs[i], ys[j]);
      PolygonEdgeInBox(poly1, i);
      PolygonEdgeInBox(poly2, j);
      OverlapGrows(e1, Some(SegmentBox(xs[i])), Some(SegmentBox(ys[j])));
      OverlapGrows(e2, Some(SegmentBox(ys[j])), e1);
    } else if Contains(e2, e1) {
      VertexInRingBox(poly1.outer, 0);
    } else {
      VertexInRingBox(poly2.outer, 0);
    }
  }

  // ---------------------------------------------------------------------
  // Primitives and sets
  // ---------------------------------------------------------------------

  lemma OrderedOverlap(pa: Primitive, pb: Primitive)
    requires BoxedIfSurface(pa) && BoxedIfSurface(pb) && IntersectsOrdered(pa, pb)
    ensures Overlap(BoxOf(pa), BoxOf(pb))
  {
    match (pa.shape, pb.shape)
    case (PointShape(p), PointShape(q)) =>
      BoxesOverlapOnPointHits(Segment(p, p), p, q);
    case (SegmentShape(s), PointShape(q)) =>
      BoxesOverlapOnPointHits(s, q, q);
    case (SegmentShape(s), SegmentShape(t)) =>
      DoIntersectOverlap(s, t);
    case (SurfaceShape(poly), PointShape(q)) =>
      PolygonHasPointInBox(poly, q);
      CommonPointOverlap(RingBox(poly.outer), Some(PointBox(q)), q);
    case (SurfaceShape(poly), SegmentShape(s)) =>
      PolygonSegmentOverlap(poly, s);
    case (SurfaceShape(poly1), SurfaceShape(poly2)) =>
      PolygonsOverlap(poly1, poly2);
  }

  /**
    The box stage loses no hit: two primitives that intersect have
    overlapping boxes, polygons' holes lying within their outer envelopes.
  */
  lemma IntersectsOverlap(pa: Primitive, pb: Primitive)
    requires BoxedIfSurface(pa) && BoxedIfSurface(pb)
    ensures Intersects(pa, pb) ==> Overlap(BoxOf(pa), BoxOf(pb))
  {
    if Intersects(pa, pb) {
      if pa.GetType().Tag() >= pb.GetType().Tag() {
        OrderedOverlap(pa, pb);
      } else {
        OrderedOverlap(pb, pa);
      }
    }
  }

  /** Every surface in the list has boxed holes. */
  predicate AllBoxed(ps: seq<Primitive>) {
    forall k :: 0 <= k < |ps| ==> BoxedIfSurface(ps[k])
  }

  /** Some pair, one from each list, intersects, whatever their boxes. */
  predicate SomePairIntersects(A: seq<Primitive>, B: seq<Primitive>) {
    exists i, j :: 0 <= i < |A| && 0 <= j < |B| && Intersects(A[i], B[j])
  }

  /**
    intersects(GeometrySet, GeometrySet), which only tests pairs whose
    boxes overlap, holds exactly when some pair of primitives intersects.
  */
  lemma AnyPairIsPairwise(a: GSet, b: GSet)
    requires AllBoxed(a.Primitives()) && AllBoxed(b.Primitives())
    ensures AnyPairIntersects(a, b) <==> SomePairIntersects(a.Primitives(), b.Primitives())
  {
    var A, B := a.Primitives(), b.Primitives();
    if SomePairIntersects(A, B) {
      var i, j :| 0 <= i < |A| && 0 <= j < |B| && Intersects(A[i], B[j]);
      IntersectsOverlap(A[i], B[j]);
      assert PairHits(A, B, i, j);
    }
  }

  /** With boxed holes, what the sweep reports for a pair is the pair's dimension. */
  lemma ReportedIsDimension(inter: Intersection, A: seq<Primitive>, B: seq<Primitive>, i: int, j: int)
    requires 0 <= i < |A| && 0 <= j < |B| && BoxedIfSurface(A[i]) && BoxedIfSurface(B[j])
    ensures Reported(DimensionsFor(inter), A, B, i, j) == IntersectionDimension(inter, A[i], B[j])
  {
    IntersectsOverlap(A[i], B[j]);
  }

  /** d bounds the dimension of every pair, and is -1 or the dimension of one of them. */
  predicate LargestPairDimension(inter: Intersection, A: seq<Primitive>, B: seq<Primitive>, d: int) {
    && (forall i, j :: 0 <= i < |A| && 0 <= j < |B| ==> IntersectionDimension(inter, A[i], B[j]) <= d)
    && (d == -1 || exists i, j :: 0 <= i < |A| && 0 <= j < |B| && IntersectionDimension(inter, A[i], B[j]) == d)
  }

  /**
    intersectionDimension(GeometrySet, GeometrySet) on two sets that are
    not complete: the largest dimension over all pairs, boxes or not, and
    -1 when no pair meets.
  */
  lemma SetDimensionIsPairwise(inter: Intersection, a: GSet, b: GSet)
    requires !a.complete && !b.complete
    requires AllBoxed(a.Primitives()) && AllBoxed(b.Primitives())
    ensures LargestPairDimension(inter, a.Primitives(), b.Primitives(), SetDimension(inter, a, b))
  {
    var A, B := a.Primitives(), b.Primitives();
    var dim := DimensionsFor(inter);
    var d := PairsMax(dim, A, |A|, B);
    assert SetDimension(inter, a, b) == d;
    PairsMaxIsMaximum(dim, A, |A|, B);
    forall i, j | 0 <= i < |A| && 0 <= j < |B|
      ensures IntersectionDimension(inter, A[i], B[j]) <= d
    {
      ReportedIsDimension(inter, A, B, i, j);
    }
    if d != -1 {
      var i, j :| 0 <= i < |A| && 0 <= j < |B| && Reported(dim, A, B, i, j) == d;
      ReportedIsDimension(inter, A, B, i, j);
    }
  }
}
