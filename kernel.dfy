/**
  The exact 2D kernel the set algebra is built on: points, segments,
  polygons with holes, their exact predicates (orientation, point on
  segment, segment intersection, bounded side of a ring) and axis-aligned
  boxes. Coordinates are exact rationals (`real`), so every comparison is exact.
*/
module Kernel {
  import opened Options

  datatype Point2 = Point2(x: real, y: real)

  /** Lexicographic order on points, x first then y: the key order of a point set. */
  predicate PointLess(p: Point2, q: Point2) {
    p.x < q.x || (p.x == q.x && p.y < q.y)
  }

  datatype Segment = Segment(source: Point2, target: Point2) {
    /** The same segment walked the other way. */
    function Opposite(): Segment {
      Segment(target, source)
    }

    predicate IsDegenerate() {
      source == target
    }
  }

  /** Key order of a segment set: by source, then by target. */
  predicate SegmentLess(s: Segment, t: Segment) {
    if s.source == t.source then PointLess(s.target, t.target) else PointLess(s.source, t.source)
  }

  lemma PointLessIsStrictTotal(p: Point2, q: Point2, r: Point2)
    ensures !PointLess(p, p)
    ensures PointLess(p, q) && PointLess(q, r) ==> PointLess(p, r)
    ensures p != q ==> PointLess(p, q) || PointLess(q, p)
    ensures PointLess(p, q) ==> !PointLess(q, p)
  {
  }

  lemma SegmentLessIsStrictTotal(s: Segment, t: Segment, u: Segment)
    ensures !SegmentLess(s, s)
    ensures SegmentLess(s, t) && SegmentLess(t, u) ==> SegmentLess(s, u)
    ensures s != t ==> SegmentLess(s, t) || SegmentLess(t, s)
    ensures SegmentLess(s, t) ==> !SegmentLess(t, s)
  {
    PointLessIsStrictTotal(s.source, t.source, u.source);
    PointLessIsStrictTotal(s.target, t.target, u.target);
  }

  /** Twice the signed area of the triangle (p, q, r). */
  function Cross(p: Point2, q: Point2, r: Point2): real {
    (q.x - p.x) * (r.y - p.y) - (q.y - p.y) * (r.x - p.x)
  }

  lemma CrossAntisymmetric(p: Point2, q: Point2, r: Point2)
    ensures Cross(q, p, r) == -Cross(p, q, r)
    ensures Cross(p, r, q) == -Cross(p, q, r)
  {
  }

  datatype Orientation = Clockwise | Collinear | CounterClockwise

  function OrientationOf(p: Point2, q: Point2, r: Point2): Orientation {
    var c := Cross(p, q, r);
    if c < 0.0 then Clockwise else if c == 0.0 then Collinear else CounterClockwise
  }

  /** v lies between a and b (either way round). */
  predicate Between(a: real, b: real, v: real) {
    (a <= v <= b) || (b <= v <= a)
  }

  /** Exact point-on-segment test (Segment_2::has_on). */
  predicate HasOn(s: Segment, p: Point2) {
    && Cross(s.source, s.target, p) == 0.0
    && Between(s.source.x, s.target.x, p.x)
    && Between(s.source.y, s.target.y, p.y)
  }

  predicate StrictlyOpposite(o1: Orientation, o2: Orientation) {
    (o1 == Clockwise && o2 == CounterClockwise) || (o1 == CounterClockwise && o2 == Clockwise)
  }

  /**
    Exact segment/segment intersection test (do_intersect): the segments
    cross properly, or an endpoint of one lies on the other.
  */
  predicate DoIntersect(s: Segment, t: Segment) {
    || (&& StrictlyOpposite(OrientationOf(s.source, s.target, t.source), OrientationOf(s.source, s.target, t.target))
        && StrictlyOpposite(OrientationOf(t.source, t.target, s.source), OrientationOf(t.source, t.target, s.target)))
    || HasOn(s, t.source) || HasOn(s, t.target) || HasOn(t, s.source) || HasOn(t, s.target)
  }

  lemma HasOnOpposite(s: Segment, p: Point2)
    ensures HasOn(s.Opposite(), p) == HasOn(s, p)
  {
    CrossAntisymmetric(s.source, s.target, p);
  }

  /** The intersection test does not depend on the direction of either segment. */
  lemma DoIntersectOpposite(s: Segment, t: Segment)
    ensures DoIntersect(s.Opposite(), t) == DoIntersect(s, t)
    ensures DoIntersect(s, t.Opposite()) == DoIntersect(s, t)
    ensures DoIntersect(t, s) == DoIntersect(s, t)
  {
    CrossAntisymmetric(s.source, s.target, t.source);
    CrossAntisymmetric(s.source, s.target, t.target);
    CrossAntisymmetric(t.source, t.target, s.source);
    CrossAntisymmetric(t.source, t.target, s.target);
    HasOnOpposite(s, t.source);
    HasOnOpposite(s, t.target);
    HasOnOpposite(t, s.source);
    HasOnOpposite(t, s.target);
  }

  /**
    A polygon with holes (Polygon_with_holes_2): an outer ring and hole rings,
    each a vertex sequence whose closing edge is implicit.
  */
  datatype Polygon = Polygon(outer: seq<Point2>, holes: seq<seq<Point2>>)

  /** Edge i of a ring joins vertex i to vertex i+1, the last one back to the first. */
  function Edges(ring: seq<Point2>): (r: seq<Segment>)
    ensures |r| == |ring|
    ensures forall i :: 0 <= i < |ring| ==> r[i] == Segment(ring[i], ring[(i + 1) % |ring|])
  {
    seq(|ring|, i requires 0 <= i < |ring| => Segment(ring[i], ring[(i + 1) % |ring|]))
  }

  /** All edges of a list of rings, ring after ring. */
  function RingsEdges(rings: seq<seq<Point2>>): seq<Segment> {
    if rings == [] then [] else Edges(rings[0]) + RingsEdges(rings[1..])
  }

  datatype BoundedSide = OnBoundedSide | OnBoundary | OnUnboundedSide

  predicate OnSomeEdge(edges: seq<Segment>, p: Point2) {
    exists i :: 0 <= i < |edges| && HasOn(edges[i], p)
  }

  /** The horizontal ray from p towards +x crosses edge e (half-open in y). */
  predicate RayCrosses(e: Segment, p: Point2) {
    && (e.source.y > p.y) != (e.target.y > p.y)
    && p.x < e.source.x + (p.y - e.source.y) * (e.target.x - e.source.x) / (e.target.y - e.source.y)
  }

  function Crossings(edges: seq<Segment>, p: Point2): nat {
    if edges == [] then 0
    else (if RayCrosses(edges[0], p) then 1 else 0) + Crossings(edges[1..], p)
  }

  /** Side of a ring a point lies on (Polygon_2::bounded_side), by exact crossing parity. */
  function BoundedSideOf(ring: seq<Point2>, p: Point2): BoundedSide {
    if OnSomeEdge(Edges(ring), p) then OnBoundary
    else if Crossings(Edges(ring), p) % 2 == 1 then OnBoundedSide
    else OnUnboundedSide
  }

  /** Closed axis-aligned box. */
  datatype Box = Box(xmin: real, xmax: real, ymin: real, ymax: real)

  function Min(a: real, b: real): real { if a <= b then a else b }
  function Max(a: real, b: real): real { if a <= b then b else a }

  function PointBox(p: Point2): Box {
    Box(p.x, p.x, p.y, p.y)
  }

  function Join(a: Box, b: Box): Box {
    Box(Min(a.xmin, b.xmin), Max(a.xmax, b.xmax), Min(a.ymin, b.ymin), Max(a.ymax, b.ymax))
  }

  function SegmentBox(s: Segment): Box {
    Join(PointBox(s.source), PointBox(s.target))
  }

  /** Bounding box of the vertices of a ring; none for an empty ring. */
  function RingBox(ring: seq<Point2>): (r: Option<Box>)
    ensures r.Some? <==> |ring| > 0
  {
    if ring == [] then None
    else
      var rest := RingBox(ring[1..]);
      Some(if rest.None? then PointBox(ring[0]) else Join(PointBox(ring[0]), rest.value))
  }

  /** Closed overlap test of two boxes (do_overlap); an absent box overlaps nothing. */
  predicate Overlap(a: Option<Box>, b: Option<Box>) {
    && a.Some? && b.Some?
    && a.value.xmin <= b.value.xmax && b.value.xmin <= a.value.xmax
    && a.value.ymin <= b.value.ymax && b.value.ymin <= a.value.ymax
  }

  /** `outer` contains `inner` (closed containment of envelopes). */
  predicate Contains(outer: Option<Box>, inner: Option<Box>) {
    && outer.Some? && inner.Some?
    && outer.value.xmin <= inner.value.xmin && inner.value.xmax <= outer.value.xmax
    && outer.value.ymin <= inner.value.ymin && inner.value.ymax <= outer.value.ymax
  }
}
