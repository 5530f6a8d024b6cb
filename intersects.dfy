/**
  The 2D intersection predicate on primitives and on geometry sets
  (algorithm::intersects). Pairs are evaluated with the argument of larger
  kind first; the polygon cases fill temporary sets with ring edges and ask
  the set-level predicate whether any edge meets.
*/
module IntersectsAlgorithm {
  import opened Options
  import opened Kernel
  import opened Primitives
  import opened Geometries
  import opened GeometrySets

  // ---------------------------------------------------------------------
  // Temporary sets of ring edges
  // ---------------------------------------------------------------------

  /** Segments as addSegments inserts them: each wrapped with flags 0. */
  function EdgePrimitives(edges: seq<Segment>): (r: seq<Primitive>)
    ensures |r| == |edges| && AllOfType(r, PrimitiveSegment)
    ensures forall i :: 0 <= i < |edges| ==> r[i] == Make(SegmentShape(edges[i]))
  {
    seq(|edges|, i requires 0 <= i < |edges| => Make(SegmentShape(edges[i])))
  }

  /** A fresh set filled with these segments. */
  function EdgeSet(edges: seq<Segment>): (g: GSet)
    ensures g.Valid()
  {
    AddAll(Empty, EdgePrimitives(edges))
  }

  /** The rings of a polygon: the outer boundary, then each hole. */
  function AllRings(poly: Polygon): (r: seq<seq<Point2>>)
    ensures |r| == |poly.holes| + 1 && r[0] == poly.outer
    ensures forall h :: 0 <= h < |poly.holes| ==> r[h + 1] == poly.holes[h]
  {
    [poly.outer] + poly.holes
  }

  /**
    The set-level test on two sets holding only segments: some pair with
    overlapping boxes whose segments intersect.
  */
  predicate SegmentSetsMeet(a: GSet, b: GSet)
  {
    exists i, j :: 0 <= i < |a.segments| && 0 <= j < |b.segments|
      && a.segments[i].shape.SegmentShape? && b.segments[j].shape.SegmentShape?
      && Overlap(BoxOf(a.segments[i]), BoxOf(b.segments[j]))
      && DoIntersect(a.segments[i].shape.segment, b.segments[j].shape.segment)
  }

  /** Some edge of xs and some edge of ys have overlapping boxes and intersect. */
  predicate EdgesMeet(xs: seq<Segment>, ys: seq<Segment>)
  {
    exists i, j :: 0 <= i < |xs| && 0 <= j < |ys|
      && Overlap(Some(SegmentBox(xs[i])), Some(SegmentBox(ys[j])))
      && DoIntersect(xs[i], ys[j])
  }

  // ---------------------------------------------------------------------
  // The pairwise predicate
  // ---------------------------------------------------------------------

  /** p is strictly inside some hole of poly. */
  predicate InSomeHole(poly: Polygon, p: Point2)
  {
    exists h :: 0 <= h < |poly.holes| && BoundedSideOf(poly.holes[h], p) == OnBoundedSide
  }

  /** Polygon against point: on the outer boundary, or inside it and in no hole. */
  predicate PolygonHasPoint(poly: Polygon, p: Point2)
  {
    var b1 := BoundedSideOf(poly.outer, p);
    if b1 == OnBoundary then true
    else if b1 == OnBoundedSide then !InSomeHole(poly, p)
    else false
  }

  /**
    Polygon against segment: the outer ring's edges, then each hole's
    edges, are tested against the segment; failing that, the segment's
    source is tested against the polygon.
  */
  predicate PolygonMeetsSegment(poly: Polygon, s: Segment)
  {
    || SegmentSetsMeet(EdgeSet(Edges(poly.outer)), EdgeSet([s]))
    || (exists h :: 0 <= h < |poly.holes| && SegmentSetsMeet(EdgeSet(Edges(poly.holes[h])), EdgeSet([s])))
    || PolygonHasPoint(poly, s.source)
  }

  /**
    Polygon against polygon: the rings meet; or the envelope of one
    contains the other's and the inner polygon's first vertex is not
    strictly inside a hole of the outer one (poly1 inside poly2 is tried
    first).
  */
  predicate PolygonsMeet(poly1: Polygon, poly2: Polygon)
  {
    var e1 := RingBox(poly1.outer);
    var e2 := RingBox(poly2.outer);
    if SegmentSetsMeet(EdgeSet(RingsEdges(AllRings(poly1))), EdgeSet(RingsEdges(AllRings(poly2)))) then true
    else if Contains(e2, e1) then !InSomeHole(poly2, poly1.outer[0])
    else if Contains(e1, e2) then !InSomeHole(poly1, poly2.outer[0])
    else false
  }

  /** _intersects in 2D, for a pair whose first kind is not below the second. */
  predicate IntersectsOrdered(pa: Primitive, pb: Primitive)
  {
    match (pa.shape, pb.shape)
    case (PointShape(p), PointShape(q)) => p == q
    case (SegmentShape(s), PointShape(q)) => HasOn(s, q)
    case (SegmentShape(s), SegmentShape(t)) => DoIntersect(s, t)
    case (SurfaceShape(poly), PointShape(q)) => PolygonHasPoint(poly, q)
    case (SurfaceShape(poly), SegmentShape(s)) => PolygonMeetsSegment(poly, s)
    case (SurfaceShape(poly1), SurfaceShape(poly2)) => PolygonsMeet(poly1, poly2)
    case _ => false
  }

  /** intersects(pa, pb): the argument of larger kind goes first. */
  function Intersects(pa: Primitive, pb: Primitive): (r: bool)
    ensures r ==> pa.GetType() != PrimitiveVolume && pb.GetType() != PrimitiveVolume
  {
    if pa.GetType().Tag() >= pb.GetType().Tag() then IntersectsOrdered(pa, pb)
    else IntersectsOrdered(pb, pa)
  }

  /** intersects(GeometrySet, GeometrySet): some pair with overlapping boxes intersects. */
  predicate AnyPairIntersects(a: GSet, b: GSet)
  {
    PairsHit(a.Primitives(), b.Primitives())
  }

  /** A[i] and B[j] have overlapping boxes and intersect. */
  predicate PairHits(A: seq<Primitive>, B: seq<Primitive>, i: int, j: int)
    requires 0 <= i < |A| && 0 <= j < |B|
  {
    Overlap(BoxOf(A[i]), BoxOf(B[j])) && Intersects(A[i], B[j])
  }

  lemma HitIsPairHit(A: seq<Primitive>, B: seq<Primitive>, i: int, j: int, hit: bool)
    requires 0 <= i < |A| && 0 <= j < |B|
    requires hit == (Overlap(BoxOf(A[i]), BoxOf(B[j])) && Intersects(A[i], B[j]))
    ensures hit == PairHits(A, B, i, j)
    ensures hit ==> PairsHit(A, B)
  {
  }

  predicate PairsHit(A: seq<Primitive>, B: seq<Primitive>)
  {
    exists i, j :: 0 <= i < |A| && 0 <= j < |B| && PairHits(A, B, i, j)
  }

  // ---------------------------------------------------------------------
  // Properties
  // ---------------------------------------------------------------------

  /** Points meet when equal; a segment and a point when the point is on it, in either order. */
  lemma PointAndSegmentCases(p: Point2, q: Point2, s: Segment, f: int, g: int)
    ensures Intersects(Primitive(PointShape(p), f), Primitive(PointShape(q), g)) <==> p == q
    ensures Intersects(Primitive(PointShape(q), f), Primitive(SegmentShape(s), g)) <==> HasOn(s, q)
    ensures Intersects(Primitive(SegmentShape(s), f), Primitive(PointShape(q), g)) <==> HasOn(s, q)
  {
  }

  /** Polygon against point, in either argument order, follows the side tests. */
  lemma PolygonPointCases(poly: Polygon, p: Point2, f: int, g: int)
    ensures var r := Intersects(Primitive(PointShape(p), f), Primitive(SurfaceShape(poly), g));
      && r == Intersects(Primitive(SurfaceShape(poly), g), Primitive(PointShape(p), f))
      && (BoundedSideOf(poly.outer, p) == OnBoundary ==> r)
      && (BoundedSideOf(poly.outer, p) == OnUnboundedSide ==> !r)
      && (BoundedSideOf(poly.outer, p) == OnBoundedSide ==> (r <==> !InSomeHole(poly, p)))
  {
  }

  /** A volume meets nothing in 2D. */
  lemma VolumeMeetsNothing(v: Primitive, p: Primitive)
    requires v.GetType() == PrimitiveVolume
    ensures !Intersects(v, p) && !Intersects(p, v)
  {
  }

  /** A fresh edge set holds segments only, and its keys are exactly the given segments. */
  lemma EdgeSetKeys(xs: seq<Segment>)
    ensures var g := EdgeSet(xs);
      && g.points == [] && g.surfaces == [] && g.volumes == []
      && Shapes(g.segments) == Shapes(EdgePrimitives(xs))
  {
    AddAllOfOneKind(Empty, EdgePrimitives(xs), PrimitiveSegment);
  }

  lemma EdgeKey(xs: seq<Segment>, i: int)
    requires 0 <= i < |xs|
    ensures SegmentShape(xs[i]) in Shapes(EdgePrimitives(xs))
  {
    assert EdgePrimitives(xs)[i].shape == SegmentShape(xs[i]);
  }

  lemma KeyEdge(xs: seq<Segment>, k: Shape) returns (i: int)
    requires k in Shapes(EdgePrimitives(xs))
    ensures 0 <= i < |xs| && k == SegmentShape(xs[i])
  {
    i :| 0 <= i < |EdgePrimitives(xs)| && EdgePrimitives(xs)[i].shape == k;
  }

  /** The set-level test on two fresh edge sets is the test on the edges themselves. */
  lemma SegmentSetsMeetEdges(xs: seq<Segment>, ys: seq<Segment>)
    ensures SegmentSetsMeet(EdgeSet(xs), EdgeSet(ys)) <==> EdgesMeet(xs, ys)
  {
    if SegmentSetsMeet(EdgeSet(xs), EdgeSet(ys)) {
      SetsMeetGivesEdges(xs, ys);
    }
    if EdgesMeet(xs, ys) {
      EdgesGiveSetsMeet(xs, ys);
    }
  }

  lemma SetsMeetGivesEdges(xs: seq<Segment>, ys: seq<Segment>)
    requires SegmentSetsMeet(EdgeSet(xs), EdgeSet(ys))
    ensures EdgesMeet(xs, ys)
  {
    var a := EdgeSet(xs).segments;
    var b := EdgeSet(ys).segments;
    EdgeSetKeys(xs);
    EdgeSetKeys(ys);
    var i, j :| 0 <= i < |a| && 0 <= j < |b|
      && a[i].shape.SegmentShape? && b[j].shape.SegmentShape?
      && Overlap(BoxOf(a[i]), BoxOf(b[j]))
      && DoIntersect(a[i].shape.segment, b[j].shape.segment);
    assert a[i].shape in Shapes(a) && b[j].shape in Shapes(b);
    var i' := KeyEdge(xs, a[i].shape);
    var j' := KeyEdge(ys, b[j].shape);
    assert a[i].shape.segment == xs[i'] && b[j].shape.segment == ys[j'];
    assert BoxOf(a[i]) == Some(SegmentBox(xs[i'])) && BoxOf(b[j]) == Some(SegmentBox(ys[j']));
  }

  lemma EdgesGiveSetsMeet(xs: seq<Segment>, ys: seq<Segment>)
    requires EdgesMeet(xs, ys)
    ensures SegmentSetsMeet(EdgeSet(xs), EdgeSet(ys))
  {
    var a := EdgeSet(xs).segments;
    var b := EdgeSet(ys).segments;
    EdgeSetKeys(xs);
    EdgeSetKeys(ys);
    var i', j' :| 0 <= i' < |xs| && 0 <= j' < |ys|
      && Overlap(Some(SegmentBox(xs[i'])), Some(SegmentBox(ys[j'])))
      && DoIntersect(xs[i'], ys[j']);
    EdgeKey(xs, i');
    EdgeKey(ys, j');
    var i :| 0 <= i < |a| && a[i].shape == SegmentShape(xs[i']);
    var j :| 0 <= j < |b| && b[j].shape == SegmentShape(ys[j']);
    assert BoxOf(a[i]) == Some(SegmentBox(xs[i'])) && BoxOf(b[j]) == Some(SegmentBox(ys[j']));
  }

  /**
    On sets of segments alone, the set-level predicate is the edge-pair
    test: the recursive call in the polygon cases is the general one.
  */
  lemma SegmentSetsMeetIsAnyPair(a: GSet, b: GSet)
    requires a.Valid() && b.Valid()
    requires a.points == [] && a.surfaces == [] && a.volumes == []
    requires b.points == [] && b.surfaces == [] && b.volumes == []
    ensures AnyPairIntersects(a, b) <==> SegmentSetsMeet(a, b)
  {
    var A, B := a.segments, b.segments;
    assert a.Primitives() == A by { assert [] + A + [] + [] == A; }
    assert b.Primitives() == B by { assert [] + B + [] + [] == B; }
    if AnyPairIntersects(a, b) {
      var i, j :| 0 <= i < |A| && 0 <= j < |B| && PairHits(A, B, i, j);
      SegmentPairIntersects(A[i], B[j]);
    }
    if SegmentSetsMeet(a, b) {
      var i, j :| 0 <= i < |A| && 0 <= j < |B|
        && A[i].shape.SegmentShape? && B[j].shape.SegmentShape?
        && Overlap(BoxOf(A[i]), BoxOf(B[j]))
        && DoIntersect(A[i].shape.segment, B[j].shape.segment);
      SegmentPairIntersects(A[i], B[j]);
      assert PairHits(A, B, i, j);
    }
  }

  /** Two segments meet exactly when the segment test says so. */
  lemma SegmentPairIntersects(p: Primitive, q: Primitive)
    requires p.GetType() == PrimitiveSegment && q.GetType() == PrimitiveSegment
    ensures p.shape.SegmentShape? && q.shape.SegmentShape?
    ensures Intersects(p, q) <==> DoIntersect(p.shape.segment, q.shape.segment)
  {
  }

  /**
    Polygon against segment: true exactly when an edge of some ring meets
    the segment, or else when the polygon holds the segment's source.
  */
  lemma PolygonSegmentByEdges(poly: Polygon, s: Segment)
    ensures PolygonMeetsSegment(poly, s) <==>
      (exists r :: 0 <= r < |AllRings(poly)| && EdgesMeet(Edges(AllRings(poly)[r]), [s]))
      || PolygonHasPoint(poly, s.source)
  {
    var rings := AllRings(poly);
    SegmentSetsMeetEdges(Edges(poly.outer), [s]);
    forall h | 0 <= h < |poly.holes|
      ensures SegmentSetsMeet(EdgeSet(Edges(poly.holes[h])), EdgeSet([s])) <==> EdgesMeet(Edges(rings[h + 1]), [s])
    {
      SegmentSetsMeetEdges(Edges(poly.holes[h]), [s]);
    }
    if exists r :: 0 <= r < |rings| && EdgesMeet(Edges(rings[r]), [s]) {
      var r :| 0 <= r < |rings| && EdgesMeet(Edges(rings[r]), [s]);
      if r > 0 {
        assert SegmentSetsMeet(EdgeSet(Edges(poly.holes[r - 1])), EdgeSet([s]));
      }
    }
  }

  /** Whether two sets of edges meet does not depend on their order. */
  lemma SegmentSetsMeetSymmetric(a: GSet, b: GSet)
    ensures SegmentSetsMeet(a, b) == SegmentSetsMeet(b, a)
  {
    if SegmentSetsMeet(a, b) {
      var i, j :| 0 <= i < |a.segments| && 0 <= j < |b.segments|
        && a.segments[i].shape.SegmentShape? && b.segments[j].shape.SegmentShape?
        && Overlap(BoxOf(a.segments[i]), BoxOf(b.segments[j]))
        && DoIntersect(a.segments[i].shape.segment, b.segments[j].shape.segment);
      DoIntersectOpposite(a.segments[i].shape.segment, b.segments[j].shape.segment);
      assert Overlap(BoxOf(b.segments[j]), BoxOf(a.segments[i]));
    }
    if SegmentSetsMeet(b, a) {
      var j, i :| 0 <= j < |b.segments| && 0 <= i < |a.segments|
        && b.segments[j].shape.SegmentShape? && a.segments[i].shape.SegmentShape?
        && Overlap(BoxOf(b.segments[j]), BoxOf(a.segments[i]))
        && DoIntersect(b.segments[j].shape.segment, a.segments[i].shape.segment);
      DoIntersectOpposite(b.segments[j].shape.segment, a.segments[i].shape.segment);
      assert Overlap(BoxOf(a.segments[i]), BoxOf(b.segments[j]));
    }
  }

  /** Two envelopes contain each other only when they are equal. */
  lemma MutualContainment(e1: Option<Box>, e2: Option<Box>)
    requires Contains(e1, e2) && Contains(e2, e1)
    ensures e1 == e2
  {
  }

  /** Polygon against polygon is symmetric unless the two outer envelopes are equal. */
  lemma PolygonsMeetSymmetric(poly1: Polygon, poly2: Polygon)
    requires RingBox(poly1.outer) != RingBox(poly2.outer)
    ensures PolygonsMeet(poly1, poly2) == PolygonsMeet(poly2, poly1)
  {
    SegmentSetsMeetSymmetric(EdgeSet(RingsEdges(AllRings(poly1))), EdgeSet(RingsEdges(AllRings(poly2))));
    var e1 := RingBox(poly1.outer);
    var e2 := RingBox(poly2.outer);
    if Contains(e2, e1) && Contains(e1, e2) {
      MutualContainment(e1, e2);
    }
  }

  /**
    Dispatch makes the predicate symmetric. The one exception is two
    surfaces with equal envelopes, where the first argument is always
    tested as the inner polygon.
  */
  lemma IntersectsSymmetric(a: Primitive, b: Primitive)
    requires !(a.shape.SurfaceShape? && b.shape.SurfaceShape? && BoxOf(a) == BoxOf(b))
    ensures Intersects(a, b) == Intersects(b, a)
  {
    match (a.shape, b.shape)
    case (SegmentShape(s), SegmentShape(t)) =>
      DoIntersectOpposite(s, t);
    case (SurfaceShape(p1), SurfaceShape(p2)) =>
      PolygonsMeetSymmetric(p1, p2);
    case _ =>
  }

  /** The box stage loses no point hit: a point on a segment, or equal points, have overlapping boxes. */
  lemma BoxesOverlapOnPointHits(s: Segment, p: Point2, q: Point2)
    ensures HasOn(s, p) ==> Overlap(Some(SegmentBox(s)), Some(PointBox(p)))
    ensures p == q ==> Overlap(Some(PointBox(p)), Some(PointBox(q)))
  {
  }

  /** An empty side gives no intersection. */
  lemma EmptySideMeetsNothing(a: GSet, b: GSet)
    requires a.Primitives() == [] || b.Primitives() == []
    ensures !AnyPairIntersects(a, b)
  {
  }

  // ---------------------------------------------------------------------
  // The set-level loop
  // ---------------------------------------------------------------------

  /**
    intersects(GeometrySet, GeometrySet): every pair of boxes is visited and
    the first pair found ends the search.
  */
  method IntersectsSets(a: GeometrySet, b: GeometrySet) returns (r: bool)
    requires a.Valid() && b.Valid()
    ensures r == AnyPairIntersects(a.Value(), b.Value())
  {
    var ahandles, aboxes := a.ComputeBoundingBoxes([]);
    var bhandles, bboxes := b.ComputeBoundingBoxes([]);
    assert ahandles == a.Value().Primitives() by { assert [] + a.Value().Primitives() == a.Value().Primitives(); }
    assert bhandles == b.Value().Primitives() by { assert [] + b.Value().Primitives() == b.Value().Primitives(); }
    r := BoxPairsHit(ahandles, aboxes, bhandles, bboxes);
  }

  /** The boxes of a handle list, in order, each naming its own handle. */
  predicate BoxesOf(handles: seq<Primitive>, boxes: seq<HandleBox>)
  {
    |boxes| == |handles| && forall k :: 0 <= k < |boxes| ==> boxes[k] == HandleBox(BoxOf(handles[k]), k)
  }

  /** The pair loop standing for the box sweep: stop at the first pair that overlaps and intersects. */
  method BoxPairsHit(ah: seq<Primitive>, aboxes: seq<HandleBox>, bh: seq<Primitive>, bboxes: seq<HandleBox>)
    returns (r: bool)
    requires BoxesOf(ah, aboxes) && BoxesOf(bh, bboxes)
    ensures r == PairsHit(ah, bh)
  {
    r := false;
    var i := 0;
    while i < |aboxes| && !r
      invariant 0 <= i <= |aboxes|
      invariant r ==> PairsHit(ah, bh)
      invariant !r ==> forall i', j' :: 0 <= i' < i && 0 <= j' < |bh| ==> !PairHits(ah, bh, i', j')
    {
      r := RowHits(ah, aboxes, bh, bboxes, i);
      i := i + 1;
    }
  }

  method RowHits(ah: seq<Primitive>, aboxes: seq<HandleBox>, bh: seq<Primitive>, bboxes: seq<HandleBox>, i: nat)
    returns (r: bool)
    requires BoxesOf(ah, aboxes) && BoxesOf(bh, bboxes) && i < |aboxes|
    ensures r ==> PairsHit(ah, bh)
    ensures !r ==> forall j' :: 0 <= j' < |bh| ==> !PairHits(ah, bh, i, j')
  {
    r := false;
    var j := 0;
    while j < |bboxes| && !r
      invariant 0 <= j <= |bboxes|
      invariant r ==> PairsHit(ah, bh)
      invariant !r ==> forall j' :: 0 <= j' < j ==> !PairHits(ah, bh, i, j')
      decreases |bboxes| - j, if r then 0 else 1
    {
      var hit := Overlap(aboxes[i].box, bboxes[j].box) && Intersects(ah[aboxes[i].handle], bh[bboxes[j].handle]);
      HitIsPairHit(ah, bh, i, j, hit);
      if hit {
        r := true;
      } else {
        j := j + 1;
      }
    }
  }

  /** intersects(Geometry, Geometry): both geometries are decomposed into fresh sets first. */
  method IntersectsGeometries(ga: Geometry, gb: Geometry) returns (r: bool)
    ensures r == AnyPairIntersects(Decomposition(Empty, ga), Decomposition(Empty, gb))
  {
    var gsa := new GeometrySet.FromGeometry(ga);
    var gsb := new GeometrySet.FromGeometry(gb);
    r := IntersectsSets(gsa, gsb);
  }
}
