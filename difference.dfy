/**
  Boolean difference of two 2D geometry sets (algorithm::difference): every
  primitive of the first set loses what each primitive of the second set
  that meets it covers, and the pieces one primitive leaves are filtered so
  that overlapping pieces are replaced by their intersection.

  algorithm::intersection and CGAL's polygon difference are not part of this
  model: they are the parameters `inter` and `polyDiff`.
*/
module Difference {
  import opened Options
  import opened Kernel
  import opened Lines
  import opened Primitives
  import opened GeometrySets
  import opened IntersectsAlgorithm
  import opened Geometries
  import opened Recomposition
  import Dimensions

  // ---------------------------------------------------------------------
  // Segment minus segment
  // ---------------------------------------------------------------------

  /**
    substract_from_segment for two segments: t's ends are measured along s
    and put in order (lo, hi); the piece from s's source to the lower end is
    kept when lo > 0, the piece from the upper end to s's target when hi < 1.
  */
  function SegmentPieces(s: Segment, t: Segment): (r: seq<Segment>)
    requires !s.IsDegenerate()
    ensures |r| <= 2
    ensures forall i :: 0 <= i < |r| ==> r[i].source == s.source || r[i].target == s.target
  {
    var sC := PointPosition(s, t.source);
    var sD := PointPosition(s, t.target);
    var lo := if sC > sD then sD else sC;
    var hi := if sC > sD then sC else sD;
    var pc := if sC > sD then t.target else t.source;
    var pd := if sC > sD then t.source else t.target;
    (if lo > 0.0 then [Segment(s.source, pc)] else []) + (if hi < 1.0 then [Segment(pd, s.target)] else [])
  }

  /** Both ends of t lie on the line of s. */
  predicate Collinear(s: Segment, t: Segment)
  {
    Cross(s.source, s.target, t.source) == 0.0 && Cross(s.source, s.target, t.target) == 0.0
  }

  /**
    Subtracting t walked the other way leaves the same pieces, provided t lies
    on the line of s (the swap makes the order of t's ends irrelevant).
  */
  lemma PiecesReversed(s: Segment, t: Segment)
    requires !s.IsDegenerate() && Collinear(s, t)
    ensures SegmentPieces(s, t.Opposite()) == SegmentPieces(s, t)
  {
    if PointPosition(s, t.source) == PointPosition(s, t.target) {
      SamePositionSamePoint(s, t.source, t.target);
    }
  }

  /** Writes t's ends as points of the line of s. */
  lemma CollinearEnds(s: Segment, t: Segment)
    requires !s.IsDegenerate() && Collinear(s, t)
    ensures t == Segment(PointAt(s, PointPosition(s, t.source)), PointAt(s, PointPosition(s, t.target)))
  {
    PointAtPosition(s, t.source);
    PointAtPosition(s, t.target);
  }

  /** Nothing is left exactly when t, on the line of s, covers both ends of s. */
  lemma PiecesEmptyIffCovered(s: Segment, t: Segment)
    requires !s.IsDegenerate() && Collinear(s, t)
    ensures SegmentPieces(s, t) == [] <==> HasOn(t, s.source) && HasOn(t, s.target)
  {
    var sC := PointPosition(s, t.source);
    var sD := PointPosition(s, t.target);
    CollinearEnds(s, t);
    EndsOnLine(s);
    OnLine(s, sC, sD, 0.0);
    OnLine(s, sC, sD, 1.0);
  }

  /** The pieces written with points of the line of s, from the sorted positions of t's ends. */
  function PiecesAt(s: Segment, lo: real, hi: real): seq<Segment>
  {
    (if lo > 0.0 then [Segment(PointAt(s, 0.0), PointAt(s, lo))] else [])
      + (if hi < 1.0 then [Segment(PointAt(s, hi), PointAt(s, 1.0))] else [])
  }

  /** For t on the line of s, SegmentPieces are the pieces at t's sorted positions. */
  lemma PiecesArePiecesAt(s: Segment, t: Segment) returns (lo: real, hi: real)
    requires !s.IsDegenerate() && Collinear(s, t)
    ensures lo <= hi
    ensures t == Segment(PointAt(s, lo), PointAt(s, hi)) || t == Segment(PointAt(s, hi), PointAt(s, lo))
    ensures SegmentPieces(s, t) == PiecesAt(s, lo, hi)
  {
    var sC := PointPosition(s, t.source);
    var sD := PointPosition(s, t.target);
    CollinearEnds(s, t);
    EndsOnLine(s);
    lo := if sC > sD then sD else sC;
    hi := if sC > sD then sC else sD;
  }

  /** A point of s off t lies on one of the pieces. */
  lemma PiecesCoverTheRest(s: Segment, t: Segment, u: real)
    requires !s.IsDegenerate() && Collinear(s, t) && 0.0 <= u <= 1.0
    requires !HasOn(t, PointAt(s, u))
    ensures exists i :: 0 <= i < |SegmentPieces(s, t)| && HasOn(SegmentPieces(s, t)[i], PointAt(s, u))
  {
    var lo, hi := PiecesArePiecesAt(s, t);
    OnLine(s, lo, hi, u);
    OnLine(s, hi, lo, u);
    var r := PiecesAt(s, lo, hi);
    if u < lo {
      OnLine(s, 0.0, lo, u);
      assert HasOn(r[0], PointAt(s, u));
    } else {
      OnLine(s, hi, 1.0, u);
      assert HasOn(r[|r| - 1], PointAt(s, u));
    }
  }

  /** A point of t other than its ends lies on no piece. */
  lemma PiecesAvoidT(s: Segment, t: Segment, u: real)
    requires !s.IsDegenerate() && Collinear(s, t)
    requires HasOn(t, PointAt(s, u)) && PointAt(s, u) != t.source && PointAt(s, u) != t.target
    ensures forall i :: 0 <= i < |SegmentPieces(s, t)| ==> !HasOn(SegmentPieces(s, t)[i], PointAt(s, u))
  {
    var lo, hi := PiecesArePiecesAt(s, t);
    OnLine(s, lo, hi, u);
    OnLine(s, hi, lo, u);
    assert u != lo && u != hi;
    OnLine(s, 0.0, lo, u);
    OnLine(s, hi, 1.0, u);
  }

  // ---------------------------------------------------------------------
  // Primitive minus primitive
  // ---------------------------------------------------------------------

  /** CGAL's difference of two polygons with holes, which is not part of this model. */
  type PolygonDifference = (Polygon, Polygon) -> seq<Polygon>

  /**
    What the model asks of algorithm::intersection: a segment it reports for
    a segment x has positive length and both its ends on x.
  */
  ghost predicate SubSegmentResults(inter: Dimensions.Intersection)
  {
    forall x: Primitive, y: Primitive, k: int :: x.shape.SegmentShape? && 0 <= k < |inter(x, y)| && inter(x, y)[k].shape.SegmentShape? ==>
      && !inter(x, y)[k].shape.segment.IsDegenerate()
      && HasOn(x.shape.segment, inter(x, y)[k].shape.segment.source)
      && HasOn(x.shape.segment, inter(x, y)[k].shape.segment.target)
  }

  /**
    substract_from_segment: the primitives it adds, with flags 0. A segment
    is split by SegmentPieces; anything else leaves seg whole.
  */
  function SegmentRemainder(seg: Segment, prim: Primitive): (r: seq<Primitive>)
    requires prim.shape.SegmentShape? ==> !seg.IsDegenerate()
    ensures AllOfType(r, PrimitiveSegment)
    ensures forall i :: 0 <= i < |r| ==> r[i].flags == 0
  {
    if prim.shape.SegmentShape? then EdgePrimitives(SegmentPieces(seg, prim.shape.segment))
    else [Make(SegmentShape(seg))]
  }

  /** The remainders of seg after each primitive of prims in turn, one after the other. */
  function SegmentRemainders(seg: Segment, prims: seq<Primitive>): (r: seq<Primitive>)
    requires prims != [] ==> !seg.IsDegenerate()
    ensures AllOfType(r, PrimitiveSegment)
    decreases |prims|
  {
    if prims == [] then []
    else SegmentRemainders(seg, prims[..|prims| - 1]) + SegmentRemainder(seg, prims[|prims| - 1])
  }

  /** substract_from_surface (2D): CGAL's difference against a surface, else surf whole. */
  function SurfaceRemainder(polyDiff: PolygonDifference, surf: Polygon, prim: Primitive): (r: seq<Primitive>)
    ensures AllOfType(r, PrimitiveSurface)
    ensures forall i :: 0 <= i < |r| ==> r[i].flags == 0
    ensures !prim.shape.SurfaceShape? ==> r == [Make(SurfaceShape(surf))]
  {
    if prim.shape.SurfaceShape? then
      var d := polyDiff(surf, prim.shape.polygon);
      seq(|d|, i requires 0 <= i < |d| => Make(SurfaceShape(d[i])))
    else [Make(SurfaceShape(surf))]
  }

  lemma OfTypeMember(xs: seq<Primitive>, k: PrimitiveType, x: Primitive)
    requires x in OfType(xs, k)
    ensures x in xs && x.GetType() == k
    decreases |xs|
  {
    if xs != [] && x !in OfType(xs[..|xs| - 1], k) {
      assert x == xs[|xs| - 1];
    }
  }

  /** A segment of a fresh set built from xs has the key of a segment of xs. */
  lemma FreshSegmentFrom(xs: seq<Primitive>, q: Primitive) returns (k: int)
    requires q in AddAll(Empty, xs).segments
    ensures 0 <= k < |xs| && xs[k].shape == q.shape && xs[k].shape.SegmentShape?
  {
    AddAllContents(Empty, xs);
    var g := AddAll(Empty, xs);
    var i :| 0 <= i < |g.segments| && g.segments[i] == q;
    assert q.shape in Shapes(g.segments);
    assert Shapes(Empty.segments) == {};
    var ys := OfType(xs, PrimitiveSegment);
    var j :| 0 <= j < |ys| && ys[j].shape == q.shape;
    OfTypeMember(xs, PrimitiveSegment, ys[j]);
    k :| 0 <= k < |xs| && xs[k] == ys[j];
  }

  lemma DegenerateHasOnlyItsPoint(s: Segment, p: Point2)
    requires s.IsDegenerate() && HasOn(s, p)
    ensures p == s.source
  {
  }

  /**
    A segment x for which the intersection reports a segment has positive
    length, and every reported segment lies on its line.
  */
  lemma SegmentResultsOnLine(inter: Dimensions.Intersection, pa: Primitive, pb: Primitive)
    requires SubSegmentResults(inter) && pa.shape.SegmentShape?
    ensures var segs := AddAll(Empty, inter(pa, pb)).segments;
      && (segs != [] ==> !pa.shape.segment.IsDegenerate())
      && forall q :: q in segs ==> q.shape.SegmentShape? && Collinear(pa.shape.segment, q.shape.segment)
  {
    var segs := AddAll(Empty, inter(pa, pb)).segments;
    var s := pa.shape.segment;
    forall q | q in segs
      ensures q.shape.SegmentShape? && Collinear(s, q.shape.segment)
      ensures !s.IsDegenerate()
    {
      var k := FreshSegmentFrom(inter(pa, pb), q);
      var t := q.shape.segment;
      if s.IsDegenerate() {
        DegenerateHasOnlyItsPoint(s, t.source);
        DegenerateHasOnlyItsPoint(s, t.target);
      }
    }
    if segs != [] {
      assert segs[0] in segs;
    }
  }

  /**
    difference_primitive: what a primitive pa of the first set keeps of
    itself against a primitive pb that meets it. A point keeps nothing; a
    segment loses each segment of their intersection, and is kept whole when
    the intersection holds no segment; a surface goes to CGAL's difference;
    a volume keeps nothing.
  */
  function Remainder(inter: Dimensions.Intersection, polyDiff: PolygonDifference, pa: Primitive, pb: Primitive): (r: seq<Primitive>)
    requires SubSegmentResults(inter)
    ensures pa.shape.PointShape? || pa.shape.VolumeShape? ==> r == []
    ensures pa.shape.SegmentShape? ==> AllOfType(r, PrimitiveSegment)
    ensures pa.shape.SurfaceShape? ==> AllOfType(r, PrimitiveSurface)
    ensures pa.shape.SegmentShape? && AddAll(Empty, inter(pa, pb)).segments == [] ==> r == [Bare(pa)]
  {
    match pa.shape
    case PointShape(_) => []
    case SegmentShape(s) =>
      var segs := AddAll(Empty, inter(pa, pb)).segments;
      SegmentResultsOnLine(inter, pa, pb);
      if |segs| > 0 then SegmentRemainders(s, segs) else [Bare(pa)]
    case SurfaceShape(poly) => SurfaceRemainder(polyDiff, poly, pb)
    case VolumeShape(_) => []
  }

  /** A single segment reported by the intersection: pa is split by it alone. */
  lemma RemainderOfOneSegment(inter: Dimensions.Intersection, polyDiff: PolygonDifference, pa: Primitive, pb: Primitive)
    requires SubSegmentResults(inter) && pa.shape.SegmentShape?
    requires |inter(pa, pb)| == 1 && inter(pa, pb)[0].shape.SegmentShape?
    ensures !pa.shape.segment.IsDegenerate()
    ensures Remainder(inter, polyDiff, pa, pb)
         == EdgePrimitives(SegmentPieces(pa.shape.segment, inter(pa, pb)[0].shape.segment))
  {
    var q := inter(pa, pb)[0];
    assert inter(pa, pb) == [q];
    assert AddAll(Empty, inter(pa, pb)) == Add(Empty, q);
    assert SetInsert([], q) == [q];
    var segs := AddAll(Empty, inter(pa, pb)).segments;
    assert segs == [q];
    SegmentResultsOnLine(inter, pa, pb);
    assert SegmentRemainders(pa.shape.segment, segs) == SegmentRemainder(pa.shape.segment, q);
  }

  function SegmentOf(x0: real, y0: real, x1: real, y1: real): Primitive
  {
    Make(SegmentShape(Segment(Point2(x0, y0), Point2(x1, y1))))
  }

  const UnitSegment: Segment := Segment(Point2(0.0, 0.0), Point2(1.0, 0.0))

  lemma EdgePrimitivesOfPieces(a: Segment, b: Segment)
    ensures EdgePrimitives([a]) == [Make(SegmentShape(a))]
    ensures EdgePrimitives([a, b]) == [Make(SegmentShape(a)), Make(SegmentShape(b))]
  {
  }

  lemma InnerPieces()
    ensures SegmentPieces(UnitSegment, Segment(Point2(0.5, 0.0), Point2(0.7, 0.0)))
         == [Segment(Point2(0.0, 0.0), Point2(0.5, 0.0)), Segment(Point2(0.7, 0.0), Point2(1.0, 0.0))]
  {
    assert PointPosition(UnitSegment, Point2(0.5, 0.0)) == 0.5;
    assert PointPosition(UnitSegment, Point2(0.7, 0.0)) == 0.7;
  }

  lemma TailPieces()
    ensures SegmentPieces(UnitSegment, Segment(Point2(0.0, 0.0), Point2(0.7, 0.0)))
         == [Segment(Point2(0.7, 0.0), Point2(1.0, 0.0))]
  {
    assert PointPosition(UnitSegment, Point2(0.0, 0.0)) == 0.0;
    assert PointPosition(UnitSegment, Point2(0.7, 0.0)) == 0.7;
  }

  /**
    LINESTRING(0 0,1 0) minus LINESTRING(0.5 0,0.7 0), whose intersection is
    the second segment, walked either way: the two outer pieces remain.
  */
  lemma InnerSegmentLeavesTwoPieces(inter: Dimensions.Intersection, polyDiff: PolygonDifference, pb: Primitive)
    requires SubSegmentResults(inter)
    requires pb == SegmentOf(0.5, 0.0, 0.7, 0.0) || pb == SegmentOf(0.7, 0.0, 0.5, 0.0)
    requires inter(SegmentOf(0.0, 0.0, 1.0, 0.0), pb) == [pb]
    ensures Remainder(inter, polyDiff, SegmentOf(0.0, 0.0, 1.0, 0.0), pb)
         == [SegmentOf(0.0, 0.0, 0.5, 0.0), SegmentOf(0.7, 0.0, 1.0, 0.0)]
  {
    RemainderOfOneSegment(inter, polyDiff, SegmentOf(0.0, 0.0, 1.0, 0.0), pb);
    var t := Segment(Point2(0.5, 0.0), Point2(0.7, 0.0));
    InnerPieces();
    assert Collinear(UnitSegment, t);
    PiecesReversed(UnitSegment, t);
    EdgePrimitivesOfPieces(Segment(Point2(0.0, 0.0), Point2(0.5, 0.0)), Segment(Point2(0.7, 0.0), Point2(1.0, 0.0)));
  }

  /** LINESTRING(0 0,1 0) minus LINESTRING(-1 0,0.7 0): their overlap (0 0,0.7 0) leaves (0.7 0,1 0). */
  lemma OverlapAtSourceLeavesTail(inter: Dimensions.Intersection, polyDiff: PolygonDifference, pb: Primitive)
    requires SubSegmentResults(inter)
    requires inter(SegmentOf(0.0, 0.0, 1.0, 0.0), pb) == [SegmentOf(0.0, 0.0, 0.7, 0.0)]
    ensures Remainder(inter, polyDiff, SegmentOf(0.0, 0.0, 1.0, 0.0), pb) == [SegmentOf(0.7, 0.0, 1.0, 0.0)]
  {
    RemainderOfOneSegment(inter, polyDiff, SegmentOf(0.0, 0.0, 1.0, 0.0), pb);
    TailPieces();
    EdgePrimitivesOfPieces(Segment(Point2(0.7, 0.0), Point2(1.0, 0.0)), UnitSegment);
  }

  /** A segment minus an intersection that is the whole segment, either way round, leaves nothing. */
  lemma CoveredSegmentVanishes(inter: Dimensions.Intersection, polyDiff: PolygonDifference, pa: Primitive, pb: Primitive)
    requires SubSegmentResults(inter) && pa.shape.SegmentShape?
    requires inter(pa, pb) == [pa] || inter(pa, pb) == [Make(SegmentShape(pa.shape.segment.Opposite()))]
    ensures Remainder(inter, polyDiff, pa, pb) == []
  {
    RemainderOfOneSegment(inter, polyDiff, pa, pb);
    var s := pa.shape.segment;
    assert SegmentPieces(s, s) == [];
    assert SegmentPieces(s, s.Opposite()) == [];
  }

  // ---------------------------------------------------------------------
  // The same, adding to an output set in place
  // ---------------------------------------------------------------------

  lemma AddAllPair(g: GSet, x: Primitive, y: Primitive)
    requires g.Valid()
    ensures AddAll(g, []) == g
    ensures AddAll(g, [x]) == Add(g, x)
    ensures AddAll(g, [x, y]) == Add(Add(g, x), y)
  {
    assert [x][..0] == [] && [x, y][..1] == [x];
  }

  /** substract_from_segment: seg is a segment primitive of the first set. */
  method SubtractFromSegment(seg: Primitive, prim: Primitive, output: GeometrySet)
    requires seg.shape.SegmentShape? && output.Valid()
    requires prim.shape.SegmentShape? ==> !seg.shape.segment.IsDegenerate()
    modifies output
    ensures output.Valid() && output.Value() == AddAll(old(output.Value()), SegmentRemainder(seg.shape.segment, prim))
  {
    if prim.GetType() == PrimitiveSegment {
      SubtractSegment(seg.shape.segment, prim.shape.segment, output);
    } else {
      output.AddPrimitiveBase(seg);
      AddAllPair(old(output.Value()), Bare(seg), Bare(seg));
    }
  }

  /** substract_from_segment when the other primitive is a segment: the pieces of sega outside segb. */
  method SubtractSegment(sega: Segment, segb: Segment, output: GeometrySet)
    requires !sega.IsDegenerate() && output.Valid()
    modifies output
    ensures output.Valid() && output.Value() == AddAll(old(output.Value()), EdgePrimitives(SegmentPieces(sega, segb)))
  {
    var pA, pB, pC, pD := sega.source, sega.target, segb.source, segb.target;
    var sC := PointPosition(sega, pC);
    var sD := PointPosition(sega, pD);
    if sC > sD {
      sC, sD := sD, sC;
      pC, pD := pD, pC;
    }
    assert SegmentPieces(sega, segb)
        == (if sC > 0.0 then [Segment(pA, pC)] else []) + (if sD < 1.0 then [Segment(pD, pB)] else []);
    EdgePrimitivesOfPieces(Segment(pA, pC), Segment(pD, pB));
    EdgePrimitivesOfPieces(Segment(pD, pB), Segment(pD, pB));
    assert EdgePrimitives([]) == [];
    AddKept(output, Make(SegmentShape(Segment(pA, pC))), sC > 0.0, Make(SegmentShape(Segment(pD, pB))), sD < 1.0);
  }

  /** Adds first when keepFirst, then second when keepSecond. */
  method AddKept(output: GeometrySet, first: Primitive, keepFirst: bool, second: Primitive, keepSecond: bool)
    requires output.Valid()
    modifies output
    ensures output.Valid()
    ensures output.Value() == AddAll(old(output.Value()), (if keepFirst then [first] else []) + (if keepSecond then [second] else []))
  {
    ghost var g0 := output.Value();
    AddAllPair(g0, first, second);
    AddAllPair(g0, second, second);
    assert [] + [second] == [second] && [first] + [] == [first] && [first] + [second] == [first, second];
    if keepFirst {
      output.AddPrimitive(first);
    }
    if keepSecond {
      output.AddPrimitive(second);
    }
  }

  /** The loop of difference(primitive, primitive) over the segments of the intersection. */
  method SubtractFromSegmentAll(pa: Primitive, segs: seq<Primitive>, output: GeometrySet)
    requires pa.shape.SegmentShape? && output.Valid()
    requires segs != [] ==> !pa.shape.segment.IsDegenerate()
    modifies output
    ensures output.Valid() && output.Value() == AddAll(old(output.Value()), SegmentRemainders(pa.shape.segment, segs))
  {
    ghost var g0 := output.Value();
    var i := 0;
    while i < |segs|
      invariant 0 <= i <= |segs|
      invariant output.Valid() && output.Value() == AddAll(g0, SegmentRemainders(pa.shape.segment, segs[..i]))
    {
      assert segs[..i + 1][..i] == segs[..i];
      AddAllAppend(g0, SegmentRemainders(pa.shape.segment, segs[..i]), SegmentRemainder(pa.shape.segment, segs[i]));
      SubtractFromSegment(pa, segs[i], output);
      i := i + 1;
    }
    assert segs[..i] == segs;
  }

  /** substract_from_surface (2D): CGAL's pieces go straight into the surface list. */
  method SubtractFromSurface(polyDiff: PolygonDifference, surf: Primitive, prim: Primitive, output: GeometrySet)
    requires surf.shape.SurfaceShape? && output.Valid()
    modifies output
    ensures output.Valid() && output.Value() == AddAll(old(output.Value()), SurfaceRemainder(polyDiff, surf.shape.polygon, prim))
  {
    if prim.GetType() == PrimitiveSurface {
      var pieces := SurfaceRemainder(polyDiff, surf.shape.polygon, prim);
      output.AddSurfaces(pieces);
      AddAllOfOneKind(old(output.Value()), pieces, PrimitiveSurface);
    } else {
      output.AddPrimitiveBase(surf);
      AddAllPair(old(output.Value()), Bare(surf), Bare(surf));
    }
  }

  /** difference_primitive: adds what pa keeps against pb to the output. */
  method DifferencePrimitive(inter: Dimensions.Intersection, polyDiff: PolygonDifference, pa: Primitive, pb: Primitive, output: GeometrySet)
    requires SubSegmentResults(inter) && output.Valid()
    modifies output
    ensures output.Valid() && output.Value() == AddAll(old(output.Value()), Remainder(inter, polyDiff, pa, pb))
  {
    ghost var g0 := output.Value();
    if pa.GetType() == PrimitivePoint {
      // a point minus anything it meets is empty
      assert AddAll(g0, []) == g0;
    } else if pa.GetType() == PrimitiveSegment {
      var interSet := new GeometrySet();
      interSet.AddRange(inter(pa, pb));
      var segs := interSet.segments;
      SegmentResultsOnLine(inter, pa, pb);
      if |segs| > 0 {
        SubtractFromSegmentAll(pa, segs, output);
      } else {
        output.AddPrimitiveBase(pa);
        AddAllPair(g0, Bare(pa), Bare(pa));
      }
    } else if pa.GetType() == PrimitiveSurface {
      SubtractFromSurface(polyDiff, pa, pb, output);
    } else {
      assert AddAll(g0, []) == g0;
    }
  }

  // ---------------------------------------------------------------------
  // filter_self_intersection
  // ---------------------------------------------------------------------

  /** The exact intersection test handed to the loops, as a value. */
  type Meets = (Primitive, Primitive) -> bool

  function IntersectsTest(): (m: Meets)
    ensures forall x, y :: m(x, y) == Intersects(x, y)
  {
    (x, y) => Intersects(x, y)
  }

  /** The pair test of the loops: overlapping boxes, then the exact test. */
  predicate Hit(meets: Meets, x: Primitive, y: Primitive)
  {
    Overlap(BoxOf(x), BoxOf(y)) && meets(x, y)
  }

  /** The table of handles; a null handle is None. */
  function Wrap(xs: seq<Primitive>): (r: seq<Option<Primitive>>)
    ensures |r| == |xs| && forall l :: 0 <= l < |xs| ==> r[l] == Some(xs[l])
  {
    seq(|xs|, l requires 0 <= l < |xs| => Some(xs[l]))
  }

  /** Number of handles that are not null. */
  function Live(s: seq<Option<Primitive>>): (n: nat)
    ensures n <= |s|
  {
    if s == [] then 0 else (if s[0].Some? then 1 else 0) + Live(s[1..])
  }

  lemma {:induction false} LiveAppend(a: seq<Option<Primitive>>, b: seq<Option<Primitive>>)
    ensures Live(a + b) == Live(a) + Live(b)
    decreases |a|
  {
    if a == [] {
      assert a + b == b;
    } else {
      assert (a + b)[1..] == a[1..] + b;
      LiveAppend(a[1..], b);
    }
  }

  lemma {:induction false} LiveClear(s: seq<Option<Primitive>>, j: nat)
    requires j < |s| && s[j].Some?
    ensures Live(s[j := None]) == Live(s) - 1
    decreases j
  {
    if j > 0 {
      assert s[j := None][1..] == s[1..][j - 1 := None];
      LiveClear(s[1..], j - 1);
    }
  }

  lemma LiveHead(s: seq<Option<Primitive>>, i: nat)
    requires i < |s|
    ensures Live(s[i..]) == (if s[i].Some? then 1 else 0) + Live(s[i + 1..])
  {
    assert s[i..][1..] == s[i + 1..];
  }

  /** The first handle from position j on that is live and that x hits. */
  function FirstHit(meets: Meets, x: Primitive, idx: seq<Option<Primitive>>, j: nat): (r: Option<nat>)
    requires j <= |idx|
    ensures r.Some? ==> j <= r.value < |idx| && idx[r.value].Some? && Hit(meets, x, idx[r.value].value)
    ensures forall l :: j <= l < (if r.Some? then r.value else |idx|) && idx[l].Some? ==> !Hit(meets, x, idx[l].value)
    decreases |idx| - j
  {
    if j == |idx| then None
    else if idx[j].Some? && Hit(meets, x, idx[j].value) then Some(j)
    else FirstHit(meets, x, idx, j + 1)
  }

  /** The loop state of one kind's pass: the handle table, the temp set and the output. */
  datatype FilterState = FilterState(idx: seq<Option<Primitive>>, temp: GSet, out: GSet)

  /**
    One turn of the loop over i, as written: a null handle is skipped; a
    primitive that hits no later live one goes to the output; otherwise the
    pair's intersection is added to temp, every primitive of kind k in temp
    is appended to the table, and both handles of the pair are nulled.
  */
  function Step(meets: Meets, inter: Dimensions.Intersection, k: PrimitiveType, st: FilterState, i: nat): (r: FilterState)
    requires i < |st.idx| && st.temp.Valid() && st.out.Valid()
    ensures r.temp.Valid() && r.out.Valid() && |st.idx| <= |r.idx|
  {
    match st.idx[i]
    case None => st
    case Some(x) =>
      match FirstHit(meets, x, st.idx, i + 1)
      case None => FilterState(st.idx[i := None], st.temp, Add(st.out, Bare(x)))
      case Some(j) =>
        var t := AddAll(st.temp, inter(x, st.idx[j].value));
        FilterState((st.idx + Wrap(t.Selection(k.Tag())))[j := None][i := None], t, st.out)
  }

  /**
    The pass for one kind as written, with temp shared by every turn. It
    need not end (see SharedTempNeverEnds), so it runs on fuel and answers
    None when the fuel runs out first.
  */
  function FilterAsWritten(meets: Meets, inter: Dimensions.Intersection, k: PrimitiveType, st: FilterState, i: nat, fuel: nat): (r: Option<GSet>)
    requires i <= |st.idx| && st.temp.Valid() && st.out.Valid()
    ensures r.Some? ==> r.value.Valid()
    decreases fuel
  {
    if i == |st.idx| then Some(st.out)
    else if fuel == 0 then None
    else FilterAsWritten(meets, inter, k, Step(meets, inter, k, st, i), i + 1, fuel - 1)
  }

  /**
    The intersection of two primitives of kind k holds at most one
    primitive of kind k. Two points meet in at most one point and two
    segments in at most one segment; two polygons can meet in several.
  */
  ghost predicate OnePiece(inter: Dimensions.Intersection, k: PrimitiveType)
  {
    forall x: Primitive, y: Primitive :: x.GetType() == k && y.GetType() == k ==> AddAll(Empty, inter(x, y)).Size(k.Tag()) <= 1
  }

  /** The measure of the corrected pass: turns left plus live handles left. */
  function Measure(idx: seq<Option<Primitive>>, i: nat): int
    requires i <= |idx|
  {
    |idx| - i + Live(idx[i..])
  }

  /** With a fresh temp, a turn that pushes at most one piece lowers the measure. */
  lemma StepShrinks(meets: Meets, inter: Dimensions.Intersection, k: PrimitiveType, idx: seq<Option<Primitive>>, i: nat, out: GSet)
    requires i < |idx| && out.Valid()
    requires |Step(meets, inter, k, FilterState(idx, Empty, out), i).idx| <= |idx| + 1
    ensures var st := Step(meets, inter, k, FilterState(idx, Empty, out), i);
      i + 1 <= |st.idx| && 0 <= Measure(st.idx, i + 1) < Measure(idx, i)
  {
    match idx[i]
    case None =>
      SkipShrinks(idx, i);
    case Some(x) =>
      match FirstHit(meets, x, idx, i + 1)
      case None =>
        EmitShrinks(idx, i);
      case Some(j) =>
        var t := AddAll(Empty, inter(x, idx[j].value));
        HitShrinks(idx, i, j, Wrap(t.Selection(k.Tag())));
  }

  /** A null handle is skipped: one turn fewer, the same live handles. */
  lemma SkipShrinks(idx: seq<Option<Primitive>>, i: nat)
    requires i < |idx| && idx[i].None?
    ensures 0 <= Measure(idx, i + 1) < Measure(idx, i)
  {
    LiveHead(idx, i);
  }

  /** A handle that hits nothing is emitted and nulled: one turn and one live handle fewer. */
  lemma EmitShrinks(idx: seq<Option<Primitive>>, i: nat)
    requires i < |idx| && idx[i].Some?
    ensures 0 <= Measure(idx[i := None], i + 1) < Measure(idx, i)
  {
    LiveHead(idx, i);
    assert idx[i := None][i + 1..] == idx[i + 1..];
  }

  /**
    A hit appends at most one handle and nulls both handles of the pair:
    one turn fewer and at least one live handle fewer.
  */
  lemma HitShrinks(idx: seq<Option<Primitive>>, i: nat, j: nat, w: seq<Option<Primitive>>)
    requires i < j < |idx| && idx[i].Some? && idx[j].Some? && |w| <= 1
    ensures var n := (idx + w)[j := None][i := None];
      i + 1 <= |n| && 0 <= Measure(n, i + 1) < Measure(idx, i)
  {
    var n := (idx + w)[j := None][i := None];
    LiveHead(idx, i);
    var tail := idx[i + 1..] + w;
    assert n[i + 1..] == tail[j - i - 1 := None];
    LiveClear(tail, j - i - 1);
    LiveAppend(idx[i + 1..], w);
  }

  /**
    The corrected pass for one kind: temp is fresh for every pair, so only
    that pair's intersection is appended. A turn that pushes at most one
    piece lowers Measure. A turn that pushes two or more (a pair meeting in
    several primitives of the kind) need not, and spends one unit of fuel;
    the pass answers None when it would need more fuel than it is given.
  */
  function FilterPass(meets: Meets, inter: Dimensions.Intersection, k: PrimitiveType, idx: seq<Option<Primitive>>, i: nat, out: GSet, fuel: nat): (r: Option<GSet>)
    requires i <= |idx| && out.Valid()
    ensures r.Some? ==> r.value.Valid()
    decreases fuel, Measure(idx, i)
  {
    if i == |idx| then Some(out)
    else
      var st := Step(meets, inter, k, FilterState(idx, Empty, out), i);
      if |st.idx| <= |idx| + 1 then
        StepShrinks(meets, inter, k, idx, i, out);
        FilterPass(meets, inter, k, st.idx, i + 1, st.out, fuel)
      else if fuel == 0 then None
      else FilterPass(meets, inter, k, st.idx, i + 1, st.out, fuel - 1)
  }

  /** Every live handle from i on holds a primitive of kind k. */
  predicate LiveOfKind(idx: seq<Option<Primitive>>, i: nat, k: PrimitiveType)
  {
    forall l :: i <= l < |idx| && idx[l].Some? ==> idx[l].value.GetType() == k
  }

  lemma SelectionOfValid(g: GSet, k: PrimitiveType)
    requires g.Valid()
    ensures AllOfType(g.Selection(k.Tag()), k)
    ensures LiveOfKind(Wrap(g.Selection(k.Tag())), 0, k)
  {
  }

  /** g2 differs from g1 at most in the collection of kind k. */
  predicate SameOtherKinds(g1: GSet, g2: GSet, k: PrimitiveType)
  {
    && (k != PrimitivePoint ==> g2.points == g1.points)
    && (k != PrimitiveSegment ==> g2.segments == g1.segments)
    && (k != PrimitiveSurface ==> g2.surfaces == g1.surfaces)
    && (k != PrimitiveVolume ==> g2.volumes == g1.volumes)
  }

  /** One turn of a pass for kind k: the table keeps only kind k ahead, and only kind k is emitted. */
  lemma StepKeepsOtherKinds(meets: Meets, inter: Dimensions.Intersection, k: PrimitiveType,
                            idx: seq<Option<Primitive>>, i: nat, out: GSet)
    requires i < |idx| && out.Valid() && LiveOfKind(idx, i, k)
    ensures var st := Step(meets, inter, k, FilterState(idx, Empty, out), i);
      LiveOfKind(st.idx, i + 1, k) && SameOtherKinds(out, st.out, k)
  {
    if idx[i].Some? {
      var x := idx[i].value;
      match FirstHit(meets, x, idx, i + 1)
      case None =>
      case Some(j) =>
        var t := AddAll(Empty, inter(x, idx[j].value));
        SelectionOfValid(t, k);
        LiveAfterHit(idx, i, j, t.Selection(k.Tag()), k);
    }
  }

  /** Pushing pieces of kind k and clearing two handles keeps the table's tail of kind k. */
  lemma LiveAfterHit(idx: seq<Option<Primitive>>, i: nat, j: nat, pieces: seq<Primitive>, k: PrimitiveType)
    requires i < j < |idx| && LiveOfKind(idx, i, k) && AllOfType(pieces, k)
    ensures LiveOfKind((idx + Wrap(pieces))[j := None][i := None], i + 1, k)
  {
    var w := idx + Wrap(pieces);
    assert forall l :: |idx| <= l < |w| ==> w[l] == Some(pieces[l - |idx|]);
  }

  /** When the pairs of kind k meet in at most one piece of kind k, no turn pushes two. */
  lemma OnePieceStep(meets: Meets, inter: Dimensions.Intersection, k: PrimitiveType,
                     idx: seq<Option<Primitive>>, i: nat, out: GSet)
    requires i < |idx| && out.Valid() && OnePiece(inter, k) && LiveOfKind(idx, i, k)
    ensures |Step(meets, inter, k, FilterState(idx, Empty, out), i).idx| <= |idx| + 1
  {
    if idx[i].Some? {
      var x := idx[i].value;
      match FirstHit(meets, x, idx, i + 1)
      case None =>
      case Some(j) =>
        assert x.GetType() == k && idx[j].value.GetType() == k;
        var t := AddAll(Empty, inter(x, idx[j].value));
        assert |Wrap(t.Selection(k.Tag()))| <= 1;
    }
  }

  /**
    A pass ends, whatever its fuel, when every pair of kind k meets in at
    most one piece of kind k: always for points and for segments.
  */
  lemma {:induction false} PassEnds(meets: Meets, inter: Dimensions.Intersection, k: PrimitiveType,
                                    idx: seq<Option<Primitive>>, i: nat, out: GSet, fuel: nat)
    requires i <= |idx| && out.Valid() && OnePiece(inter, k) && LiveOfKind(idx, i, k)
    ensures FilterPass(meets, inter, k, idx, i, out, fuel).Some?
    decreases Measure(idx, i)
  {
    if i < |idx| {
      var st := Step(meets, inter, k, FilterState(idx, Empty, out), i);
      OnePieceStep(meets, inter, k, idx, i, out);
      StepShrinks(meets, inter, k, idx, i, out);
      StepKeepsOtherKinds(meets, inter, k, idx, i, out);
      PassEnds(meets, inter, k, st.idx, i + 1, st.out, fuel);
    }
  }

  /** A pass for kind k leaves the output's other collections as they were. */
  lemma {:induction false} PassKeepsOtherKinds(meets: Meets, inter: Dimensions.Intersection, k: PrimitiveType,
                                               idx: seq<Option<Primitive>>, i: nat, out: GSet, fuel: nat)
    requires i <= |idx| && out.Valid() && LiveOfKind(idx, i, k)
    ensures var r := FilterPass(meets, inter, k, idx, i, out, fuel);
      r.Some? ==> SameOtherKinds(out, r.value, k)
    decreases fuel, Measure(idx, i)
  {
    if i < |idx| {
      var st := Step(meets, inter, k, FilterState(idx, Empty, out), i);
      StepKeepsOtherKinds(meets, inter, k, idx, i, out);
      PassTurn(meets, inter, k, idx, i, out, fuel);
      if |st.idx| <= |idx| + 1 || fuel > 0 {
        var f: nat := if |st.idx| <= |idx| + 1 then fuel else fuel - 1;
        assert FilterPass(meets, inter, k, idx, i, out, fuel) == FilterPass(meets, inter, k, st.idx, i + 1, st.out, f);
        if f == fuel {
          StepShrinks(meets, inter, k, idx, i, out);
        }
        PassKeepsOtherKinds(meets, inter, k, st.idx, i + 1, st.out, f);
      }
    }
  }

  /** The three kinds' passes all have single-piece intersections. */
  ghost predicate OnePieceEach(inter: Dimensions.Intersection)
  {
    OnePiece(inter, PrimitivePoint) && OnePiece(inter, PrimitiveSegment) && OnePiece(inter, PrimitiveSurface)
  }

  /** The passes for the first n kinds (points, then segments, then surfaces), corrected; None once a pass runs out of fuel. */
  function FilterKinds(meets: Meets, inter: Dimensions.Intersection, input: GSet, out: GSet, n: nat, fuel: nat): (r: Option<GSet>)
    requires n <= 3 && out.Valid()
    ensures r.Some? ==> r.value.Valid()
  {
    if n == 0 then Some(out)
    else
      match FilterKinds(meets, inter, input, out, n - 1, fuel)
      case None => None
      case Some(o) => FilterPass(meets, inter, TypeOfTag(n - 1).value, Wrap(input.Selection(n - 1)), 0, o, fuel)
  }

  /** filter_self_intersection, corrected: the three passes; volumes get none. */
  function Filtered(meets: Meets, inter: Dimensions.Intersection, input: GSet, out: GSet, fuel: nat): (r: Option<GSet>)
    requires out.Valid()
    ensures r.Some? ==> r.value.Valid()
  {
    FilterKinds(meets, inter, input, out, 3, fuel)
  }

  /** Once a pass has run out of fuel, so has the next one. */
  lemma FilterKindsNoneNext(meets: Meets, inter: Dimensions.Intersection, input: GSet, out: GSet, n: nat, fuel: nat)
    requires n < 3 && out.Valid() && FilterKinds(meets, inter, input, out, n, fuel).None?
    ensures FilterKinds(meets, inter, input, out, n + 1, fuel).None?
  {
  }

  /** Once a pass has run out of fuel, so have the passes after it. */
  lemma {:induction false} FilterKindsStayNone(meets: Meets, inter: Dimensions.Intersection, input: GSet, out: GSet, n: nat, m: nat, fuel: nat)
    requires n <= m <= 3 && out.Valid() && FilterKinds(meets, inter, input, out, n, fuel).None?
    ensures FilterKinds(meets, inter, input, out, m, fuel).None?
    decreases m
  {
    if m > n {
      FilterKindsStayNone(meets, inter, input, out, n, m - 1, fuel);
      FilterKindsNoneNext(meets, inter, input, out, m - 1, fuel);
    }
  }

  /** The corrected filter never emits a volume, and changes nothing else but the kinds it filters. */
  lemma {:induction false} FilterKeepsVolumes(meets: Meets, inter: Dimensions.Intersection, input: GSet, out: GSet, n: nat, fuel: nat)
    requires n <= 3 && input.Valid() && out.Valid()
    ensures var r := FilterKinds(meets, inter, input, out, n, fuel);
      r.Some? ==> r.value.volumes == out.volumes
  {
    if n > 0 {
      var k := TypeOfTag(n - 1).value;
      FilterKeepsVolumes(meets, inter, input, out, n - 1, fuel);
      var prev := FilterKinds(meets, inter, input, out, n - 1, fuel);
      if prev.Some? {
        SelectionOfValid(input, k);
        PassKeepsOtherKinds(meets, inter, k, Wrap(input.Selection(n - 1)), 0, prev.value, fuel);
      }
    }
  }

  /** With single-piece intersections in every kind, the filter ends whatever its fuel. */
  lemma {:induction false} FilterEnds(meets: Meets, inter: Dimensions.Intersection, input: GSet, out: GSet, n: nat, fuel: nat)
    requires n <= 3 && input.Valid() && out.Valid() && OnePieceEach(inter)
    ensures FilterKinds(meets, inter, input, out, n, fuel).Some?
  {
    if n > 0 {
      var k := TypeOfTag(n - 1).value;
      FilterEnds(meets, inter, input, out, n - 1, fuel);
      var prev := FilterKinds(meets, inter, input, out, n - 1, fuel);
      SelectionOfValid(input, k);
      PassEnds(meets, inter, k, Wrap(input.Selection(n - 1)), 0, prev.value, fuel);
    }
  }

  /** No two primitives of the run meet. */
  predicate NoTwoHit(meets: Meets, xs: seq<Primitive>)
  {
    forall l, m :: 0 <= l < m < |xs| ==> !Hit(meets, xs[l], xs[m])
  }

  /** The primitives with their flags cleared, as the PrimitiveBase insertion stores them. */
  function BareAll(xs: seq<Primitive>): (r: seq<Primitive>)
    ensures |r| == |xs| && forall l :: 0 <= l < |xs| ==> r[l] == Bare(xs[l])
  {
    seq(|xs|, l requires 0 <= l < |xs| => Bare(xs[l]))
  }

  lemma AddAllCons(g: GSet, x: Primitive, ys: seq<Primitive>)
    requires g.Valid()
    ensures AddAll(g, [x] + ys) == AddAll(Add(g, x), ys)
  {
    AddAllAppend(g, [x], ys);
    AddAllPair(g, x, x);
  }

  /** When no two handles meet, a pass emits every primitive, in order, whatever its fuel. */
  lemma {:induction false} PassWithoutHits(meets: Meets, inter: Dimensions.Intersection, k: PrimitiveType,
                                           idx: seq<Option<Primitive>>, i: nat, out: GSet, xs: seq<Primitive>, fuel: nat)
    requires i <= |idx| && out.Valid()
    requires idx[i..] == Wrap(xs) && NoTwoHit(meets, xs)
    ensures FilterPass(meets, inter, k, idx, i, out, fuel) == Some(AddAll(out, BareAll(xs)))
    decreases |xs|
  {
    if xs == [] {
      assert i == |idx|;
    } else {
      assert BareAll(xs) == [Bare(xs[0])] + BareAll(xs[1..]);
      var st := Step(meets, inter, k, FilterState(idx, Empty, out), i);
      StepWithoutHits(meets, inter, k, idx, i, out, xs);
      PassWithoutHits(meets, inter, k, st.idx, i + 1, st.out, xs[1..], fuel);
      AddAllCons(out, Bare(xs[0]), BareAll(xs[1..]));
    }
  }

  /** One step of such a pass: the head is emitted as it is and the rest is left to come. */
  lemma StepWithoutHits(meets: Meets, inter: Dimensions.Intersection, k: PrimitiveType,
                        idx: seq<Option<Primitive>>, i: nat, out: GSet, xs: seq<Primitive>)
    requires i < |idx| && out.Valid()
    requires idx[i..] == Wrap(xs) && NoTwoHit(meets, xs) && xs != []
    ensures var st := Step(meets, inter, k, FilterState(idx, Empty, out), i);
      && st.idx == idx[i := None] && st.out == Add(out, Bare(xs[0]))
      && st.idx[i + 1..] == Wrap(xs[1..]) && NoTwoHit(meets, xs[1..])
  {
    assert idx[i] == Some(xs[0]);
    var st := Step(meets, inter, k, FilterState(idx, Empty, out), i);
    assert st.idx == idx[i := None];
    assert st.idx[i + 1..] == Wrap(xs[1..]);
    forall l, m | 0 <= l < m < |xs| - 1 ensures !Hit(meets, xs[1..][l], xs[1..][m]) {
      assert xs[1..][l] == xs[l + 1] && xs[1..][m] == xs[m + 1];
    }
  }

  lemma PassWithoutHitsFromStart(meets: Meets, inter: Dimensions.Intersection, k: PrimitiveType, xs: seq<Primitive>, out: GSet, fuel: nat)
    requires out.Valid() && NoTwoHit(meets, xs)
    ensures FilterPass(meets, inter, k, Wrap(xs), 0, out, fuel) == Some(AddAll(out, BareAll(xs)))
  {
    assert Wrap(xs)[0..] == Wrap(xs);
    PassWithoutHits(meets, inter, k, Wrap(xs), 0, out, xs, fuel);
  }

  lemma BareAllAppend3(a: seq<Primitive>, b: seq<Primitive>, c: seq<Primitive>)
    ensures BareAll(a + b + c) == BareAll(a) + BareAll(b) + BareAll(c)
  {
  }

  /**
    If no two points, no two segments and no two surfaces of the input meet,
    the filter emits every point, segment and surface of the input, flags
    cleared, whatever its fuel; volumes are dropped.
  */
  lemma FilteredWithoutHits(meets: Meets, inter: Dimensions.Intersection, input: GSet, out: GSet, fuel: nat)
    requires out.Valid()
    requires NoTwoHit(meets, input.points) && NoTwoHit(meets, input.segments) && NoTwoHit(meets, input.surfaces)
    ensures Filtered(meets, inter, input, out, fuel) == Some(AddAll(out, BareAll(input.points + input.segments + input.surfaces)))
  {
    assert TypeOfTag(0).value == PrimitivePoint && TypeOfTag(1).value == PrimitiveSegment;
    assert TypeOfTag(2).value == PrimitiveSurface;
    assert input.Selection(0) == input.points && input.Selection(1) == input.segments;
    assert input.Selection(2) == input.surfaces;
    var P, S, F := BareAll(input.points), BareAll(input.segments), BareAll(input.surfaces);
    var o1 := AddAll(out, P);
    var o2 := AddAll(o1, S);
    PassWithoutHitsFromStart(meets, inter, PrimitivePoint, input.points, out, fuel);
    assert FilterKinds(meets, inter, input, out, 1, fuel) == Some(o1);
    PassWithoutHitsFromStart(meets, inter, PrimitiveSegment, input.segments, o1, fuel);
    assert FilterKinds(meets, inter, input, out, 2, fuel) == Some(o2);
    PassWithoutHitsFromStart(meets, inter, PrimitiveSurface, input.surfaces, o2, fuel);
    AddAllAppend(out, P, S);
    AddAllAppend(out, P + S, F);
    BareAllAppend3(input.points, input.segments, input.surfaces);
  }

  /** The inner loop over j: the first later live handle that x hits. */
  method FindHit(meets: Meets, x: Primitive, idx: seq<Option<Primitive>>, from: nat) returns (r: Option<nat>)
    requires from <= |idx|
    ensures r == FirstHit(meets, x, idx, from)
  {
    var j := from;
    while j < |idx|
      invariant from <= j <= |idx|
      invariant FirstHit(meets, x, idx, j) == FirstHit(meets, x, idx, from)
    {
      if idx[j].Some? && Overlap(BoxOf(x), BoxOf(idx[j].value)) && meets(x, idx[j].value) {
        return Some(j);
      }
      j := j + 1;
    }
    return None;
  }

  /** One turn of the pass, unfolded: a turn that pushes at most one piece also lowers Measure. */
  lemma PassTurn(meets: Meets, inter: Dimensions.Intersection, k: PrimitiveType, idx: seq<Option<Primitive>>, i: nat, out: GSet, fuel: nat)
    requires i < |idx| && out.Valid()
    ensures var st := Step(meets, inter, k, FilterState(idx, Empty, out), i);
      && (|st.idx| <= |idx| + 1 ==> FilterPass(meets, inter, k, idx, i, out, fuel) == FilterPass(meets, inter, k, st.idx, i + 1, st.out, fuel))
      && (|st.idx| <= |idx| + 1 ==> Measure(st.idx, i + 1) < Measure(idx, i))
      && (|st.idx| > |idx| + 1 && fuel == 0 ==> FilterPass(meets, inter, k, idx, i, out, fuel) == None)
      && (|st.idx| > |idx| + 1 && fuel > 0 ==> FilterPass(meets, inter, k, idx, i, out, fuel) == FilterPass(meets, inter, k, st.idx, i + 1, st.out, fuel - 1))
  {
    var st := Step(meets, inter, k, FilterState(idx, Empty, out), i);
    if |st.idx| <= |idx| + 1 {
      StepShrinks(meets, inter, k, idx, i, out);
    }
  }

  /**
    The loop of FilterKind after one turn has produced next and out1, with
    fuel f2 left: the rest of the pass gives the same result r, and either
    the fuel or Measure has gone down. A turn that pushes two or more
    pieces with no fuel left ends the pass with None.
  */
  lemma TurnKeepsPass(meets: Meets, inter: Dimensions.Intersection, k: PrimitiveType, idx: seq<Option<Primitive>>, i: nat,
                      out0: GSet, f: nat, next: seq<Option<Primitive>>, out1: GSet, r: Option<GSet>, f2: int)
    requires i < |idx| && out0.Valid() && FilterPass(meets, inter, k, idx, i, out0, f) == r
    requires var st := Step(meets, inter, k, FilterState(idx, Empty, out0), i);
      next == st.idx && out1 == st.out
    requires f2 == if |next| > |idx| + 1 then f - 1 else f
    ensures i + 1 <= |next| && out1.Valid()
    ensures f2 >= 0 ==> FilterPass(meets, inter, k, next, i + 1, out1, f2) == r
    ensures f2 < f || Measure(next, i + 1) < Measure(idx, i)
    ensures f2 < 0 ==> r.None?
  {
    PassTurn(meets, inter, k, idx, i, out0, f);
  }

  /**
    One kind's pass of filter_self_intersection, with the temp set made
    fresh for each intersecting pair. It reports false, leaving the rest of
    the table unvisited, when the pass needs more fuel than it is given.
  */
  method FilterKind(meets: Meets, inter: Dimensions.Intersection, k: PrimitiveType, idx0: seq<Option<Primitive>>, output: GeometrySet, fuel: nat)
    returns (done: bool)
    requires output.Valid()
    modifies output
    ensures output.Valid()
    ensures var r := FilterPass(meets, inter, k, idx0, 0, old(output.Value()), fuel);
      done == r.Some? && (done ==> output.Value() == r.value)
  {
    ghost var r := FilterPass(meets, inter, k, idx0, 0, output.Value(), fuel);
    var idx := idx0;
    var i := 0;
    var f: nat := fuel;
    while i < |idx|
      invariant i <= |idx| && output.Valid()
      invariant FilterPass(meets, inter, k, idx, i, output.Value(), f) == r
      decreases f, Measure(idx, i)
    {
      ghost var out0 := output.Value();
      var next := FilterTurn(meets, inter, k, idx, i, output);
      var f2: int := if |next| > |idx| + 1 then f - 1 else f;
      TurnKeepsPass(meets, inter, k, idx, i, out0, f, next, output.Value(), r, f2);
      if f2 < 0 {
        return false;
      }
      idx, i, f := next, i + 1, f2;
    }
    return true;
  }

  /** One turn of the pass at position i: the table and the output after the turn are those of Step. */
  method FilterTurn(meets: Meets, inter: Dimensions.Intersection, k: PrimitiveType, idx: seq<Option<Primitive>>, i: nat, output: GeometrySet)
    returns (idx': seq<Option<Primitive>>)
    requires i < |idx| && output.Valid()
    modifies output
    ensures var st := Step(meets, inter, k, FilterState(idx, Empty, old(output.Value())), i);
      output.Valid() && idx' == st.idx && output.Value() == st.out
  {
    idx' := idx;
    if idx[i].Some? {
      var x := idx[i].value;
      var hit := FindHit(meets, x, idx, i + 1);
      if hit.Some? {
        var j := hit.value;
        var temp := new GeometrySet();
        temp.AddRange(inter(x, idx[j].value));
        idx' := PushPieces(idx, temp.Value().Selection(k.Tag()));
        idx' := idx'[j := None];
      } else {
        output.AddPrimitiveBase(x);
      }
      idx' := idx'[i := None];
    }
  }

  /** The handles of the pieces pushed, in order, at the end of the table. */
  method PushPieces(idx: seq<Option<Primitive>>, sel: seq<Primitive>) returns (r: seq<Option<Primitive>>)
    ensures r == idx + Wrap(sel)
  {
    r := idx;
    for m := 0 to |sel|
      invariant r == idx + Wrap(sel[..m])
    {
      assert Wrap(sel[..m + 1]) == Wrap(sel[..m]) + [Some(sel[m])];
      r := r + [Some(sel[m])];
    }
    assert sel[..|sel|] == sel;
  }

  /**
    filter_self_intersection (corrected): points, then segments, then
    surfaces of the input. It reports false when a pass runs out of fuel.
  */
  method FilterSelfIntersection(meets: Meets, inter: Dimensions.Intersection, input: GeometrySet, output: GeometrySet, fuel: nat)
    returns (done: bool)
    requires input.Valid() && output.Valid() && input != output
    modifies output
    ensures output.Valid()
    ensures var r := Filtered(meets, inter, old(input.Value()), old(output.Value()), fuel);
      done == r.Some? && (done ==> output.Value() == r.value)
  {
    for ptype := 0 to 3
      invariant output.Valid() && FilterKinds(meets, inter, input.Value(), old(output.Value()), ptype, fuel) == Some(output.Value())
    {
      var k := TypeOfTag(ptype).value;
      done := FilterKind(meets, inter, k, Wrap(input.Value().Selection(ptype)), output, fuel);
      if !done {
        FilterKindsStayNone(meets, inter, input.Value(), old(output.Value()), ptype + 1, 3, fuel);
        return;
      }
    }
    done := true;
  }

  // ---------------------------------------------------------------------
  // difference: every primitive of a against every primitive of b
  // ---------------------------------------------------------------------

  /** Some primitive of bs passes the pair test with pa. */
  predicate HitsAny(meets: Meets, pa: Primitive, bs: seq<Primitive>)
  {
    exists j :: 0 <= j < |bs| && Hit(meets, pa, bs[j])
  }

  /** A run hits pa exactly when its front does or its last primitive does. */
  lemma HitsAnySnoc(meets: Meets, pa: Primitive, bs: seq<Primitive>)
    requires |bs| > 0
    ensures HitsAny(meets, pa, bs) == (HitsAny(meets, pa, bs[..|bs| - 1]) || Hit(meets, pa, bs[|bs| - 1]))
  {
    var init := bs[..|bs| - 1];
    if HitsAny(meets, pa, bs) && !Hit(meets, pa, bs[|bs| - 1]) {
      var l :| 0 <= l < |bs| && Hit(meets, pa, bs[l]);
      assert init[l] == bs[l];
    }
    if HitsAny(meets, pa, init) {
      var l :| 0 <= l < |init| && Hit(meets, pa, init[l]);
      assert bs[l] == init[l];
    }
  }

  /** tempOut after the inner loop has run over bs: the remainders of pa against each primitive it hits, in order. */
  function RowOut(meets: Meets, inter: Dimensions.Intersection, polyDiff: PolygonDifference, pa: Primitive, bs: seq<Primitive>): (r: GSet)
    requires SubSegmentResults(inter)
    ensures r.Valid()
    ensures !HitsAny(meets, pa, bs) ==> r == Empty
    ensures pa.shape.PointShape? ==> r == Empty
    ensures pa.shape.SegmentShape? ==> r.points == [] && r.surfaces == [] && r.volumes == []
    decreases |bs|
  {
    if bs == [] then Empty
    else
      var prev := RowOut(meets, inter, polyDiff, pa, bs[..|bs| - 1]);
      var pb := bs[|bs| - 1];
      assert !HitsAny(meets, pa, bs) ==> !HitsAny(meets, pa, bs[..|bs| - 1]) by {
        if HitsAny(meets, pa, bs[..|bs| - 1]) {
          var j :| 0 <= j < |bs| - 1 && Hit(meets, pa, bs[..|bs| - 1][j]);
          assert bs[j] == bs[..|bs| - 1][j];
        }
      }
      if Hit(meets, pa, pb) then
        var rest := Remainder(inter, polyDiff, pa, pb);
        if pa.shape.SegmentShape? then
          AddAllOfOneKind(prev, rest, PrimitiveSegment);
          AddAll(prev, rest)
        else
          assert pa.shape.PointShape? ==> rest == [] && AddAll(prev, []) == prev;
          AddAll(prev, rest)
      else prev
  }

  /** One more primitive of b that meets a segment pa adds its remainder to tempOut. */
  lemma RowOutSnoc(meets: Meets, inter: Dimensions.Intersection, polyDiff: PolygonDifference, pa: Primitive, bs: seq<Primitive>, pb: Primitive)
    requires SubSegmentResults(inter) && pa.shape.SegmentShape? && Hit(meets, pa, pb)
    ensures RowOut(meets, inter, polyDiff, pa, bs + [pb]) == AddAll(RowOut(meets, inter, polyDiff, pa, bs), Remainder(inter, polyDiff, pa, pb))
  {
    assert (bs + [pb])[..|bs|] == bs;
  }

  /** tempOut when it reaches the filter: the remainders, or pa itself (flags cleared) when nothing in b met it. */
  function RowResult(meets: Meets, inter: Dimensions.Intersection, polyDiff: PolygonDifference, pa: Primitive, bs: seq<Primitive>): (r: GSet)
    requires SubSegmentResults(inter)
    ensures r.Valid()
  {
    if HitsAny(meets, pa, bs) then RowOut(meets, inter, polyDiff, pa, bs) else Add(Empty, Bare(pa))
  }

  /**
    The outer loop over the primitives of a, each row filtered into the
    output; None once a row's filter runs out of fuel. The filter never
    emits a volume, so the output's volumes are the ones it started with.
  */
  function Rows(meets: Meets, inter: Dimensions.Intersection, polyDiff: PolygonDifference,
                ps: seq<Primitive>, bs: seq<Primitive>, out: GSet, fuel: nat): (r: Option<GSet>)
    requires out.Valid() && SubSegmentResults(inter)
    ensures r.Some? ==> r.value.Valid() && r.value.volumes == out.volumes
    decreases |ps|
  {
    if ps == [] then Some(out)
    else
      match Rows(meets, inter, polyDiff, ps[..|ps| - 1], bs, out, fuel)
      case None => None
      case Some(prev) =>
        var row := RowResult(meets, inter, polyDiff, ps[|ps| - 1], bs);
        FilterKeepsVolumes(meets, inter, row, prev, 3, fuel);
        Filtered(meets, inter, row, prev, fuel)
  }

  /** difference(a, b, output): the value the output set ends with, or None when a filter runs out of fuel. */
  function DifferenceOf(meets: Meets, inter: Dimensions.Intersection, polyDiff: PolygonDifference, a: GSet, b: GSet, out: GSet, fuel: nat): (r: Option<GSet>)
    requires out.Valid() && SubSegmentResults(inter)
    ensures r.Some? ==> r.value.Valid() && r.value.volumes == out.volumes
  {
    Rows(meets, inter, polyDiff, a.Primitives(), b.Primitives(), out, fuel)
  }

  lemma RowsSnoc(meets: Meets, inter: Dimensions.Intersection, polyDiff: PolygonDifference,
                 ps: seq<Primitive>, pa: Primitive, bs: seq<Primitive>, out: GSet, fuel: nat)
    requires out.Valid() && SubSegmentResults(inter)
    ensures var prev := Rows(meets, inter, polyDiff, ps, bs, out, fuel);
      prev.None? ==> Rows(meets, inter, polyDiff, ps + [pa], bs, out, fuel).None?
    ensures var prev := Rows(meets, inter, polyDiff, ps, bs, out, fuel);
      prev.Some? ==>
        Rows(meets, inter, polyDiff, ps + [pa], bs, out, fuel)
          == Filtered(meets, inter, RowResult(meets, inter, polyDiff, pa, bs), prev.value, fuel)
  {
    assert (ps + [pa])[..|ps|] == ps;
  }

  /** With single-piece intersections in every kind, the difference ends whatever its fuel. */
  lemma {:induction false} RowsEnd(meets: Meets, inter: Dimensions.Intersection, polyDiff: PolygonDifference,
                                   ps: seq<Primitive>, bs: seq<Primitive>, out: GSet, fuel: nat)
    requires out.Valid() && SubSegmentResults(inter) && OnePieceEach(inter)
    ensures Rows(meets, inter, polyDiff, ps, bs, out, fuel).Some?
    decreases |ps|
  {
    if ps != [] {
      RowsEnd(meets, inter, polyDiff, ps[..|ps| - 1], bs, out, fuel);
      var prev := Rows(meets, inter, polyDiff, ps[..|ps| - 1], bs, out, fuel);
      FilterEnds(meets, inter, RowResult(meets, inter, polyDiff, ps[|ps| - 1], bs), prev.value, 3, fuel);
    }
  }

  /** Two sets of points and segments only: the difference always ends. */
  lemma DifferenceOfEnds(meets: Meets, inter: Dimensions.Intersection, polyDiff: PolygonDifference, a: GSet, b: GSet, out: GSet, fuel: nat)
    requires out.Valid() && SubSegmentResults(inter) && OnePieceEach(inter)
    ensures DifferenceOf(meets, inter, polyDiff, a, b, out, fuel).Some?
  {
    RowsEnd(meets, inter, polyDiff, a.Primitives(), b.Primitives(), out, fuel);
  }

  /** A primitive that meets nothing in b is filtered into the output alone, and so kept: only volumes are dropped. */
  lemma RowWithoutHits(meets: Meets, inter: Dimensions.Intersection, polyDiff: PolygonDifference, pa: Primitive, bs: seq<Primitive>, out: GSet, fuel: nat)
    requires out.Valid() && SubSegmentResults(inter) && !HitsAny(meets, pa, bs)
    ensures Filtered(meets, inter, RowResult(meets, inter, polyDiff, pa, bs), out, fuel)
         == Some(if pa.GetType() == PrimitiveVolume then out else Add(out, Bare(pa)))
  {
    var row := Add(Empty, Bare(pa));
    FilteredWithoutHits(meets, inter, row, out, fuel);
    var kept := row.points + row.segments + row.surfaces;
    if pa.GetType() == PrimitiveVolume {
      assert kept == [];
      assert AddAll(out, BareAll(kept)) == out;
    } else {
      if Ordered(pa.GetType()) {
        assert SetInsert([], Bare(pa)) == [Bare(pa)];
      }
      assert kept == [Bare(pa)];
      assert BareAll(kept) == [Bare(pa)];
      AddAllPair(out, Bare(pa), Bare(pa));
    }
  }

  /** No primitive of either run meets a primitive of the other. */
  predicate Disjoint(meets: Meets, ps: seq<Primitive>, bs: seq<Primitive>)
  {
    forall i :: 0 <= i < |ps| ==> !HitsAny(meets, ps[i], bs)
  }

  /** Kinds other than volumes. */
  predicate NoVolumes(xs: seq<Primitive>)
  {
    forall i :: 0 <= i < |xs| ==> xs[i].GetType() != PrimitiveVolume
  }

  lemma DisjointInit(meets: Meets, ps: seq<Primitive>, bs: seq<Primitive>)
    requires |ps| > 0 && Disjoint(meets, ps, bs)
    ensures Disjoint(meets, ps[..|ps| - 1], bs) && !HitsAny(meets, ps[|ps| - 1], bs)
  {
    var init := ps[..|ps| - 1];
    forall i | 0 <= i < |init| ensures !HitsAny(meets, init[i], bs) { assert init[i] == ps[i]; }
  }

  lemma NoVolumesInit(ps: seq<Primitive>)
    requires |ps| > 0 && NoVolumes(ps)
    ensures NoVolumes(ps[..|ps| - 1]) && ps[|ps| - 1].GetType() != PrimitiveVolume
  {
    var init := ps[..|ps| - 1];
    forall i | 0 <= i < |init| ensures init[i].GetType() != PrimitiveVolume { assert init[i] == ps[i]; }
  }

  /** When no row meets anything in b, every primitive of the rows is kept, flags cleared. */
  lemma {:induction false} RowsWithoutHits(meets: Meets, inter: Dimensions.Intersection, polyDiff: PolygonDifference,
                                           ps: seq<Primitive>, bs: seq<Primitive>, out: GSet, fuel: nat)
    requires out.Valid() && SubSegmentResults(inter) && Disjoint(meets, ps, bs) && NoVolumes(ps)
    ensures Rows(meets, inter, polyDiff, ps, bs, out, fuel) == Some(AddAll(out, BareAll(ps)))
    decreases |ps|
  {
    if ps == [] {
      assert BareAll(ps) == [];
    } else {
      var init, pa := ps[..|ps| - 1], ps[|ps| - 1];
      assert ps == init + [pa];
      assert BareAll(ps) == BareAll(init) + [Bare(pa)];
      DisjointInit(meets, ps, bs);
      NoVolumesInit(ps);
      RowsWithoutHits(meets, inter, polyDiff, init, bs, out, fuel);
      RowsSnoc(meets, inter, polyDiff, init, pa, bs, out, fuel);
      RowWithoutHits(meets, inter, polyDiff, pa, bs, AddAll(out, BareAll(init)), fuel);
      AddAllSnoc(out, BareAll(init), Bare(pa));
    }
  }

  /** Volumes that meet nothing in b leave the output as it was. */
  lemma {:induction false} VolumeRowsWithoutHits(meets: Meets, inter: Dimensions.Intersection, polyDiff: PolygonDifference,
                                                 ps: seq<Primitive>, bs: seq<Primitive>, out: GSet, fuel: nat)
    requires out.Valid() && SubSegmentResults(inter) && Disjoint(meets, ps, bs)
    requires AllOfType(ps, PrimitiveVolume)
    ensures Rows(meets, inter, polyDiff, ps, bs, out, fuel) == Some(out)
    decreases |ps|
  {
    if ps != [] {
      var init, pa := ps[..|ps| - 1], ps[|ps| - 1];
      assert ps == init + [pa];
      DisjointInit(meets, ps, bs);
      assert AllOfType(init, PrimitiveVolume) by {
        forall i | 0 <= i < |init| ensures init[i].GetType() == PrimitiveVolume { assert init[i] == ps[i]; }
      }
      VolumeRowsWithoutHits(meets, inter, polyDiff, init, bs, out, fuel);
      RowsSnoc(meets, inter, polyDiff, init, pa, bs, out, fuel);
      RowWithoutHits(meets, inter, polyDiff, pa, bs, out, fuel);
    }
  }

  lemma {:induction false} RowsAppend(meets: Meets, inter: Dimensions.Intersection, polyDiff: PolygonDifference,
                                      xs: seq<Primitive>, ys: seq<Primitive>, bs: seq<Primitive>, out: GSet, fuel: nat)
    requires out.Valid() && SubSegmentResults(inter)
    ensures var front := Rows(meets, inter, polyDiff, xs, bs, out, fuel);
      front.None? ==> Rows(meets, inter, polyDiff, xs + ys, bs, out, fuel).None?
    ensures var front := Rows(meets, inter, polyDiff, xs, bs, out, fuel);
      front.Some? ==> Rows(meets, inter, polyDiff, xs + ys, bs, out, fuel) == Rows(meets, inter, polyDiff, ys, bs, front.value, fuel)
    decreases |ys|
  {
    if ys == [] {
      assert xs + ys == xs;
    } else {
      var init, y := ys[..|ys| - 1], ys[|ys| - 1];
      assert xs + ys == (xs + init) + [y] && ys == init + [y];
      RowsAppend(meets, inter, polyDiff, xs, init, bs, out, fuel);
      RowsSnoc(meets, inter, polyDiff, xs + init, y, bs, out, fuel);
      var front := Rows(meets, inter, polyDiff, xs, bs, out, fuel);
      if front.Some? {
        RowsSnoc(meets, inter, polyDiff, init, y, bs, front.value, fuel);
      }
    }
  }

  /**
    When nothing in a meets anything in b (in particular when b is empty),
    the difference adds a's points, segments and surfaces, flags cleared,
    and drops its volumes, whatever its fuel.
  */
  lemma DifferenceOfDisjoint(meets: Meets, inter: Dimensions.Intersection, polyDiff: PolygonDifference, a: GSet, b: GSet, out: GSet, fuel: nat)
    requires a.Valid() && out.Valid() && SubSegmentResults(inter)
    requires Disjoint(meets, a.Primitives(), b.Primitives())
    ensures DifferenceOf(meets, inter, polyDiff, a, b, out, fuel) == Some(AddAll(out, BareAll(a.points + a.segments + a.surfaces)))
  {
    var kept := a.points + a.segments + a.surfaces;
    var bs := b.Primitives();
    assert a.Primitives() == kept + a.volumes;
    assert Disjoint(meets, kept, bs) by {
      forall i | 0 <= i < |kept| ensures !HitsAny(meets, kept[i], bs) { assert kept[i] == a.Primitives()[i]; }
    }
    assert Disjoint(meets, a.volumes, bs) by {
      forall i | 0 <= i < |a.volumes| ensures !HitsAny(meets, a.volumes[i], bs) { assert a.volumes[i] == a.Primitives()[|kept| + i]; }
    }
    assert NoVolumes(kept) by {
      forall i | 0 <= i < |kept| ensures kept[i].GetType() != PrimitiveVolume {
        if i < |a.points| { assert kept[i] == a.points[i]; }
        else if i < |a.points| + |a.segments| { assert kept[i] == a.segments[i - |a.points|]; }
        else { assert kept[i] == a.surfaces[i - |a.points| - |a.segments|]; }
      }
    }
    RowsAppend(meets, inter, polyDiff, kept, a.volumes, bs, out, fuel);
    RowsWithoutHits(meets, inter, polyDiff, kept, bs, out, fuel);
    VolumeRowsWithoutHits(meets, inter, polyDiff, a.volumes, bs, AddAll(out, BareAll(kept)), fuel);
  }

  /** Every primitive carries flags 0. */
  predicate Unflagged(xs: seq<Primitive>)
  {
    forall i :: 0 <= i < |xs| ==> xs[i].flags == 0
  }

  lemma BareAllUnflagged(xs: seq<Primitive>)
    requires Unflagged(xs)
    ensures BareAll(xs) == xs
  {
    forall i | 0 <= i < |xs| ensures BareAll(xs)[i] == xs[i] {
      assert xs[i] == Primitive(xs[i].shape, 0);
    }
  }

  /** Subtracting the empty set from a set without volumes or flags gives the set back. */
  lemma DifferenceWithEmpty(meets: Meets, inter: Dimensions.Intersection, polyDiff: PolygonDifference, a: GSet, fuel: nat)
    requires a.Valid() && !a.complete && a.volumes == [] && Unflagged(a.Primitives())
    requires SubSegmentResults(inter)
    ensures DifferenceOf(meets, inter, polyDiff, a, Empty, Empty, fuel) == Some(a)
  {
    NothingToMeet(meets, a.Primitives(), Empty);
    DifferenceOfDisjoint(meets, inter, polyDiff, a, Empty, Empty, fuel);
    KeptIsEverything(a);
    AddAllOwnPrimitives(a);
  }

  lemma NothingToMeet(meets: Meets, ps: seq<Primitive>, b: GSet)
    requires b == Empty
    ensures Disjoint(meets, ps, b.Primitives())
  {
    assert b.Primitives() == [];
  }

  /** Without volumes or flags, the kept primitives are all of the set's primitives. */
  lemma KeptIsEverything(a: GSet)
    requires a.volumes == [] && Unflagged(a.Primitives())
    ensures BareAll(a.points + a.segments + a.surfaces) == a.Primitives()
  {
    assert a.points + a.segments + a.surfaces == a.Primitives();
    BareAllUnflagged(a.Primitives());
  }

  /** A point that meets something in b leaves nothing: its row is empty and the output is unchanged. */
  lemma CoveredPointVanishes(meets: Meets, inter: Dimensions.Intersection, polyDiff: PolygonDifference, pa: Primitive, bs: seq<Primitive>, out: GSet, fuel: nat)
    requires out.Valid() && SubSegmentResults(inter)
    requires pa.shape.PointShape? && HitsAny(meets, pa, bs)
    ensures Filtered(meets, inter, RowResult(meets, inter, polyDiff, pa, bs), out, fuel) == Some(out)
  {
    assert RowResult(meets, inter, polyDiff, pa, bs) == Empty;
    FilteredWithoutHits(meets, inter, Empty, out, fuel);
    assert BareAll([]) == [];
  }

  /** The inner loop over b for one primitive pa of a, with the row's temp set made fresh. */
  method DifferenceRow(meets: Meets, inter: Dimensions.Intersection, polyDiff: PolygonDifference,
                       pa: Primitive, paBox: Option<Box>, bh: seq<Primitive>, bboxes: seq<HandleBox>)
      returns (tempOut: GeometrySet)
    requires SubSegmentResults(inter) && paBox == BoxOf(pa)
    requires forall j :: 0 <= j < |bboxes| ==> bboxes[j].handle < |bh| && bboxes[j].box == BoxOf(bh[bboxes[j].handle])
    ensures fresh(tempOut) && tempOut.Valid()
    ensures tempOut.Value() == RowResult(meets, inter, polyDiff, pa, HandlesOf(bh, bboxes))
  {
    ghost var bs := HandlesOf(bh, bboxes);
    tempOut := new GeometrySet();
    var intersectsA := false;
    for j := 0 to |bboxes|
      invariant tempOut.Valid() && tempOut.Value() == RowOut(meets, inter, polyDiff, pa, bs[..j])
      invariant intersectsA == HitsAny(meets, pa, bs[..j])
    {
      assert bs[..j + 1][..j] == bs[..j] && bs[..j + 1][j] == bs[j];
      HitsAnySnoc(meets, pa, bs[..j + 1]);
      if Overlap(paBox, bboxes[j].box) {
        var pb := bh[bboxes[j].handle];
        if meets(pa, pb) {
          intersectsA := true;
          DifferencePrimitive(inter, polyDiff, pa, pb, tempOut);
        }
      }
    }
    assert bs[..|bboxes|] == bs;
    if !intersectsA {
      tempOut.AddPrimitiveBase(pa);
    }
  }

  /** The primitives the box handles name. */
  function HandlesOf(handles: seq<Primitive>, boxes: seq<HandleBox>): (r: seq<Primitive>)
    requires forall j :: 0 <= j < |boxes| ==> boxes[j].handle < |handles|
    ensures |r| == |boxes| && forall j :: 0 <= j < |boxes| ==> r[j] == handles[boxes[j].handle]
  {
    seq(|boxes|, j requires 0 <= j < |boxes| => handles[boxes[j].handle])
  }

  /** One turn of the outer loop: pa's row, filtered into the output; false when the filter runs out of fuel. */
  method DifferenceTurn(meets: Meets, inter: Dimensions.Intersection, polyDiff: PolygonDifference,
                        pa: Primitive, paBox: Option<Box>, bh: seq<Primitive>, bboxes: seq<HandleBox>, output: GeometrySet, fuel: nat)
      returns (done: bool)
    requires SubSegmentResults(inter) && paBox == BoxOf(pa) && output.Valid()
    requires forall j :: 0 <= j < |bboxes| ==> bboxes[j].handle < |bh| && bboxes[j].box == BoxOf(bh[bboxes[j].handle])
    modifies output
    ensures output.Valid()
    ensures var r := Filtered(meets, inter, RowResult(meets, inter, polyDiff, pa, HandlesOf(bh, bboxes)), old(output.Value()), fuel);
      done == r.Some? && (done ==> output.Value() == r.value)
  {
    var tempOut := DifferenceRow(meets, inter, polyDiff, pa, paBox, bh, bboxes);
    done := FilterSelfIntersection(meets, inter, tempOut, output, fuel);
  }

  lemma TakeOneMore(ps: seq<Primitive>, i: nat)
    requires i < |ps|
    ensures ps[..i + 1] == ps[..i] + [ps[i]]
  {
  }

  /** computeBoundingBoxes into empty handle and box lists: one box per primitive, in order. */
  method BoxesOf(s: GeometrySet) returns (handles: seq<Primitive>, boxes: seq<HandleBox>)
    requires s.Valid()
    ensures handles == s.Value().Primitives() && |boxes| == |handles|
    ensures forall k :: 0 <= k < |boxes| ==> boxes[k] == HandleBox(BoxOf(handles[k]), k)
  {
    handles, boxes := s.ComputeBoundingBoxes([]);
    assert [] + s.Value().Primitives() == s.Value().Primitives();
  }

  lemma HandlesInOrder(handles: seq<Primitive>, boxes: seq<HandleBox>)
    requires |boxes| == |handles| && forall k :: 0 <= k < |boxes| ==> boxes[k] == HandleBox(BoxOf(handles[k]), k)
    ensures forall j :: 0 <= j < |boxes| ==> boxes[j].handle < |handles| && boxes[j].box == BoxOf(handles[boxes[j].handle])
    ensures HandlesOf(handles, boxes) == handles
  {
  }

  /** A row that runs out of fuel leaves every longer run of rows out of fuel. */
  lemma RowsStopAt(meets: Meets, inter: Dimensions.Intersection, polyDiff: PolygonDifference,
                   ps: seq<Primitive>, i: nat, bs: seq<Primitive>, out: GSet, fuel: nat)
    requires i < |ps| && out.Valid() && SubSegmentResults(inter)
    requires var prev := Rows(meets, inter, polyDiff, ps[..i], bs, out, fuel);
      prev.Some? && Filtered(meets, inter, RowResult(meets, inter, polyDiff, ps[i], bs), prev.value, fuel).None?
    ensures Rows(meets, inter, polyDiff, ps, bs, out, fuel).None?
  {
    TakeOneMore(ps, i);
    RowsSnoc(meets, inter, polyDiff, ps[..i], ps[i], bs, out, fuel);
    assert ps == ps[..i + 1] + ps[i + 1..];
    RowsAppend(meets, inter, polyDiff, ps[..i + 1], ps[i + 1..], bs, out, fuel);
  }

  /**
    difference(a, b, output): for each primitive of a, the remainders
    against every primitive of b it meets (or the primitive itself when it
    meets none), filtered into the output. It reports false, leaving the
    remaining rows undone, when a filter runs out of fuel.
  */
  method DifferenceSets(meets: Meets, inter: Dimensions.Intersection, polyDiff: PolygonDifference,
                        a: GeometrySet, b: GeometrySet, output: GeometrySet, fuel: nat)
      returns (done: bool)
    requires a.Valid() && b.Valid() && output.Valid() && output != a && output != b
    requires SubSegmentResults(inter)
    modifies output
    ensures output.Valid()
    ensures var r := DifferenceOf(meets, inter, polyDiff, old(a.Value()), old(b.Value()), old(output.Value()), fuel);
      done == r.Some? && (done ==> output.Value() == r.value)
  {
    ghost var out0 := output.Value();
    var ah, aboxes := BoxesOf(a);
    var bh, bboxes := BoxesOf(b);
    HandlesInOrder(bh, bboxes);
    ghost var ps := ah;
    for i := 0 to |aboxes|
      invariant output.Valid()
      invariant Rows(meets, inter, polyDiff, ps[..i], bh, out0, fuel) == Some(output.Value())
    {
      var pa := ah[aboxes[i].handle];
      RowsSnoc(meets, inter, polyDiff, ps[..i], pa, bh, out0, fuel);
      TakeOneMore(ps, i);
      done := DifferenceTurn(meets, inter, polyDiff, pa, aboxes[i].box, bh, bboxes, output, fuel);
      if !done {
        RowsStopAt(meets, inter, polyDiff, ps, i, bh, out0, fuel);
        return;
      }
    }
    assert ps[..|aboxes|] == ps;
    done := true;
  }

  /** difference(ga, gb): both geometries decomposed, their difference recomposed; None when a filter runs out of fuel. */
  method DifferenceGeometries(meets: Meets, inter: Dimensions.Intersection, polyDiff: PolygonDifference, ga: Geometry, gb: Geometry, fuel: nat)
      returns (r: Option<Geometry>)
    requires SubSegmentResults(inter)
    ensures var d := DifferenceOf(meets, inter, polyDiff, Decomposition(Empty, ga), Decomposition(Empty, gb), Empty, fuel);
      r.Some? == d.Some? && (r.Some? ==> r.value == Recomposed(d.value))
  {
    var gsa := new GeometrySet.FromGeometry(ga);
    var gsb := new GeometrySet.FromGeometry(gb);
    var output := new GeometrySet();
    var done := DifferenceSets(meets, inter, polyDiff, gsa, gsb, output, fuel);
    if done {
      var g := Recompose(output);
      r := Some(g);
    } else {
      r := None;
    }
  }

  // ---------------------------------------------------------------------
  // Worked differences on the x axis
  // ---------------------------------------------------------------------

  lemma PositiveFactor(x: real, d: real)
    requires d > 0.0 && x * d > 0.0
    ensures x > 0.0
  {
  }

  lemma FractionsInside(a: real, b: real, d: real)
    requires 0.0 < a < b < d
    ensures 0.0 < a / d < b / d < 1.0
  {
    var u, v := a / d, b / d;
    assert u * d == a && v * d == b;
    PositiveFactor(u, d);
    assert (v - u) * d == b - a;
    PositiveFactor(v - u, d);
    var w, c := 1.0 - v, d - b;
    assert c > 0.0;
    assert w * d == c;
    PositiveFactor(w, d);
  }

  /** On the x axis, subtracting an inner segment walked forwards keeps the piece before it and the piece after it. */
  lemma AxisInnerPieces(x0: real, x1: real, y0: real, y1: real)
    requires x0 < y0 < y1 < x1
    ensures var s, t := Segment(Point2(x0, 0.0), Point2(x1, 0.0)), Segment(Point2(y0, 0.0), Point2(y1, 0.0));
      SegmentPieces(s, t) == [Segment(s.source, t.source), Segment(t.target, s.target)]
  {
    var s, t := Segment(Point2(x0, 0.0), Point2(x1, 0.0)), Segment(Point2(y0, 0.0), Point2(y1, 0.0));
    assert PointPosition(s, t.source) == (y0 - x0) / (x1 - x0);
    assert PointPosition(s, t.target) == (y1 - x0) / (x1 - x0);
    FractionsInside(y0 - x0, y1 - x0, x1 - x0);
  }

  /** On the x axis, the segment from x0 to x1 minus the inner segment from y0 to y1 leaves the two outer pieces. */
  lemma AxisInnerRemainder(inter: Dimensions.Intersection, polyDiff: PolygonDifference, x0: real, x1: real, y0: real, y1: real)
    requires SubSegmentResults(inter) && x0 < y0 < y1 < x1
    requires inter(SegmentOf(x0, 0.0, x1, 0.0), SegmentOf(y0, 0.0, y1, 0.0)) == [SegmentOf(y0, 0.0, y1, 0.0)]
    ensures Remainder(inter, polyDiff, SegmentOf(x0, 0.0, x1, 0.0), SegmentOf(y0, 0.0, y1, 0.0))
         == [SegmentOf(x0, 0.0, y0, 0.0), SegmentOf(y1, 0.0, x1, 0.0)]
  {
    var pa, pb := SegmentOf(x0, 0.0, x1, 0.0), SegmentOf(y0, 0.0, y1, 0.0);
    RemainderOfOneSegment(inter, polyDiff, pa, pb);
    AxisInnerPieces(x0, x1, y0, y1);
    var s, t := pa.shape.segment, pb.shape.segment;
    EdgePrimitivesOfPieces(Segment(s.source, t.source), Segment(t.target, s.target));
  }

  /** Two segments of the x axis, the first ending before the second starts, make a set in that order. */
  lemma TwoAxisPiecesSet(x0: real, x1: real, y0: real, y1: real)
    requires x0 < x1 < y0 < y1
    ensures AddAll(Empty, [SegmentOf(x0, 0.0, x1, 0.0), SegmentOf(y0, 0.0, y1, 0.0)])
         == GSet([], [SegmentOf(x0, 0.0, x1, 0.0), SegmentOf(y0, 0.0, y1, 0.0)], [], [], false)
  {
    var p, q := SegmentOf(x0, 0.0, x1, 0.0), SegmentOf(y0, 0.0, y1, 0.0);
    AddAllPair(Empty, p, q);
    assert SetInsert([], p) == [p];
    assert Less(p, q);
    assert SetInsert([p], q) == [p, q];
  }

  /**
    LINESTRING(x0 0,x1 0) minus LINESTRING(y0 0,y1 0) with the second inside
    the first, through the whole algorithm: the row's pieces miss each other,
    so the filter keeps both, and the difference is exactly the two outer
    pieces, whatever the fuel.
  */
  lemma SegmentMinusInnerSegment(inter: Dimensions.Intersection, polyDiff: PolygonDifference, x0: real, x1: real, y0: real, y1: real, fuel: nat)
    requires SubSegmentResults(inter) && x0 < y0 < y1 < x1
    requires inter(SegmentOf(x0, 0.0, x1, 0.0), SegmentOf(y0, 0.0, y1, 0.0)) == [SegmentOf(y0, 0.0, y1, 0.0)]
    ensures DifferenceOf(IntersectsTest(), inter, polyDiff, Add(Empty, SegmentOf(x0, 0.0, x1, 0.0)), Add(Empty, SegmentOf(y0, 0.0, y1, 0.0)), Empty, fuel)
         == Some(GSet([], [SegmentOf(x0, 0.0, y0, 0.0), SegmentOf(y1, 0.0, x1, 0.0)], [], [], false))
  {
    var meets := IntersectsTest();
    var pa, pb := SegmentOf(x0, 0.0, x1, 0.0), SegmentOf(y0, 0.0, y1, 0.0);
    var pieces := GSet([], [SegmentOf(x0, 0.0, y0, 0.0), SegmentOf(y1, 0.0, x1, 0.0)], [], [], false);
    OneSegmentSet(pa);
    OneSegmentSet(pb);
    SegmentMinusInnerRow(inter, polyDiff, x0, x1, y0, y1);
    RowsSnoc(meets, inter, polyDiff, [], pa, [pb], Empty, fuel);
    assert [] + [pa] == [pa];
    assert Rows(meets, inter, polyDiff, [pa], [pb], Empty, fuel) == Filtered(meets, inter, pieces, Empty, fuel);
    SegmentMinusInnerFiltered(inter, x0, x1, y0, y1, fuel);
  }

  lemma OneSegmentSet(p: Primitive)
    requires p.shape.SegmentShape?
    ensures Add(Empty, p).Primitives() == [p]
  {
    assert SetInsert([], p) == [p];
  }

  /** The row of that difference: pa hits pb, and its remainder makes the set of the two outer pieces. */
  lemma SegmentMinusInnerRow(inter: Dimensions.Intersection, polyDiff: PolygonDifference, x0: real, x1: real, y0: real, y1: real)
    requires SubSegmentResults(inter) && x0 < y0 < y1 < x1
    requires inter(SegmentOf(x0, 0.0, x1, 0.0), SegmentOf(y0, 0.0, y1, 0.0)) == [SegmentOf(y0, 0.0, y1, 0.0)]
    ensures RowResult(IntersectsTest(), inter, polyDiff, SegmentOf(x0, 0.0, x1, 0.0), [SegmentOf(y0, 0.0, y1, 0.0)])
         == GSet([], [SegmentOf(x0, 0.0, y0, 0.0), SegmentOf(y1, 0.0, x1, 0.0)], [], [], false)
  {
    var meets := IntersectsTest();
    var pa, pb := SegmentOf(x0, 0.0, x1, 0.0), SegmentOf(y0, 0.0, y1, 0.0);
    AxisPiecesHit(x0, x1, y0, y1);
    assert HitsAny(meets, pa, [pb]) by { assert Hit(meets, pa, [pb][0]); }
    AxisInnerRemainder(inter, polyDiff, x0, x1, y0, y1);
    assert [pb][..0] == [];
    TwoAxisPiecesSet(x0, y0, y1, x1);
  }

  /** The filter of that row keeps both pieces, which miss each other. */
  lemma SegmentMinusInnerFiltered(inter: Dimensions.Intersection, x0: real, x1: real, y0: real, y1: real, fuel: nat)
    requires x0 < y0 < y1 < x1
    ensures var pieces := GSet([], [SegmentOf(x0, 0.0, y0, 0.0), SegmentOf(y1, 0.0, x1, 0.0)], [], [], false);
      pieces.Valid() && Filtered(IntersectsTest(), inter, pieces, Empty, fuel) == Some(pieces)
  {
    var meets := IntersectsTest();
    var p1, p2 := SegmentOf(x0, 0.0, y0, 0.0), SegmentOf(y1, 0.0, x1, 0.0);
    var pieces := GSet([], [p1, p2], [], [], false);
    TwoAxisPiecesSet(x0, y0, y1, x1);
    AxisPiecesMiss(meets, x0, y0, y1, x1);
    assert NoTwoHit(meets, [p1, p2]);
    FilteredWithoutHits(meets, inter, pieces, Empty, fuel);
    assert [] + [p1, p2] + [] == [p1, p2];
    assert BareAll([p1, p2]) == [p1, p2];
  }

  /** DifferenceTest: LINESTRING(0 0,1 0) minus LINESTRING(0.5 0,0.7 0) is MULTILINESTRING((0 0,0.5 0),(0.7 0,1 0)). */
  lemma InnerSegmentDifference(inter: Dimensions.Intersection, polyDiff: PolygonDifference, fuel: nat)
    requires SubSegmentResults(inter)
    requires inter(SegmentOf(0.0, 0.0, 1.0, 0.0), SegmentOf(0.5, 0.0, 0.7, 0.0)) == [SegmentOf(0.5, 0.0, 0.7, 0.0)]
    ensures DifferenceOf(IntersectsTest(), inter, polyDiff, Add(Empty, SegmentOf(0.0, 0.0, 1.0, 0.0)), Add(Empty, SegmentOf(0.5, 0.0, 0.7, 0.0)), Empty, fuel)
         == Some(GSet([], [SegmentOf(0.0, 0.0, 0.5, 0.0), SegmentOf(0.7, 0.0, 1.0, 0.0)], [], [], false))
  {
    SegmentMinusInnerSegment(inter, polyDiff, 0.0, 1.0, 0.5, 0.7, fuel);
  }

  // ---------------------------------------------------------------------
  // The shared temp set makes the pass as written run for ever
  // ---------------------------------------------------------------------

  /*
    The run below happens whenever a pass meets four pieces a1..a4 with
    a1 hitting a2, a3 hitting a4, every piece hitting itself, and a4 and a1
    missing each other, where the intersections bring the temp set to hold
    a1 and a4 exactly. The concrete instance follows it.
  */

  /** The hits and intersections the run relies on, with g1 the temp set after the first hit and t after the second. */
  predicate RunFacts(meets: Meets, inter: Dimensions.Intersection, a1: Primitive, a2: Primitive, a3: Primitive, a4: Primitive, g1: GSet, t: GSet)
  {
    && g1.Valid() && t.Valid()
    && Hit(meets, a1, a2) && Hit(meets, a3, a4) && Hit(meets, a1, a1) && Hit(meets, a4, a4) && !Hit(meets, a4, a1)
    && AddAll(Empty, inter(a1, a2)) == g1 && g1.Selection(PrimitiveSegment.Tag()) == [a1]
    && AddAll(g1, inter(a3, a4)) == t && t.Selection(PrimitiveSegment.Tag()) == [a1, a4]
    && AddAll(t, inter(a1, a1)) == t && AddAll(t, inter(a4, a4)) == t
  }

  /** The four turns of the cycle: the table from the current position on. */
  function Phase(a1: Primitive, a4: Primitive, p: nat): seq<Option<Primitive>>
  {
    if p % 4 == 0 then [Some(a1), None, Some(a1), Some(a4)]
    else if p % 4 == 1 then [None, None, Some(a4), Some(a1), Some(a4)]
    else if p % 4 == 2 then [None, Some(a4), Some(a1), Some(a4)]
    else [Some(a4), Some(a1), Some(a4)]
  }

  /** A turn whose handle x hits the live handle two places on, after a null one or directly. */
  lemma HitStep(meets: Meets, inter: Dimensions.Intersection, st: FilterState, i: nat, j: nat, t: GSet)
    requires st.temp.Valid() && st.out.Valid() && i < j < |st.idx|
    requires st.idx[i].Some? && st.idx[j].Some? && Hit(meets, st.idx[i].value, st.idx[j].value)
    requires forall l :: i < l < j ==> st.idx[l] == None
    requires AddAll(st.temp, inter(st.idx[i].value, st.idx[j].value)) == t
    ensures Step(meets, inter, PrimitiveSegment, st, i)
         == FilterState((st.idx + Wrap(t.Selection(PrimitiveSegment.Tag())))[j := None][i := None], t, st.out)
  {
    var fh := FirstHit(meets, st.idx[i].value, st.idx, i + 1);
    assert fh == Some(j);
  }

  /** What the cycle itself relies on: a1 and a4 hit themselves, a4 misses a1, and t absorbs both self-intersections. */
  ghost predicate CycleFacts(meets: Meets, inter: Dimensions.Intersection, a1: Primitive, a4: Primitive, t: GSet)
  {
    && t.Valid() && Hit(meets, a1, a1) && Hit(meets, a4, a4) && !Hit(meets, a4, a1)
    && t.Selection(PrimitiveSegment.Tag()) == [a1, a4]
    && AddAll(t, inter(a1, a1)) == t && AddAll(t, inter(a4, a4)) == t
  }

  lemma RunCycles(meets: Meets, inter: Dimensions.Intersection, a1: Primitive, a2: Primitive, a3: Primitive, a4: Primitive, g1: GSet, t: GSet)
    requires RunFacts(meets, inter, a1, a2, a3, a4, g1, t)
    ensures CycleFacts(meets, inter, a1, a4, t)
  {
  }

  /** The pass state at position i is in phase p of the cycle. */
  ghost predicate AtPhase(a1: Primitive, a4: Primitive, t: GSet, st: FilterState, i: nat, p: nat)
  {
    st.out.Valid() && st.temp == t && i <= |st.idx| && st.idx[i..] == Phase(a1, a4, p)
  }

  lemma PhaseZeroStep(meets: Meets, inter: Dimensions.Intersection, a1: Primitive, a4: Primitive, t: GSet, st: FilterState, i: nat)
    requires CycleFacts(meets, inter, a1, a4, t) && AtPhase(a1, a4, t, st, i, 0)
    ensures var r := Step(meets, inter, PrimitiveSegment, st, i);
      i + 1 <= |r.idx| && r.idx[i + 1..] == Phase(a1, a4, 1) && r.temp == t && r.out == st.out
  {
    assert st.idx[i] == Some(a1) && st.idx[i + 1] == None && st.idx[i + 2] == Some(a1);
    HitStep(meets, inter, st, i, i + 2, t);
    assert Wrap(t.Selection(PrimitiveSegment.Tag())) == [Some(a1), Some(a4)];
  }

  lemma PhaseThreeStep(meets: Meets, inter: Dimensions.Intersection, a1: Primitive, a4: Primitive, t: GSet, st: FilterState, i: nat)
    requires CycleFacts(meets, inter, a1, a4, t) && AtPhase(a1, a4, t, st, i, 3)
    ensures var r := Step(meets, inter, PrimitiveSegment, st, i);
      i + 1 <= |r.idx| && r.idx[i + 1..] == Phase(a1, a4, 0) && r.temp == t && r.out == st.out
  {
    assert st.idx[i] == Some(a4) && st.idx[i + 1] == Some(a1) && st.idx[i + 2] == Some(a4);
    var fh := FirstHit(meets, a4, st.idx, i + 1);
    assert fh == Some(i + 2);
    assert Wrap(t.Selection(PrimitiveSegment.Tag())) == [Some(a1), Some(a4)];
  }

  /** Every phase is a turn that leads to the next phase, never to the end of the table. */
  lemma PhaseStep(meets: Meets, inter: Dimensions.Intersection, a1: Primitive, a4: Primitive, t: GSet, st: FilterState, i: nat, p: nat)
    requires CycleFacts(meets, inter, a1, a4, t) && AtPhase(a1, a4, t, st, i, p)
    ensures i < |st.idx| && AtPhase(a1, a4, t, Step(meets, inter, PrimitiveSegment, st, i), i + 1, p + 1)
  {
    assert |Phase(a1, a4, p)| > 0;
    PhaseOfNext(a1, a4, p);
    if p % 4 == 0 {
      PhaseZeroStep(meets, inter, a1, a4, t, st, i);
    } else if p % 4 == 3 {
      PhaseThreeStep(meets, inter, a1, a4, t, st, i);
    } else {
      PhaseNullStep(meets, inter, a1, a4, t, st, i, p);
    }
  }

  lemma PhaseOfNext(a1: Primitive, a4: Primitive, p: nat)
    ensures Phase(a1, a4, p + 1) == Phase(a1, a4, p % 4 + 1)
  {
    assert (p + 1) % 4 == (p % 4 + 1) % 4;
  }

  /** Phases 1 and 2 start at a null handle: the turn only moves on. */
  lemma PhaseNullStep(meets: Meets, inter: Dimensions.Intersection, a1: Primitive, a4: Primitive, t: GSet, st: FilterState, i: nat, p: nat)
    requires t.Valid() && AtPhase(a1, a4, t, st, i, p) && (p % 4 == 1 || p % 4 == 2)
    ensures i < |st.idx| && Step(meets, inter, PrimitiveSegment, st, i) == st
    ensures st.idx[i + 1..] == Phase(a1, a4, p + 1)
  {
    assert st.idx[i + 1..] == st.idx[i..][1..];
    assert st.idx[i] == None;
  }

  /**
    A pass that can never leave a set of states, none of them at the end of
    the table, never finishes, whatever the fuel.
  */
  lemma {:induction false} TrappedNeverEnds(meets: Meets, inter: Dimensions.Intersection, k: PrimitiveType,
                                            trap: (FilterState, nat) -> bool, st: FilterState, i: nat, fuel: nat)
    requires forall s: FilterState, j: nat :: trap(s, j) ==> j < |s.idx| && s.temp.Valid() && s.out.Valid()
    requires forall s: FilterState, j: nat :: trap(s, j) && j < |s.idx| && s.temp.Valid() && s.out.Valid() ==> trap(Step(meets, inter, k, s, j), j + 1)
    requires trap(st, i)
    ensures FilterAsWritten(meets, inter, k, st, i, fuel) == None
    decreases fuel
  {
    if fuel > 0 {
      TrappedNeverEnds(meets, inter, k, trap, Step(meets, inter, k, st, i), i + 1, fuel - 1);
    }
  }

  /** Once in the cycle, the pass as written never reaches the end of the table, whatever the fuel. */
  lemma CycleNeverEnds(meets: Meets, inter: Dimensions.Intersection, a1: Primitive, a4: Primitive, t: GSet, st: FilterState, i: nat, p: nat, fuel: nat)
    requires CycleFacts(meets, inter, a1, a4, t) && AtPhase(a1, a4, t, st, i, p)
    ensures FilterAsWritten(meets, inter, PrimitiveSegment, st, i, fuel) == None
  {
    var trap := (s: FilterState, j: nat) => i <= j && AtPhase(a1, a4, t, s, j, p + (j - i));
    forall s: FilterState, j: nat | trap(s, j)
      ensures j < |s.idx| && s.temp.Valid() && s.out.Valid()
    {
      PhaseStep(meets, inter, a1, a4, t, s, j, p + (j - i));
    }
    forall s: FilterState, j: nat | trap(s, j) && j < |s.idx| && s.temp.Valid() && s.out.Valid()
      ensures trap(Step(meets, inter, PrimitiveSegment, s, j), j + 1)
    {
      PhaseStep(meets, inter, a1, a4, t, s, j, p + (j - i));
    }
    TrappedNeverEnds(meets, inter, PrimitiveSegment, trap, st, i, fuel);
  }

  /** The first turn: a1 hits a2, and the temp set's one segment is pushed. */
  lemma FirstTurn(meets: Meets, inter: Dimensions.Intersection, a1: Primitive, a2: Primitive, a3: Primitive, a4: Primitive, g1: GSet, t: GSet)
    requires RunFacts(meets, inter, a1, a2, a3, a4, g1, t)
    ensures Step(meets, inter, PrimitiveSegment, FilterState(Wrap([a1, a2, a3, a4]), Empty, Empty), 0)
         == FilterState([None, None, Some(a3), Some(a4), Some(a1)], g1, Empty)
  {
    var w := Wrap([a1, a2, a3, a4]);
    assert w == [Some(a1), Some(a2), Some(a3), Some(a4)];
    HitStep(meets, inter, FilterState(w, Empty, Empty), 0, 1, g1);
    assert Wrap(g1.Selection(PrimitiveSegment.Tag())) == [Some(a1)];
  }

  /** The third turn: a3 hits a4, the temp set now holds a1 and a4, and both are pushed. */
  lemma ThirdTurn(meets: Meets, inter: Dimensions.Intersection, a1: Primitive, a2: Primitive, a3: Primitive, a4: Primitive, g1: GSet, t: GSet)
    requires RunFacts(meets, inter, a1, a2, a3, a4, g1, t)
    ensures Step(meets, inter, PrimitiveSegment, FilterState([None, None, Some(a3), Some(a4), Some(a1)], g1, Empty), 2)
         == FilterState([None, None, None, None, Some(a1), Some(a1), Some(a4)], t, Empty)
  {
    var idx: seq<Option<Primitive>> := [None, None, Some(a3), Some(a4), Some(a1)];
    assert Wrap(t.Selection(PrimitiveSegment.Tag())) == [Some(a1), Some(a4)];
    assert (idx + [Some(a1), Some(a4)])[3 := None][2 := None] == [None, None, None, None, Some(a1), Some(a1), Some(a4)];
    HitStep(meets, inter, FilterState(idx, g1, Empty), 2, 3, t);
  }

  /** The fifth turn: a1 hits its own pushed copy, and a1 and a4 are pushed again. */
  lemma FifthTurn(meets: Meets, inter: Dimensions.Intersection, a1: Primitive, a2: Primitive, a3: Primitive, a4: Primitive, g1: GSet, t: GSet)
    requires RunFacts(meets, inter, a1, a2, a3, a4, g1, t)
    ensures AtPhase(a1, a4, t, Step(meets, inter, PrimitiveSegment, FilterState([None, None, None, None, Some(a1), Some(a1), Some(a4)], t, Empty), 4), 5, 2)
  {
    var idx: seq<Option<Primitive>> := [None, None, None, None, Some(a1), Some(a1), Some(a4)];
    var next: seq<Option<Primitive>> := [None, None, None, None, None, None, Some(a4), Some(a1), Some(a4)];
    assert Wrap(t.Selection(PrimitiveSegment.Tag())) == [Some(a1), Some(a4)];
    assert (idx + [Some(a1), Some(a4)])[5 := None][4 := None] == next;
    HitStep(meets, inter, FilterState(idx, t, Empty), 4, 5, t);
    assert next[5..] == Phase(a1, a4, 2);
  }

  lemma FromFifthTurn(meets: Meets, inter: Dimensions.Intersection, a1: Primitive, a2: Primitive, a3: Primitive, a4: Primitive, g1: GSet, t: GSet, fuel: nat)
    requires RunFacts(meets, inter, a1, a2, a3, a4, g1, t)
    ensures FilterAsWritten(meets, inter, PrimitiveSegment, FilterState([None, None, None, None, Some(a1), Some(a1), Some(a4)], t, Empty), 4, fuel) == None
  {
    var st3 := FilterState([None, None, None, None, Some(a1), Some(a1), Some(a4)], t, Empty);
    FifthTurn(meets, inter, a1, a2, a3, a4, g1, t);
    RunCycles(meets, inter, a1, a2, a3, a4, g1, t);
    EntersCycle(meets, inter, a1, a4, t, st3, 4, fuel);
  }

  /** A turn that leads into phase 2 of the cycle starts a pass that never ends. */
  lemma EntersCycle(meets: Meets, inter: Dimensions.Intersection, a1: Primitive, a4: Primitive, t: GSet, st: FilterState, i: nat, fuel: nat)
    requires CycleFacts(meets, inter, a1, a4, t) && i < |st.idx| && st.temp.Valid() && st.out.Valid()
    requires AtPhase(a1, a4, t, Step(meets, inter, PrimitiveSegment, st, i), i + 1, 2)
    ensures FilterAsWritten(meets, inter, PrimitiveSegment, st, i, fuel) == None
  {
    if fuel > 0 {
      CycleNeverEnds(meets, inter, a1, a4, t, Step(meets, inter, PrimitiveSegment, st, i), i + 1, 2, fuel - 1);
    }
  }

  lemma FromThirdTurn(meets: Meets, inter: Dimensions.Intersection, a1: Primitive, a2: Primitive, a3: Primitive, a4: Primitive, g1: GSet, t: GSet, fuel: nat)
    requires RunFacts(meets, inter, a1, a2, a3, a4, g1, t)
    ensures FilterAsWritten(meets, inter, PrimitiveSegment, FilterState([None, None, Some(a3), Some(a4), Some(a1)], g1, Empty), 2, fuel) == None
  {
    var st3 := FilterState([None, None, None, None, Some(a1), Some(a1), Some(a4)], t, Empty);
    if fuel > 1 {
      ThirdTurn(meets, inter, a1, a2, a3, a4, g1, t);
      FromFifthTurn(meets, inter, a1, a2, a3, a4, g1, t, fuel - 2);
      assert Step(meets, inter, PrimitiveSegment, st3, 3) == st3;
    }
  }

  /**
    The pass as written over the four pieces never reaches the end of its
    table: no fuel is enough.
  */
  lemma SharedTempNeverEnds(meets: Meets, inter: Dimensions.Intersection, a1: Primitive, a2: Primitive, a3: Primitive, a4: Primitive, g1: GSet, t: GSet, fuel: nat)
    requires RunFacts(meets, inter, a1, a2, a3, a4, g1, t)
    ensures FilterAsWritten(meets, inter, PrimitiveSegment, FilterState(Wrap([a1, a2, a3, a4]), Empty, Empty), 0, fuel) == None
  {
    var st1 := FilterState([None, None, Some(a3), Some(a4), Some(a1)], g1, Empty);
    if fuel > 1 {
      FirstTurn(meets, inter, a1, a2, a3, a4, g1, t);
      FromThirdTurn(meets, inter, a1, a2, a3, a4, g1, t, fuel - 2);
      assert Step(meets, inter, PrimitiveSegment, st1, 1) == st1;
    }
  }

  /*
    The concrete instance: LINESTRING(0 0,10 0) minus
    MULTILINESTRING((2 0,3 0),(5 0,6 0)). The first part leaves S1 and S3 of
    the line, the second S2 and S4; the segment set holds them as S1, S2,
    S3, S4.
  */
  const S1: Primitive := SegmentOf(0.0, 0.0, 2.0, 0.0)
  const S2: Primitive := SegmentOf(0.0, 0.0, 5.0, 0.0)
  const S3: Primitive := SegmentOf(3.0, 0.0, 10.0, 0.0)
  const S4: Primitive := SegmentOf(6.0, 0.0, 10.0, 0.0)

  /** Segment pieces of the x axis that share a point meet, by box and exactly. */
  lemma AxisPiecesHit(x0: real, x1: real, y0: real, y1: real)
    requires x0 < x1 && y0 < y1 && ((y0 <= x0 <= y1) || (x0 <= y0 <= x1))
    ensures Hit(IntersectsTest(), SegmentOf(x0, 0.0, x1, 0.0), SegmentOf(y0, 0.0, y1, 0.0))
  {
    var p, q := SegmentOf(x0, 0.0, x1, 0.0), SegmentOf(y0, 0.0, y1, 0.0);
    SegmentPairIntersects(p, q);
    if y0 <= x0 <= y1 {
      assert HasOn(q.shape.segment, p.shape.segment.source);
    } else {
      assert HasOn(p.shape.segment, q.shape.segment.source);
    }
  }

  /** Segment pieces of the x axis with a gap between them miss at the box test. */
  lemma AxisPiecesMiss(meets: Meets, x0: real, x1: real, y0: real, y1: real)
    requires x0 < x1 && y0 < y1 && (x1 < y0 || y1 < x0)
    ensures !Hit(meets, SegmentOf(x0, 0.0, x1, 0.0), SegmentOf(y0, 0.0, y1, 0.0))
  {
  }

  lemma ExampleHits()
    ensures Hit(IntersectsTest(), S1, S2) && Hit(IntersectsTest(), S3, S4)
    ensures Hit(IntersectsTest(), S1, S1) && Hit(IntersectsTest(), S4, S4)
    ensures !Hit(IntersectsTest(), S4, S1) && !Hit(IntersectsTest(), S1, S4)
  {
    AxisPiecesHit(0.0, 2.0, 0.0, 5.0);
    AxisPiecesHit(3.0, 10.0, 6.0, 10.0);
    AxisPiecesHit(0.0, 2.0, 0.0, 2.0);
    AxisPiecesHit(6.0, 10.0, 6.0, 10.0);
    AxisPiecesMiss(IntersectsTest(), 6.0, 10.0, 0.0, 2.0);
    AxisPiecesMiss(IntersectsTest(), 0.0, 2.0, 6.0, 10.0);
  }

  /** The intersections of the example's pairs: the shorter piece, which lies inside the longer. */
  predicate ExampleIntersections(inter: Dimensions.Intersection)
  {
    inter(S1, S2) == [S1] && inter(S3, S4) == [S4] && inter(S1, S1) == [S1] && inter(S4, S4) == [S4]
  }

  const FirstPiece: GSet := GSet([], [S1], [], [], false)
  const BothPieces: GSet := GSet([], [S1, S4], [], [], false)

  lemma FirstPieceSet()
    ensures FirstPiece.Valid() && AddAll(Empty, [S1]) == FirstPiece
    ensures FirstPiece.Selection(PrimitiveSegment.Tag()) == [S1]
  {
    AddAllPair(Empty, S1, S1);
  }

  lemma BothPiecesSet()
    ensures FirstPiece.Valid() && BothPieces.Valid() && AddAll(FirstPiece, [S4]) == BothPieces
    ensures BothPieces.Selection(PrimitiveSegment.Tag()) == [S1, S4]
  {
    FirstPieceSet();
    assert Less(S1, S4);
    AddAllPair(FirstPiece, S4, S4);
    assert S4.shape != S1.shape;
  }

  lemma BothPiecesStay()
    ensures BothPieces.Valid() && AddAll(BothPieces, [S1]) == BothPieces && AddAll(BothPieces, [S4]) == BothPieces
  {
    BothPiecesSet();
    AddAllPair(BothPieces, S1, S1);
    AddAllPair(BothPieces, S4, S4);
    assert S1.shape in Shapes(BothPieces.segments) by { assert BothPieces.segments[0] == S1; }
    assert S4.shape in Shapes(BothPieces.segments) by { assert BothPieces.segments[1] == S4; }
    AddPresentKeyIsNoOp(BothPieces, S1);
    AddPresentKeyIsNoOp(BothPieces, S4);
  }

  lemma ExampleRunFacts(inter: Dimensions.Intersection)
    requires ExampleIntersections(inter)
    ensures RunFacts(IntersectsTest(), inter, S1, S2, S3, S4, FirstPiece, BothPieces)
  {
    ExampleHits();
    FirstPieceSet();
    BothPiecesSet();
    BothPiecesStay();
  }

  /**
    filter_self_intersection as written, on the segments left by
    LINESTRING(0 0,10 0) minus MULTILINESTRING((2 0,3 0),(5 0,6 0)), never
    finishes its segment pass.
  */
  lemma ExampleNeverEnds(inter: Dimensions.Intersection, fuel: nat)
    requires ExampleIntersections(inter)
    ensures FilterAsWritten(IntersectsTest(), inter, PrimitiveSegment, FilterState(Wrap([S1, S2, S3, S4]), Empty, Empty), 0, fuel) == None
  {
    ExampleRunFacts(inter);
    SharedTempNeverEnds(IntersectsTest(), inter, S1, S2, S3, S4, FirstPiece, BothPieces, fuel);
  }

  /** A turn whose handle x hits no later live handle: x goes to the output. */
  lemma MissStep(meets: Meets, inter: Dimensions.Intersection, k: PrimitiveType, st: FilterState, i: nat)
    requires st.temp.Valid() && st.out.Valid() && i < |st.idx| && st.idx[i].Some?
    requires forall l :: i < l < |st.idx| && st.idx[l].Some? ==> !Hit(meets, st.idx[i].value, st.idx[l].value)
    ensures Step(meets, inter, k, st, i) == FilterState(st.idx[i := None], st.temp, Add(st.out, Bare(st.idx[i].value)))
  {
    var fh := FirstHit(meets, st.idx[i].value, st.idx, i + 1);
    assert fh == None;
  }

  /** What the corrected pass relies on in the run over a1..a4: g1 and g2 the pairs' temp sets, o1 and o2 the outputs. */
  ghost predicate FreshRunFacts(meets: Meets, inter: Dimensions.Intersection, a1: Primitive, a2: Primitive, a3: Primitive, a4: Primitive,
                          g1: GSet, g2: GSet, o1: GSet, o2: GSet)
  {
    && g1.Valid() && g2.Valid() && o1.Valid()
    && Hit(meets, a1, a2) && Hit(meets, a3, a4) && !Hit(meets, a1, a4)
    && AddAll(Empty, inter(a1, a2)) == g1 && g1.Selection(PrimitiveSegment.Tag()) == [a1]
    && AddAll(Empty, inter(a3, a4)) == g2 && g2.Selection(PrimitiveSegment.Tag()) == [a4]
    && Add(Empty, Bare(a1)) == o1 && Add(o1, Bare(a4)) == o2
  }

  lemma FreshLastTurns(meets: Meets, inter: Dimensions.Intersection, a1: Primitive, a2: Primitive, a3: Primitive, a4: Primitive,
                       g1: GSet, g2: GSet, o1: GSet, o2: GSet, fuel: nat)
    requires FreshRunFacts(meets, inter, a1, a2, a3, a4, g1, g2, o1, o2)
    ensures FilterPass(meets, inter, PrimitiveSegment, [None, None, None, None, Some(a1), Some(a4)], 4, Empty, fuel) == Some(o2)
  {
    var k := PrimitiveSegment;
    var idx := [None, None, None, None, Some(a1), Some(a4)];
    MissStep(meets, inter, k, FilterState(idx, Empty, Empty), 4);
    PassTurn(meets, inter, k, idx, 4, Empty, fuel);
    var idx5 := idx[4 := None];
    MissStep(meets, inter, k, FilterState(idx5, Empty, o1), 5);
    PassTurn(meets, inter, k, idx5, 5, o1, fuel);
  }

  lemma FreshFirstTurn(meets: Meets, inter: Dimensions.Intersection, a1: Primitive, a2: Primitive, a3: Primitive, a4: Primitive, g1: GSet, fuel: nat)
    requires g1.Valid() && Hit(meets, a1, a2)
    requires AddAll(Empty, inter(a1, a2)) == g1 && g1.Selection(PrimitiveSegment.Tag()) == [a1]
    ensures FilterPass(meets, inter, PrimitiveSegment, Wrap([a1, a2, a3, a4]), 0, Empty, fuel)
         == FilterPass(meets, inter, PrimitiveSegment, [None, None, Some(a3), Some(a4), Some(a1)], 1, Empty, fuel)
  {
    var k := PrimitiveSegment;
    var w := Wrap([a1, a2, a3, a4]);
    assert w == [Some(a1), Some(a2), Some(a3), Some(a4)];
    assert Wrap(g1.Selection(k.Tag())) == [Some(a1)];
    assert (w + [Some(a1)])[1 := None][0 := None] == [None, None, Some(a3), Some(a4), Some(a1)];
    HitStep(meets, inter, FilterState(w, Empty, Empty), 0, 1, g1);
    PassTurn(meets, inter, k, w, 0, Empty, fuel);
  }

  lemma FreshThirdTurn(meets: Meets, inter: Dimensions.Intersection, a1: Primitive, a3: Primitive, a4: Primitive, g2: GSet, fuel: nat)
    requires g2.Valid() && Hit(meets, a3, a4)
    requires AddAll(Empty, inter(a3, a4)) == g2 && g2.Selection(PrimitiveSegment.Tag()) == [a4]
    ensures FilterPass(meets, inter, PrimitiveSegment, [None, None, Some(a3), Some(a4), Some(a1)], 2, Empty, fuel)
         == FilterPass(meets, inter, PrimitiveSegment, [None, None, None, None, Some(a1), Some(a4)], 3, Empty, fuel)
  {
    var k := PrimitiveSegment;
    var idx1: seq<Option<Primitive>> := [None, None, Some(a3), Some(a4), Some(a1)];
    assert Wrap(g2.Selection(k.Tag())) == [Some(a4)];
    assert (idx1 + [Some(a4)])[3 := None][2 := None] == [None, None, None, None, Some(a1), Some(a4)];
    HitStep(meets, inter, FilterState(idx1, Empty, Empty), 2, 3, g2);
    PassTurn(meets, inter, k, idx1, 2, Empty, fuel);
  }

  lemma FreshFirstTurns(meets: Meets, inter: Dimensions.Intersection, a1: Primitive, a2: Primitive, a3: Primitive, a4: Primitive,
                        g1: GSet, g2: GSet, o1: GSet, o2: GSet, fuel: nat)
    requires FreshRunFacts(meets, inter, a1, a2, a3, a4, g1, g2, o1, o2)
    ensures FilterPass(meets, inter, PrimitiveSegment, Wrap([a1, a2, a3, a4]), 0, Empty, fuel)
         == FilterPass(meets, inter, PrimitiveSegment, [None, None, None, None, Some(a1), Some(a4)], 4, Empty, fuel)
  {
    var k := PrimitiveSegment;
    FreshFirstTurn(meets, inter, a1, a2, a3, a4, g1, fuel);
    PassTurn(meets, inter, k, [None, None, Some(a3), Some(a4), Some(a1)], 1, Empty, fuel);
    FreshThirdTurn(meets, inter, a1, a3, a4, g2, fuel);
    PassTurn(meets, inter, k, [None, None, None, None, Some(a1), Some(a4)], 3, Empty, fuel);
  }

  const SecondPiece: GSet := GSet([], [S4], [], [], false)

  lemma FreshTempSets()
    ensures SecondPiece.Valid() && AddAll(Empty, [S4]) == SecondPiece
    ensures SecondPiece.Selection(PrimitiveSegment.Tag()) == [S4]
    ensures Add(Empty, Bare(S1)) == FirstPiece && Add(FirstPiece, Bare(S4)) == BothPieces
  {
    AddAllPair(Empty, S4, S4);
    BothPiecesSet();
    AddAllPair(FirstPiece, S4, S4);
    AddAllPair(Empty, S1, S1);
  }

  /**
    The corrected pass, with a fresh temp set per pair, ends on the same
    input, and emits S1 and S4.
  */
  lemma FreshTempEnds(inter: Dimensions.Intersection, fuel: nat)
    requires ExampleIntersections(inter)
    ensures FilterPass(IntersectsTest(), inter, PrimitiveSegment, Wrap([S1, S2, S3, S4]), 0, Empty, fuel) == Some(BothPieces)
  {
    ExampleHits();
    FirstPieceSet();
    FreshTempSets();
    assert FreshRunFacts(IntersectsTest(), inter, S1, S2, S3, S4, FirstPiece, SecondPiece, FirstPiece, BothPieces);
    FreshFirstTurns(IntersectsTest(), inter, S1, S2, S3, S4, FirstPiece, SecondPiece, FirstPiece, BothPieces, fuel);
    FreshLastTurns(IntersectsTest(), inter, S1, S2, S3, S4, FirstPiece, SecondPiece, FirstPiece, BothPieces, fuel);
  }

  // ---------------------------------------------------------------------
  // The corrected pass still loses a piece of the example
  // ---------------------------------------------------------------------

  const Whole: Primitive := SegmentOf(0.0, 0.0, 10.0, 0.0)
  const Cut1: Primitive := SegmentOf(2.0, 0.0, 3.0, 0.0)
  const Cut2: Primitive := SegmentOf(5.0, 0.0, 6.0, 0.0)
  const Tangled: GSet := GSet([], [S1, S2, S3, S4], [], [], false)

  /** What algorithm::intersection reports for the example's pairs: the cut, or the shorter piece. */
  ghost predicate ExampleCuts(inter: Dimensions.Intersection)
  {
    SubSegmentResults(inter) && ExampleIntersections(inter) && inter(Whole, Cut1) == [Cut1] && inter(Whole, Cut2) == [Cut2]
  }

  /** A segment goes into a set of segments at the place the order gives it. */
  lemma AddSegmentAt(g: GSet, p: Primitive, r: seq<Primitive>)
    requires g.Valid() && p.shape.SegmentShape? && SetInsert(g.segments, p) == r
    ensures Add(g, p) == g.(segments := r)
  {
  }

  lemma InsertS2()
    ensures SetInsert([S1, S3], S2) == [S1, S2, S3]
  {
    assert Less(S1, S2) && Less(S2, S3);
    assert SetInsert([S3], S2) == [S2, S3];
  }

  lemma InsertS4()
    ensures SetInsert([S1, S2, S3], S4) == [S1, S2, S3, S4]
  {
    assert Less(S1, S4) && Less(S2, S4) && Less(S3, S4);
    assert SetInsert([], S4) == [S4];
    assert SetInsert([S3], S4) == [S3, S4];
    assert SetInsert([S2, S3], S4) == [S2, S3, S4];
  }

  lemma TangledSet()
    ensures AddAll(AddAll(Empty, [S1, S3]), [S2, S4]) == Tangled
  {
    TwoAxisPiecesSet(0.0, 2.0, 3.0, 10.0);
    var g := GSet([], [S1, S3], [], [], false);
    AddAllPair(g, S2, S4);
    InsertS2();
    AddSegmentAt(g, S2, [S1, S2, S3]);
    InsertS4();
    AddSegmentAt(g.(segments := [S1, S2, S3]), S4, [S1, S2, S3, S4]);
  }

  /** tempOut of a segment against two primitives of b that both meet it: the two remainders in turn. */
  lemma RowOutPair(meets: Meets, inter: Dimensions.Intersection, polyDiff: PolygonDifference, pa: Primitive, c1: Primitive, c2: Primitive)
    requires SubSegmentResults(inter) && pa.shape.SegmentShape? && Hit(meets, pa, c1) && Hit(meets, pa, c2)
    ensures RowOut(meets, inter, polyDiff, pa, [c1, c2])
         == AddAll(AddAll(Empty, Remainder(inter, polyDiff, pa, c1)), Remainder(inter, polyDiff, pa, c2))
  {
    RowOutSnoc(meets, inter, polyDiff, pa, [], c1);
    RowOutSnoc(meets, inter, polyDiff, pa, [c1], c2);
    assert [] + [c1] == [c1] && [c1] + [c2] == [c1, c2];
  }

  /** tempOut of the example's one row: the remainders against each cut, four overlapping pieces in set order. */
  lemma ExampleRow(inter: Dimensions.Intersection, polyDiff: PolygonDifference)
    requires ExampleCuts(inter)
    ensures RowResult(IntersectsTest(), inter, polyDiff, Whole, [Cut1, Cut2]) == Tangled
  {
    AxisPiecesHit(0.0, 10.0, 2.0, 3.0);
    AxisPiecesHit(0.0, 10.0, 5.0, 6.0);
    assert HitsAny(IntersectsTest(), Whole, [Cut1, Cut2]) by { assert Hit(IntersectsTest(), Whole, [Cut1, Cut2][0]); }
    RowOutPair(IntersectsTest(), inter, polyDiff, Whole, Cut1, Cut2);
    AxisInnerRemainder(inter, polyDiff, 0.0, 10.0, 2.0, 3.0);
    AxisInnerRemainder(inter, polyDiff, 0.0, 10.0, 5.0, 6.0);
    TangledSet();
  }

  /** The corrected filter of that row: the segment pass of FreshTempEnds, between two empty passes. */
  lemma ExampleFiltered(inter: Dimensions.Intersection, fuel: nat)
    requires ExampleIntersections(inter)
    ensures Tangled.Valid() && Filtered(IntersectsTest(), inter, Tangled, Empty, fuel) == Some(BothPieces)
  {
    TangledSet();
    BothPiecesSet();
    FreshTempEnds(inter, fuel);
    assert Tangled.Selection(0) == [] && Tangled.Selection(1) == [S1, S2, S3, S4] && Tangled.Selection(2) == [];
    assert TypeOfTag(0).value == PrimitivePoint && TypeOfTag(1).value == PrimitiveSegment;
    assert TypeOfTag(2).value == PrimitiveSurface;
    assert Wrap([]) == [];
    assert FilterKinds(IntersectsTest(), inter, Tangled, Empty, 1, fuel) == Some(Empty);
    assert FilterKinds(IntersectsTest(), inter, Tangled, Empty, 2, fuel) == Some(BothPieces);
  }

  /** The example's two sets: LINESTRING(0 0,10 0) decomposes to one segment, the two cuts to a set in that order. */
  lemma ExampleSets()
    ensures Add(Empty, Whole).Primitives() == [Whole]
    ensures AddAll(Empty, [Cut1, Cut2]).Primitives() == [Cut1, Cut2]
  {
    OneSegmentSet(Whole);
    AxisPairPrimitives(2.0, 3.0, 5.0, 6.0);
  }

  lemma AxisPairPrimitives(x0: real, x1: real, y0: real, y1: real)
    requires x0 < x1 < y0 < y1
    ensures AddAll(Empty, [SegmentOf(x0, 0.0, x1, 0.0), SegmentOf(y0, 0.0, y1, 0.0)]).Primitives()
         == [SegmentOf(x0, 0.0, x1, 0.0), SegmentOf(y0, 0.0, y1, 0.0)]
  {
    TwoAxisPiecesSet(x0, x1, y0, y1);
    assert [] + [SegmentOf(x0, 0.0, x1, 0.0), SegmentOf(y0, 0.0, y1, 0.0)] + [] + [] == [SegmentOf(x0, 0.0, x1, 0.0), SegmentOf(y0, 0.0, y1, 0.0)];
  }

  /**
    LINESTRING(0 0,10 0) minus MULTILINESTRING((2 0,3 0),(5 0,6 0)) (any two
    sets with those primitives), with a fresh temp set per pair, ends with
    (0 0,2 0) and (6 0,10 0).
  */
  lemma ExampleDifference(inter: Dimensions.Intersection, polyDiff: PolygonDifference, a: GSet, b: GSet, fuel: nat)
    requires ExampleCuts(inter) && a.Primitives() == [Whole] && b.Primitives() == [Cut1, Cut2]
    ensures DifferenceOf(IntersectsTest(), inter, polyDiff, a, b, Empty, fuel) == Some(BothPieces)
  {
    var meets := IntersectsTest();
    var bs := [Cut1, Cut2];
    assert [] + [Whole] == [Whole];
    RowsSnoc(meets, inter, polyDiff, [], Whole, bs, Empty, fuel);
    ExampleRow(inter, polyDiff);
    assert Rows(meets, inter, polyDiff, [Whole], bs, Empty, fuel) == Filtered(meets, inter, Tangled, Empty, fuel);
    ExampleFiltered(inter, fuel);
  }

  /** A point of a that no primitive of b holds, and that no segment of the result holds. */
  predicate LostPoint(a: Segment, b1: Segment, b2: Segment, r: GSet, p: Point2)
  {
    && HasOn(a, p) && !HasOn(b1, p) && !HasOn(b2, p)
    && r.Valid() && r.points == [] && r.surfaces == []
    && forall l :: 0 <= l < |r.segments| ==> !HasOn(r.segments[l].shape.segment, p)
  }

  /**
    The point (4 0) lies on the first geometry and on neither cut, so it
    belongs to the true difference, yet the corrected pass's result does not
    hold it: the piece (3 0,5 0) is lost, because the handle of (0 0,5 0)
    is nulled after its first hit.
  */
  lemma FreshTempLosesPiece(inter: Dimensions.Intersection, polyDiff: PolygonDifference, a: GSet, b: GSet, fuel: nat)
    requires ExampleCuts(inter) && a.Primitives() == [Whole] && b.Primitives() == [Cut1, Cut2]
    ensures var d := DifferenceOf(IntersectsTest(), inter, polyDiff, a, b, Empty, fuel);
      d.Some? && LostPoint(Whole.shape.segment, Cut1.shape.segment, Cut2.shape.segment, d.value, Point2(4.0, 0.0))
  {
    ExampleDifference(inter, polyDiff, a, b, fuel);
    ExampleLostPoint();
  }

  lemma ExampleLostPoint()
    ensures LostPoint(Whole.shape.segment, Cut1.shape.segment, Cut2.shape.segment, BothPieces, Point2(4.0, 0.0))
  {
    var p := Point2(4.0, 0.0);
    OnWhole(p);
    OffAxisPiece(2.0, 3.0, p);
    OffAxisPiece(5.0, 6.0, p);
    BothPiecesSet();
    OffBothPieces(p);
  }

  lemma OnWhole(p: Point2)
    requires p == Point2(4.0, 0.0)
    ensures HasOn(Whole.shape.segment, p)
  {
  }

  lemma OffAxisPiece(x0: real, x1: real, p: Point2)
    requires x0 < x1 && p.y == 0.0 && (p.x < x0 || x1 < p.x)
    ensures !HasOn(SegmentOf(x0, 0.0, x1, 0.0).shape.segment, p)
  {
  }

  lemma OffBothPieces(p: Point2)
    requires p == Point2(4.0, 0.0)
    ensures BothPieces.points == [] && BothPieces.surfaces == []
    ensures forall l :: 0 <= l < |BothPieces.segments| ==> !HasOn(BothPieces.segments[l].shape.segment, p)
  {
    forall l | 0 <= l < |BothPieces.segments| ensures !HasOn(BothPieces.segments[l].shape.segment, p) {
      if l == 0 {
        OffAxisPiece(0.0, 2.0, p);
      } else {
        OffAxisPiece(6.0, 10.0, p);
      }
    }
  }


}
