/**
  Rebuilding a geometry from a geometry set (2D): points become Points,
  runs of connected segments become LineStrings, surfaces become
  Triangles or Polygons, and several parts are gathered in the most
  specific collection that fits them.
*/
module Recomposition {
  import opened Options
  import opened Kernel
  import opened Primitives
  import opened Geometries
  import opened GeometrySets

  // ---------------------------------------------------------------------
  // Points
  // ---------------------------------------------------------------------

  function PointParts(points: seq<Primitive>): (r: seq<Geometry>)
    requires AllOfType(points, PrimitivePoint)
    ensures |r| == |points|
    ensures forall i :: 0 <= i < |r| ==> r[i] == PointGeom(Some(points[i].shape.point))
  {
    seq(|points|, i requires 0 <= i < |points| => PointGeom(Some(points[i].shape.point)))
  }

  /** recompose_points: one Point per point, in set order. */
  method RecomposePoints(points: seq<Primitive>) returns (rpoints: seq<Geometry>)
    requires AllOfType(points, PrimitivePoint)
    ensures rpoints == PointParts(points)
  {
    rpoints := [];
    if |points| == 0 {
      return;
    }
    for i := 0 to |points|
      invariant rpoints == PointParts(points[..i])
    {
      rpoints := rpoints + [PointGeom(Some(points[i].shape.point))];
    }
    assert points[..|points|] == points;
  }

  // ---------------------------------------------------------------------
  // Segments
  // ---------------------------------------------------------------------

  function SegmentsOf(segments: seq<Primitive>): (r: seq<Segment>)
    requires AllOfType(segments, PrimitiveSegment)
    ensures |r| == |segments|
    ensures forall i :: 0 <= i < |r| ==> SegmentShape(r[i]) == segments[i].shape
  {
    seq(|segments|, i requires 0 <= i < |segments| => segments[i].shape.segment)
  }

  function Last<T>(s: seq<T>): T
    requires |s| > 0
  {
    s[|s| - 1]
  }

  /**
    The point runs recompose_segments builds from segments in set order:
    a new run starts whenever a segment's source is not the previous
    segment's target.
  */
  function Chains(ss: seq<Segment>): (cs: seq<seq<Point2>>)
    ensures |ss| > 0 <==> |cs| > 0
    ensures forall k :: 0 <= k < |cs| ==> |cs[k]| >= 2
    ensures |ss| > 0 ==> Last(Last(cs)) == Last(ss).target
    ensures |ss| > 0 ==> cs[0][0] == ss[0].source
    decreases |ss|
  {
    if ss == [] then []
    else if |ss| == 1 then [[ss[0].source, ss[0].target]]
    else
      var cs := Chains(ss[..|ss| - 1]);
      var s := ss[|ss| - 1];
      if ss[|ss| - 2].target != s.source then cs + [[s.source, s.target]]
      else cs[..|cs| - 1] + [Last(cs) + [s.target]]
  }

  /** The segments of a run: from each point to the next. */
  function Steps(c: seq<Point2>): (r: seq<Segment>)
    ensures |r| == if |c| == 0 then 0 else |c| - 1
  {
    if |c| <= 1 then [] else seq(|c| - 1, i requires 0 <= i < |c| - 1 => Segment(c[i], c[i + 1]))
  }

  /** The segments of all runs, run after run. */
  function AllSteps(cs: seq<seq<Point2>>): seq<Segment>
    decreases |cs|
  {
    if cs == [] then [] else AllSteps(cs[..|cs| - 1]) + Steps(Last(cs))
  }

  lemma StepsSnoc(c: seq<Point2>, p: Point2)
    requires |c| >= 1
    ensures Steps(c + [p]) == Steps(c) + [Segment(Last(c), p)]
  {
  }

  lemma AllStepsSnoc(cs: seq<seq<Point2>>, c: seq<Point2>)
    ensures AllSteps(cs + [c]) == AllSteps(cs) + Steps(c)
  {
    assert (cs + [c])[..|cs|] == cs;
  }

  function Init<T>(s: seq<T>): seq<T>
    requires |s| > 0
  {
    s[..|s| - 1]
  }

  /** How the runs grow by one segment: a new run at a break, otherwise the last run extended. */
  lemma ChainsSnoc(ss: seq<Segment>, s: Segment)
    requires |ss| > 0
    ensures var cs := Chains(ss); var cs2 := Chains(ss + [s]);
      if Last(ss).target != s.source then cs2 == cs + [[s.source, s.target]]
      else |cs2| == |cs| && Init(cs2) == Init(cs) && Last(cs2) == Last(cs) + [s.target]
  {
    assert (ss + [s])[..|ss|] == ss;
    assert (ss + [s])[|ss| - 1] == Last(ss);
  }

  /** Reading the runs back as segments gives the segments, in order: nothing is lost or invented. */
  lemma {:induction false} ChainsRoundTrip(ss: seq<Segment>)
    ensures AllSteps(Chains(ss)) == ss
    decreases |ss|
  {
    if |ss| == 1 {
      assert Chains(ss) == [] + [[ss[0].source, ss[0].target]];
      AllStepsSnoc([], [ss[0].source, ss[0].target]);
    } else if |ss| > 1 {
      var ss' := Init(ss);
      var s := Last(ss);
      assert ss == ss' + [s];
      var cs := Chains(ss');
      ChainsRoundTrip(ss');
      ChainsSnoc(ss', s);
      if Last(ss').target != s.source {
        AllStepsSnoc(cs, [s.source, s.target]);
      } else {
        ExtendRunSteps(cs, Chains(ss), s);
      }
    }
  }

  /** Extending the last run by the target of a segment that starts where the run ends adds that segment. */
  lemma ExtendRunSteps(cs: seq<seq<Point2>>, cs2: seq<seq<Point2>>, s: Segment)
    requires |cs| > 0 && |Last(cs)| >= 1 && Last(Last(cs)) == s.source
    requires |cs2| == |cs| && Init(cs2) == Init(cs) && Last(cs2) == Last(cs) + [s.target]
    ensures AllSteps(cs2) == AllSteps(cs) + [s]
  {
    assert cs == Init(cs) + [Last(cs)];
    assert cs2 == Init(cs) + [Last(cs) + [s.target]];
    AllStepsSnoc(Init(cs), Last(cs));
    AllStepsSnoc(Init(cs), Last(cs) + [s.target]);
    StepsSnoc(Last(cs), s.target);
  }

  /**
    Runs are maximal: each ends where the next does not start, so no two
    consecutive line strings could have been joined.
  */
  lemma {:induction false} ChainsAreMaximal(ss: seq<Segment>)
    ensures var cs := Chains(ss);
      forall k :: 0 <= k < |cs| - 1 ==> Last(cs[k]) != cs[k + 1][0]
    decreases |ss|
  {
    if |ss| > 1 {
      var ss' := Init(ss);
      var s := Last(ss);
      assert ss == ss' + [s];
      var cs := Chains(ss');
      var cs2 := Chains(ss);
      ChainsAreMaximal(ss');
      ChainsSnoc(ss', s);
      forall k | 0 <= k < |cs2| - 1 ensures Last(cs2[k]) != cs2[k + 1][0] {
        if k < |cs| - 1 {
          assert Last(cs[k]) != cs[k + 1][0];
          assert cs2[k] == cs[k] by { assert cs2[k] == Init(cs2)[k] && cs[k] == Init(cs)[k]; }
          if Last(ss').target != s.source || k + 1 < |cs| - 1 {
            assert cs2[k + 1] == cs[k + 1];
          } else {
            assert cs2[k + 1] == Last(cs) + [s.target];
          }
        } else {
          assert Last(ss').target != s.source;
          assert cs2[k] == Last(cs) && cs2[k + 1] == [s.source, s.target];
        }
      }
    }
  }

  function LineParts(cs: seq<seq<Point2>>): (r: seq<Geometry>)
    ensures |r| == |cs|
    ensures forall k :: 0 <= k < |r| ==> r[k] == LineStringGeom(cs[k])
  {
    seq(|cs|, k requires 0 <= k < |cs| => LineStringGeom(cs[k]))
  }

  lemma LinePartsSnoc(cs: seq<seq<Point2>>)
    requires |cs| > 0
    ensures LineParts(cs) == LineParts(Init(cs)) + [LineStringGeom(Last(cs))]
  {
  }

  /** The runs of the first segment alone: one run, nothing emitted before it. */
  lemma RecomposeFirst(ss: seq<Segment>)
    requires |ss| > 0
    ensures [] == LineParts(Init(Chains(ss[..1]))) && [ss[0].source, ss[0].target] == Last(Chains(ss[..1]))
  {
    assert ss[..1] == [ss[0]];
  }

  /**
    One more segment: at a break the current run is emitted and a new run
    starts with the segment, otherwise the run grows by its target.
  */
  lemma RecomposeStep(ss: seq<Segment>, i: nat, lines: seq<Geometry>, ls: seq<Point2>)
    requires 0 < i < |ss|
    requires lines == LineParts(Init(Chains(ss[..i]))) && ls == Last(Chains(ss[..i]))
    ensures ss[i - 1].target != ss[i].source ==>
      lines + [LineStringGeom(ls)] == LineParts(Init(Chains(ss[..i + 1]))) &&
      [ss[i].source, ss[i].target] == Last(Chains(ss[..i + 1]))
    ensures ss[i - 1].target == ss[i].source ==>
      lines == LineParts(Init(Chains(ss[..i + 1]))) && ls + [ss[i].target] == Last(Chains(ss[..i + 1]))
  {
    assert ss[..i + 1] == ss[..i] + [ss[i]];
    assert Last(ss[..i]) == ss[i - 1];
    var cs := Chains(ss[..i]);
    ChainsSnoc(ss[..i], ss[i]);
    LinePartsSnoc(cs);
    if ss[i - 1].target != ss[i].source {
      assert Init(cs + [[ss[i].source, ss[i].target]]) == cs;
    }
  }

  /** The run still open at the end is the last line string. */
  lemma RecomposeLast(ss: seq<Segment>, lines: seq<Geometry>, ls: seq<Point2>)
    requires |ss| > 0
    requires lines == LineParts(Init(Chains(ss))) && ls == Last(Chains(ss))
    ensures lines + [LineStringGeom(ls)] == LineParts(Chains(ss))
  {
    LinePartsSnoc(Chains(ss));
  }

  /** The state of recompose_segments after walking the first i segments. */
  ghost predicate Walked(ss: seq<Segment>, i: nat, lines: seq<Geometry>, ls: seq<Point2>, first: bool, lastSeg: Segment)
    requires i <= |ss|
  {
    (i == 0 ==> first && ls == [] && lines == []) &&
    (i > 0 ==>
      !first && lastSeg == ss[i - 1] &&
      lines == LineParts(Init(Chains(ss[..i]))) && ls == Last(Chains(ss[..i])))
  }

  /** One turn of recompose_segments: close the current line string at a break, then extend it by the segment. */
  method WalkSegment(ghost ss: seq<Segment>, i: nat, s: Segment, lines: seq<Geometry>, ls: seq<Point2>, first: bool, lastSeg: Segment)
    returns (lines': seq<Geometry>, ls': seq<Point2>, first': bool)
    requires i < |ss| && s == ss[i]
    requires Walked(ss, i, lines, ls, first, lastSeg)
    ensures Walked(ss, i + 1, lines', ls', first', s)
  {
    if i == 0 { RecomposeFirst(ss); } else { RecomposeStep(ss, i, lines, ls); }
    lines', ls', first' := lines, ls, first;
    if !first' && lastSeg.target != s.source {
      lines' := lines' + [LineStringGeom(ls')];
      ls' := [];
      first' := true;
    }
    if first' {
      ls' := ls' + [s.source];
      first' := false;
    }
    ls' := ls' + [s.target];
  }

  /** recompose_segments: walk the segment set, starting a new line string at each break. */
  method RecomposeSegments(segments: seq<Primitive>) returns (lines: seq<Geometry>)
    requires AllOfType(segments, PrimitiveSegment)
    ensures lines == LineParts(Chains(SegmentsOf(segments)))
  {
    ghost var ss := SegmentsOf(segments);
    lines := [];
    if |segments| == 0 { return; }
    var ls: seq<Point2> := [];
    var first := true;
    var lastSeg := Segment(Point2(0.0, 0.0), Point2(0.0, 0.0));
    for i := 0 to |segments|
      invariant Walked(ss, i, lines, ls, first, lastSeg)
    {
      var s := segments[i].shape.segment;
      assert s == ss[i];
      lines, ls, first := WalkSegment(ss, i, s, lines, ls, first, lastSeg);
      lastSeg := s;
    }
    assert ss[..|segments|] == ss;
    RecomposeLast(ss, lines, ls);
    lines := lines + [LineStringGeom(ls)];
  }

  // ---------------------------------------------------------------------
  // Surfaces
  // ---------------------------------------------------------------------

  /** A hole-free surface with three vertices comes back as a Triangle, any other as a Polygon. */
  function SurfacePart(p: Polygon): Geometry
  {
    if p.holes == [] && |p.outer| == 3 then TriangleGeom(Some(Triangle2(p.outer[0], p.outer[1], p.outer[2])))
    else PolygonGeom(p)
  }

  function SurfaceParts(surfaces: seq<Primitive>): (r: seq<Geometry>)
    requires AllOfType(surfaces, PrimitiveSurface)
    ensures |r| == |surfaces|
    ensures forall i :: 0 <= i < |r| ==> r[i] == SurfacePart(surfaces[i].shape.polygon)
  {
    seq(|surfaces|, i requires 0 <= i < |surfaces| => SurfacePart(surfaces[i].shape.polygon))
  }

  /** recompose_surfaces (2D). */
  method RecomposeSurfaces(surfaces: seq<Primitive>) returns (output: seq<Geometry>)
    requires AllOfType(surfaces, PrimitiveSurface)
    ensures output == SurfaceParts(surfaces)
  {
    output := [];
    for i := 0 to |surfaces|
      invariant output == SurfaceParts(surfaces[..i])
    {
      var poly := surfaces[i].shape.polygon;
      if poly.holes == [] && |poly.outer| == 3 {
        var p1, p2, p3 := poly.outer[0], poly.outer[1], poly.outer[2];
        output := output + [TriangleGeom(Some(Triangle2(p1, p2, p3)))];
      } else {
        output := output + [PolygonGeom(poly)];
      }
    }
    assert surfaces[..|surfaces|] == surfaces;
  }

  /**
    A surface survives being rebuilt and decomposed again unless it is a
    clockwise triangle, which comes back turned round: same first vertex,
    other two swapped.
  */
  lemma SurfaceRoundTrip(p: Polygon)
    requires p.outer != []
    ensures var back := Decomposition(Empty, SurfacePart(p));
      if p.holes == [] && |p.outer| == 3 && OrientationOf(p.outer[0], p.outer[1], p.outer[2]) == Clockwise
      then back.surfaces == [Make(SurfaceShape(Polygon([p.outer[0], p.outer[2], p.outer[1]], [])))]
      else back.surfaces == [Make(SurfaceShape(p))]
  {
    if p.holes == [] && |p.outer| == 3 {
      assert p.outer == [p.outer[0], p.outer[1], p.outer[2]];
    }
  }

  // ---------------------------------------------------------------------
  // The whole set
  // ---------------------------------------------------------------------

  /** Every part, in the order recompose gathers them; 2D volumes give none. */
  function Parts(g: GSet): seq<Geometry>
    requires g.Valid()
  {
    PointParts(g.points) + LineParts(Chains(SegmentsOf(g.segments))) + SurfaceParts(g.surfaces)
  }

  predicate SameType(parts: seq<Geometry>)
    requires |parts| > 0
  {
    forall i :: 0 <= i < |parts| ==> parts[i].TypeId() == parts[0].TypeId()
  }

  /** The collection recompose picks for parts that all have type t, if it has one. */
  function MultiKind(t: GeometryType): Option<CollectionKind>
  {
    if t == TypePoint then Some(MultiPoint)
    else if t == TypeLineString then Some(MultiLineString)
    else if t == TypePolygon then Some(MultiPolygon)
    else if t == TypeSolid then Some(MultiSolid)
    else None
  }

  /**
    recompose as written: None where the collection pointer is left unset,
    which happens when several parts share a type with no Multi class
    (triangles in 2D).
  */
  function RecomposeAsWritten(g: GSet): Option<Geometry>
    requires g.Valid()
  {
    var parts := Parts(g);
    if |parts| == 0 then Some(CollectionGeom(GeometryCollection, []))
    else if |parts| == 1 then Some(parts[0])
    else if SameType(parts) then
      match MultiKind(parts[0].TypeId())
      case Some(k) => Some(CollectionGeom(k, parts))
      case None => None
    else Some(CollectionGeom(GeometryCollection, parts))
  }

  /** recompose, with a shared type that has no Multi class gathered in a GeometryCollection. */
  function Recomposed(g: GSet): Geometry
    requires g.Valid()
  {
    Gathered(Parts(g))
  }

  /** The geometry that holds the given parts: none, the one part, or the most specific collection. */
  function Gathered(parts: seq<Geometry>): Geometry
  {
    if |parts| == 0 then CollectionGeom(GeometryCollection, [])
    else if |parts| == 1 then parts[0]
    else if SameType(parts) && MultiKind(parts[0].TypeId()).Some? then
      CollectionGeom(MultiKind(parts[0].TypeId()).value, parts)
    else CollectionGeom(GeometryCollection, parts)
  }

  /** The corrected recompose agrees with the source wherever the source defines a result. */
  lemma RecomposedAgreesWhereDefined(g: GSet)
    requires g.Valid()
    ensures RecomposeAsWritten(g).Some? ==> RecomposeAsWritten(g).value == Recomposed(g)
    ensures RecomposeAsWritten(g).None? <==>
      |Parts(g)| >= 2 && SameType(Parts(g)) && MultiKind(Parts(g)[0].TypeId()).None?
  {
  }

  /** Two separate triangles: the source leaves its result pointer unset. */
  lemma TwoTrianglesLeaveResultUnset()
    ensures var t1 := Make(SurfaceShape(Polygon([Point2(0.0, 0.0), Point2(1.0, 0.0), Point2(0.0, 1.0)], [])));
      var t2 := Make(SurfaceShape(Polygon([Point2(2.0, 0.0), Point2(3.0, 0.0), Point2(2.0, 1.0)], [])));
      var g := GSet([], [], [t1, t2], [], false);
      g.Valid() && RecomposeAsWritten(g).None?
      && Recomposed(g) == CollectionGeom(GeometryCollection, [SurfacePart(t1.shape.polygon), SurfacePart(t2.shape.polygon)])
  {
    var t1 := Make(SurfaceShape(Polygon([Point2(0.0, 0.0), Point2(1.0, 0.0), Point2(0.0, 1.0)], [])));
    var t2 := Make(SurfaceShape(Polygon([Point2(2.0, 0.0), Point2(3.0, 0.0), Point2(2.0, 1.0)], [])));
    var g := GSet([], [], [t1, t2], [], false);
    var parts := [SurfacePart(t1.shape.polygon), SurfacePart(t2.shape.polygon)];
    assert g.Valid();
    assert SegmentsOf([]) == [] && PointParts([]) == [] && LineParts(Chains([])) == [];
    assert SurfaceParts(g.surfaces) == parts;
    assert Parts(g) == parts;
  }

  /** An empty set rebuilds as an empty GeometryCollection. */
  lemma RecomposeEmpty(g: GSet)
    requires g.Valid() && g.points == [] && g.segments == [] && g.surfaces == []
    ensures Recomposed(g) == CollectionGeom(GeometryCollection, [])
  {
    assert SegmentsOf([]) == [];
  }

  /** Parts of different types are gathered in a GeometryCollection. */
  lemma RecomposeMixed(g: GSet)
    requires g.Valid() && g.points != [] && (g.segments != [] || g.surfaces != [])
    ensures Recomposed(g) == CollectionGeom(GeometryCollection, Parts(g))
  {
    var parts := Parts(g);
    var pp := PointParts(g.points);
    var lp := LineParts(Chains(SegmentsOf(g.segments)));
    var sp := SurfaceParts(g.surfaces);
    assert parts[0] == pp[0];
    if g.segments != [] {
      assert parts[|pp|] == lp[0];
    } else {
      assert parts[|pp| + |lp|] == sp[0];
      assert sp[0].TypeId() != TypePoint;
    }
  }

  /** Several points and nothing else rebuild as a MultiPoint of the points in set order. */
  lemma RecomposePointsOnly(g: GSet)
    requires g.Valid() && |g.points| >= 2 && g.segments == [] && g.surfaces == []
    ensures Recomposed(g) == CollectionGeom(MultiPoint, PointParts(g.points))
  {
    assert SegmentsOf([]) == [];
    assert Parts(g) == PointParts(g.points);
  }

  /** Decomposing a recomposed set decomposes its parts one after another, whatever collection holds them. */
  lemma DecomposeRecomposed(h: GSet, g: GSet)
    requires h.Valid() && g.Valid()
    ensures Decomposition(h, Recomposed(g)) == DecompositionAll(h, Parts(g))
  {
    DecomposeGathered(h, Parts(g));
  }

  /** Decomposing the gathered geometry decomposes its parts in order. */
  lemma DecomposeGathered(h: GSet, parts: seq<Geometry>)
    requires h.Valid()
    ensures Decomposition(h, Gathered(parts)) == DecompositionAll(h, parts)
  {
    if |parts| == 0 {
      DecomposeCollection(h, GeometryCollection, []);
    } else if |parts| == 1 {
      assert parts == [] + [parts[0]];
      DecompositionAllSnoc(h, [], parts[0]);
    } else {
      var r := Gathered(parts);
      assert r.CollectionGeom? && r.members == parts;
      DecomposeCollection(h, r.kind, parts);
    }
  }

  lemma DecomposeCollection(h: GSet, k: CollectionKind, ms: seq<Geometry>)
    requires h.Valid()
    ensures Decomposition(h, CollectionGeom(k, ms)) == DecompositionAll(h, ms)
  {
  }

  function SegmentPrimitives(ss: seq<Segment>): (r: seq<Primitive>)
    ensures |r| == |ss|
    ensures forall i :: 0 <= i < |r| ==> r[i] == Make(SegmentShape(ss[i]))
  {
    seq(|ss|, i requires 0 <= i < |ss| => Make(SegmentShape(ss[i])))
  }

  lemma SegmentPrimitivesOfRun(cs: seq<seq<Point2>>)
    requires |cs| > 0
    ensures SegmentPrimitives(AllSteps(cs)) == SegmentPrimitives(AllSteps(Init(cs))) + LineSegments(Last(cs))
  {
    var a, b := AllSteps(Init(cs)), Steps(Last(cs));
    assert AllSteps(cs) == a + b;
    SegmentPrimitivesAppend(a, b);
    SegmentPrimitivesOfSteps(Last(cs));
  }

  lemma SegmentPrimitivesAppend(a: seq<Segment>, b: seq<Segment>)
    ensures SegmentPrimitives(a + b) == SegmentPrimitives(a) + SegmentPrimitives(b)
  {
  }

  lemma SegmentPrimitivesOfSteps(c: seq<Point2>)
    ensures SegmentPrimitives(Steps(c)) == LineSegments(c)
  {
    if |c| > 1 {
      forall i | 0 <= i < |c| - 1 ensures SegmentPrimitives(Steps(c))[i] == LineSegments(c)[i] {
        assert LineSegments(c)[i] == Make(StepKey(c, i));
      }
    }
  }

  /** Decomposing the line strings of runs adds the runs' segments in order. */
  lemma {:induction false} LinePartsDecompose(cs: seq<seq<Point2>>)
    requires forall k :: 0 <= k < |cs| ==> |cs[k]| >= 2
    ensures DecompositionAll(Empty, LineParts(cs)) == AddAll(Empty, SegmentPrimitives(AllSteps(cs)))
    decreases |cs|
  {
    if cs != [] {
      var cs' := Init(cs);
      var c := Last(cs);
      LinePartsDecompose(cs');
      LinePartsSnoc(cs);
      DecompositionAllSnoc(Empty, LineParts(cs'), LineStringGeom(c));
      var h := DecompositionAll(Empty, LineParts(cs'));
      assert Decomposition(h, LineStringGeom(c)) == AddAll(h, LineSegments(c));
      SegmentPrimitivesOfRun(cs);
      AddAllAppend(Empty, SegmentPrimitives(AllSteps(cs')), LineSegments(c));
    }
  }

  /**
    Decomposing what was recomposed from a set of segments gives the same
    set back (when every flag is 0, as recompose does not carry flags).
  */
  lemma SegmentsRoundTrip(g: GSet)
    requires g.Valid() && g.points == [] && g.surfaces == [] && g.volumes == []
    requires forall i :: 0 <= i < |g.segments| ==> g.segments[i].flags == 0
    ensures Decomposition(Empty, Recomposed(g)) == g.(complete := false)
  {
    assert Parts(g) == LineParts(Chains(SegmentsOf(g.segments))) by {
      assert PointParts([]) == [] && SurfaceParts([]) == [];
    }
    SegmentChainsRoundTrip(g.segments);
  }

  /** The chains of a segment set, gathered and decomposed, give the segment set back. */
  lemma SegmentChainsRoundTrip(segs: seq<Primitive>)
    requires IsSet(segs, PrimitiveSegment)
    requires forall i :: 0 <= i < |segs| ==> segs[i].flags == 0
    ensures Decomposition(Empty, Gathered(LineParts(Chains(SegmentsOf(segs))))) == Empty.(segments := segs)
  {
    var ss := SegmentsOf(segs);
    var cs := Chains(ss);
    DecomposeGathered(Empty, LineParts(cs));
    ChainsRoundTrip(ss);
    LinePartsDecompose(cs);
    SegmentsRebuilt(segs);
  }

  /** Adding the segments of a segment set with flags 0 to an empty set rebuilds it. */
  lemma SegmentsRebuilt(segs: seq<Primitive>)
    requires IsSet(segs, PrimitiveSegment)
    requires forall i :: 0 <= i < |segs| ==> segs[i].flags == 0
    ensures AddAll(Empty, SegmentPrimitives(SegmentsOf(segs))) == Empty.(segments := segs)
  {
    assert SegmentPrimitives(SegmentsOf(segs)) == segs;
    AddRunRebuilds(Empty, segs, PrimitiveSegment);
  }

  lemma {:induction false} PointPartsDecompose(points: seq<Primitive>)
    requires AllOfType(points, PrimitivePoint)
    requires forall i :: 0 <= i < |points| ==> points[i].flags == 0
    ensures DecompositionAll(Empty, PointParts(points)) == AddAll(Empty, points)
    decreases |points|
  {
    if points != [] {
      var ps' := Init(points);
      var q := PointGeom(Some(Last(points).shape.point));
      PointPartsDecompose(ps');
      PointPartsSnoc(points);
      DecompositionAllSnoc(Empty, PointParts(ps'), q);
      PointPartDecompose(DecompositionAll(Empty, PointParts(ps')), Last(points));
      assert points == ps' + [Last(points)];
      AddAllSnoc(Empty, ps', Last(points));
    }
  }

  lemma PointPartsSnoc(points: seq<Primitive>)
    requires AllOfType(points, PrimitivePoint) && |points| > 0
    ensures PointParts(points) == PointParts(Init(points)) + [PointGeom(Some(Last(points).shape.point))]
  {
  }

  /** The Point recomposed from a point primitive decomposes back to that primitive. */
  lemma PointPartDecompose(h: GSet, p: Primitive)
    requires h.Valid() && p.shape.PointShape? && p.flags == 0
    ensures Decomposition(h, PointGeom(Some(p.shape.point))) == Add(h, p)
  {
    assert Make(PointShape(p.shape.point)) == p;
  }

  /**
    Decomposing what was recomposed from a set of points gives the same
    set back (when every flag is 0).
  */
  lemma PointsRoundTrip(g: GSet)
    requires g.Valid() && g.segments == [] && g.surfaces == [] && g.volumes == []
    requires forall i :: 0 <= i < |g.points| ==> g.points[i].flags == 0
    ensures Decomposition(Empty, Recomposed(g)) == g.(complete := false)
  {
    assert Parts(g) == PointParts(g.points) by {
      assert SegmentsOf([]) == [] && Chains([]) == [] && LineParts([]) == [] && SurfaceParts([]) == [];
    }
    DecomposeGathered(Empty, PointParts(g.points));
    PointPartsDecompose(g.points);
    AddRunRebuilds(Empty, g.points, PrimitivePoint);
  }

  /** The common-type scan of recompose: stops at the first part whose type differs from the first. */
  method HasCommonType(geometries: seq<Geometry>) returns (has: bool)
    requires |geometries| > 0
    ensures has <==> SameType(geometries)
  {
    has := true;
    var commonType := geometries[0].TypeId();
    var i := 0;
    while i < |geometries|
      invariant 0 <= i <= |geometries|
      invariant has <==> forall j :: 0 <= j < i ==> geometries[j].TypeId() == commonType
      invariant !has ==> i < |geometries|
      decreases |geometries| - i, if has then 1 else 0
    {
      if geometries[i].TypeId() != commonType {
        has := false;
        break;
      }
      i := i + 1;
    }
  }

  /** recompose (2D), with the unset-pointer case gathered in a GeometryCollection. */
  method Recompose(s: GeometrySet) returns (r: Geometry)
    requires s.Valid()
    ensures r == Recomposed(s.Value())
  {
    var rpoints := RecomposePoints(s.points);
    var lines := RecomposeSegments(s.segments);
    var surfaces := RecomposeSurfaces(s.surfaces);
    // recompose_volumes adds nothing in 2D
    var geometries := rpoints + lines + surfaces;
    assert geometries == Parts(s.Value());
    r := Gather(geometries);
  }

  /** The tail of recompose: the parts wrapped in nothing, or in the most specific collection that holds them. */
  method Gather(geometries: seq<Geometry>) returns (r: Geometry)
    ensures r == Gathered(geometries)
  {
    if |geometries| == 0 {
      return CollectionGeom(GeometryCollection, []);
    }
    if |geometries| == 1 {
      return geometries[0];
    }
    var hasCommonType := HasCommonType(geometries);
    var kind := GeometryCollection;
    if hasCommonType {
      var commonType := geometries[0].TypeId();
      if commonType == TypePoint {
        kind := MultiPoint;
      } else if commonType == TypeLineString {
        kind := MultiLineString;
      } else if commonType == TypePolygon {
        kind := MultiPolygon;
      } else if commonType == TypeSolid {
        kind := MultiSolid;
      }
    }
    var members: seq<Geometry> := [];
    for i := 0 to |geometries|
      invariant members == geometries[..i]
    {
      members := members + [geometries[i]];
    }
    assert geometries[..|geometries|] == geometries;
    r := CollectionGeom(kind, members);
  }
}
