/**
  The 2D geometry set: four collections of primitives, one per kind.
  Points and segments are ordered sets without duplicate keys (std::set),
  surfaces and volumes are lists that keep insertion order and duplicates
  (std::list). The value `GSet` is the specification; the class
  `GeometrySet` updates its fields in place as the source does.
*/
module GeometrySets {
  import opened Options
  import opened Kernel
  import opened Primitives
  import opened Geometries

  // ---------------------------------------------------------------------
  // Ordered sets of primitives
  // ---------------------------------------------------------------------

  predicate AllOfType(s: seq<Primitive>, k: PrimitiveType)
  {
    forall i :: 0 <= i < |s| ==> s[i].GetType() == k
  }

  predicate StrictlySorted(s: seq<Primitive>)
  {
    forall i, j :: 0 <= i < j < |s| ==> Less(s[i], s[j])
  }

  /** The contents of a std::set of primitives of kind k. */
  predicate IsSet(s: seq<Primitive>, k: PrimitiveType)
  {
    AllOfType(s, k) && StrictlySorted(s)
  }

  /** The keys (wrapped values) present in a collection. */
  function Shapes(s: seq<Primitive>): set<Shape>
  {
    set i | 0 <= i < |s| :: s[i].shape
  }

  lemma ShapesAppend(a: seq<Primitive>, b: seq<Primitive>)
    ensures Shapes(a + b) == Shapes(a) + Shapes(b)
  {
    forall x | x in Shapes(a + b) ensures x in Shapes(a) + Shapes(b) {
      var i :| 0 <= i < |a + b| && (a + b)[i].shape == x;
      if i >= |a| { assert b[i - |a|].shape == x; } else { assert a[i].shape == x; }
    }
    forall x | x in Shapes(a) ensures x in Shapes(a + b) {
      var i :| 0 <= i < |a| && a[i].shape == x;
      assert (a + b)[i].shape == x;
    }
    forall x | x in Shapes(b) ensures x in Shapes(a + b) {
      var i :| 0 <= i < |b| && b[i].shape == x;
      assert (a + b)[|a| + i].shape == x;
    }
  }

  lemma SortedHeadBelowAll(x: Primitive, s: seq<Primitive>)
    requires |s| > 0 && IsSet(s, x.GetType()) && Ordered(x.GetType()) && Less(x, s[0])
    ensures forall j :: 0 <= j < |s| ==> Less(x, s[j])
  {
    forall j | 0 < j < |s| ensures Less(x, s[j]) {
      LessIsStrictTotal(x, s[0], s[j]);
    }
  }

  /**
    std::set::insert: x goes in at its place in the order unless an element
    with the same key is already there, in which case nothing changes.
  */
  function SetInsert(s: seq<Primitive>, x: Primitive): (r: seq<Primitive>)
    requires Ordered(x.GetType()) && IsSet(s, x.GetType())
    ensures IsSet(r, x.GetType())
    ensures Shapes(r) == Shapes(s) + {x.shape}
    ensures x.shape in Shapes(s) ==> r == s
    ensures x.shape !in Shapes(s) ==> |r| == |s| + 1 && forall y :: y in r <==> y in s || y == x
    decreases |s|
  {
    if s == [] then
      assert Shapes([x]) == {x.shape} by { assert [x][0].shape == x.shape; }
      [x]
    else if s[0].shape == x.shape then
      s
    else if Less(x, s[0]) then
      PrependBelowAll(s, x);
      [x] + s
    else
      LessIsStrictTotal(s[0], x, x);
      var rest := SetInsert(s[1..], x);
      InsertAfterHead(s, x, rest);
      [s[0]] + rest
  }

  /** A key below a set's least element goes in front, and is new. */
  lemma PrependBelowAll(s: seq<Primitive>, x: Primitive)
    requires Ordered(x.GetType()) && IsSet(s, x.GetType()) && s != [] && Less(x, s[0])
    ensures IsSet([x] + s, x.GetType()) && x.shape !in Shapes(s)
    ensures Shapes([x] + s) == Shapes(s) + {x.shape}
    ensures |[x] + s| == |s| + 1 && forall y :: y in [x] + s <==> y in s || y == x
  {
    SortedHeadBelowAll(x, s);
    ShapesAppend([x], s);
    assert Shapes([x]) == {x.shape} by { assert [x][0].shape == x.shape; }
    forall j | 0 <= j < |s| ensures s[j].shape != x.shape {
      LessIsStrictTotal(x, s[j], s[j]);
    }
  }

  /** A key above a set's least element goes into the rest of the set, after that element. */
  lemma InsertAfterHead(s: seq<Primitive>, x: Primitive, rest: seq<Primitive>)
    requires Ordered(x.GetType()) && IsSet(s, x.GetType()) && s != [] && Less(s[0], x)
    requires IsSet(rest, x.GetType()) && Shapes(rest) == Shapes(s[1..]) + {x.shape}
    requires x.shape in Shapes(s[1..]) ==> rest == s[1..]
    requires x.shape !in Shapes(s[1..]) ==> |rest| == |s| && forall y :: y in rest <==> y in s[1..] || y == x
    ensures IsSet([s[0]] + rest, x.GetType())
    ensures Shapes([s[0]] + rest) == Shapes(s) + {x.shape}
    ensures x.shape in Shapes(s) ==> [s[0]] + rest == s
    ensures x.shape !in Shapes(s) ==> |[s[0]] + rest| == |s| + 1 && forall y :: y in [s[0]] + rest <==> y in s || y == x
  {
    assert s == [s[0]] + s[1..];
    LessIsStrictTotal(s[0], x, x);
    ShapesAppend([s[0]], s[1..]);
    ShapesAppend([s[0]], rest);
    assert Shapes([s[0]]) == {s[0].shape} by { assert [s[0]][0].shape == s[0].shape; }
    forall y | y in rest ensures Less(s[0], y) {
      if y != x {
        var l :| 1 <= l < |s| && s[l] == y;
        assert Less(s[0], s[l]);
      }
    }
  }

  /**
    Where a new key lands: everything before it is smaller, everything
    after it is larger.
  */
  lemma {:induction false} SetInsertSplit(s: seq<Primitive>, x: Primitive) returns (q: nat)
    requires Ordered(x.GetType()) && IsSet(s, x.GetType()) && x.shape !in Shapes(s)
    ensures q <= |s| && SetInsert(s, x) == s[..q] + [x] + s[q..]
    ensures forall i :: 0 <= i < q ==> Less(s[i], x)
    ensures forall i :: q <= i < |s| ==> Less(x, s[i])
    decreases |s|
  {
    if s == [] {
      q := 0;
    } else {
      assert s[0].shape in Shapes(s);
      if Less(x, s[0]) {
        SortedHeadBelowAll(x, s);
        q := 0;
      } else {
        var t := s[1..];
        assert s == [s[0]] + t;
        LessIsStrictTotal(s[0], x, x);
        ShapesAppend([s[0]], t);
        var q' := SetInsertSplit(t, x);
        q := q' + 1;
        assert s[..q] == [s[0]] + t[..q'];
        assert s[q..] == t[q'..];
        AppendAssoc([s[0]], t[..q'] + [x], t[q'..]);
        AppendAssoc([s[0]], t[..q'], [x]);
      }
    }
  }

  // ---------------------------------------------------------------------
  // The value of a geometry set
  // ---------------------------------------------------------------------

  datatype GSet = GSet(points: seq<Primitive>, segments: seq<Primitive>,
                       surfaces: seq<Primitive>, volumes: seq<Primitive>, complete: bool)
  {
    predicate Valid()
    {
      && IsSet(points, PrimitivePoint) && IsSet(segments, PrimitiveSegment)
      && AllOfType(surfaces, PrimitiveSurface) && AllOfType(volumes, PrimitiveVolume)
    }

    /** Every primitive, in iteration order: points, segments, surfaces, volumes. */
    function Primitives(): seq<Primitive>
    {
      points + segments + surfaces + volumes
    }

    /** What primitives_begin(sel) .. primitives_end() visits: -1 is all, 0 to 2 one kind, anything else the volumes. */
    function Selection(sel: int): seq<Primitive>
    {
      if sel == -1 then Primitives()
      else if sel == 0 then points
      else if sel == 1 then segments
      else if sel == 2 then surfaces
      else volumes
    }

    function Size(sel: int): nat
    {
      |Selection(sel)|
    }

    /**
      The largest dimension present, -1 for an empty set. (The member is
      used but not declared by the header this model follows; this is the
      reading its callers rely on.)
    */
    function MaximumDimension(): (d: int)
      ensures -1 <= d <= 3
      ensures d == -1 <==> Primitives() == []
      ensures Valid() ==> forall i :: 0 <= i < |Primitives()| ==> Primitives()[i].GetType().Tag() <= d
      ensures Valid() && d >= 0 ==> exists i :: 0 <= i < |Primitives()| && Primitives()[i].GetType().Tag() == d
    {
      if volumes != [] then
        assert Primitives()[|Primitives()| - 1] == volumes[|volumes| - 1];
        3
      else if surfaces != [] then
        assert Primitives()[|points| + |segments|] == surfaces[0];
        2
      else if segments != [] then
        assert Primitives()[|points|] == segments[0];
        1
      else if points != [] then
        assert Primitives()[0] == points[0];
        0
      else -1
    }
  }

  const Empty: GSet := GSet([], [], [], [], false)

  /**
    Typed insertion (the addPrimitive overloads for each kind): only the
    collection of p's kind changes; points and segments by key, surfaces
    and volumes appended.
  */
  function Add(g: GSet, p: Primitive): (r: GSet)
    requires g.Valid()
    ensures r.Valid() && r.complete == g.complete
    ensures p.GetType() != PrimitivePoint ==> r.points == g.points
    ensures p.GetType() != PrimitiveSegment ==> r.segments == g.segments
    ensures p.GetType() != PrimitiveSurface ==> r.surfaces == g.surfaces
    ensures p.GetType() != PrimitiveVolume ==> r.volumes == g.volumes
    ensures p.GetType() == PrimitivePoint ==> Shapes(r.points) == Shapes(g.points) + {p.shape}
    ensures p.GetType() == PrimitiveSegment ==> Shapes(r.segments) == Shapes(g.segments) + {p.shape}
    ensures p.GetType() == PrimitiveSurface ==> r.surfaces == g.surfaces + [p]
    ensures p.GetType() == PrimitiveVolume ==> r.volumes == g.volumes + [p]
    ensures forall y :: y in g.points ==> y in r.points
    ensures forall y :: y in g.segments ==> y in r.segments
    ensures p.GetType() == PrimitivePoint && p.shape !in Shapes(g.points) ==> p in r.points
    ensures p.GetType() == PrimitiveSegment && p.shape !in Shapes(g.segments) ==> p in r.segments
  {
    match p.GetType()
    case PrimitivePoint => g.(points := SetInsert(g.points, p))
    case PrimitiveSegment => g.(segments := SetInsert(g.segments, p))
    case PrimitiveSurface => g.(surfaces := g.surfaces + [p])
    case PrimitiveVolume => g.(volumes := g.volumes + [p])
  }

  /** Inserting a point or segment whose key is present changes nothing. */
  lemma AddPresentKeyIsNoOp(g: GSet, p: Primitive)
    requires g.Valid()
    requires (p.GetType() == PrimitivePoint && p.shape in Shapes(g.points))
          || (p.GetType() == PrimitiveSegment && p.shape in Shapes(g.segments))
    ensures Add(g, p) == g
  {
  }

  /** Surfaces and volumes keep duplicates: adding one twice stores it twice. */
  lemma AddSurfaceTwiceKeepsBoth(g: GSet, p: Primitive)
    requires g.Valid() && p.GetType() == PrimitiveSurface
    ensures Add(Add(g, p), p).surfaces == g.surfaces + [p, p]
  {
  }

  /** The elements of kind k of xs, in order. */
  function OfType(xs: seq<Primitive>, k: PrimitiveType): (r: seq<Primitive>)
    ensures AllOfType(r, k) && |r| <= |xs|
    decreases |xs|
  {
    if xs == [] then []
    else OfType(xs[..|xs| - 1], k) + (if xs[|xs| - 1].GetType() == k then [xs[|xs| - 1]] else [])
  }

  lemma OfTypeSnoc(xs: seq<Primitive>, k: PrimitiveType)
    requires xs != []
    ensures xs[|xs| - 1].GetType() == k ==> OfType(xs, k) == OfType(xs[..|xs| - 1], k) + [xs[|xs| - 1]]
    ensures xs[|xs| - 1].GetType() != k ==> OfType(xs, k) == OfType(xs[..|xs| - 1], k)
  {
  }

  lemma OfTypeAppend(a: seq<Primitive>, b: seq<Primitive>, k: PrimitiveType)
    ensures OfType(a + b, k) == OfType(a, k) + OfType(b, k)
    decreases |b|
  {
    if b == [] {
      assert a + b == a;
    } else {
      assert (a + b)[..|a + b| - 1] == a + b[..|b| - 1];
      OfTypeAppend(a, b[..|b| - 1], k);
    }
  }

  lemma OfTypeAll(xs: seq<Primitive>, k: PrimitiveType)
    requires AllOfType(xs, k)
    ensures OfType(xs, k) == xs
    decreases |xs|
  {
    if xs != [] {
      assert xs == xs[..|xs| - 1] + [xs[|xs| - 1]];
      OfTypeAll(xs[..|xs| - 1], k);
    }
  }

  lemma OfTypeNone(xs: seq<Primitive>, k: PrimitiveType, l: PrimitiveType)
    requires AllOfType(xs, k) && k != l
    ensures OfType(xs, l) == []
    decreases |xs|
  {
    if xs != [] {
      OfTypeNone(xs[..|xs| - 1], k, l);
    }
  }

  /** std::copy into the set: each element inserted in turn. */
  function AddAll(g: GSet, xs: seq<Primitive>): (r: GSet)
    requires g.Valid()
    ensures r.Valid() && r.complete == g.complete
    decreases |xs|
  {
    if xs == [] then g else Add(AddAll(g, xs[..|xs| - 1]), xs[|xs| - 1])
  }

  lemma AddAllSnoc(g: GSet, xs: seq<Primitive>, x: Primitive)
    requires g.Valid()
    ensures AddAll(g, xs + [x]) == Add(AddAll(g, xs), x)
  {
    assert (xs + [x])[..|xs|] == xs;
  }

  lemma {:induction false} AddAllAppend(g: GSet, xs: seq<Primitive>, ys: seq<Primitive>)
    requires g.Valid()
    ensures AddAll(g, xs + ys) == AddAll(AddAll(g, xs), ys)
    decreases |ys|
  {
    if ys == [] {
      assert xs + ys == xs;
    } else {
      var ys' := ys[..|ys| - 1];
      assert xs + ys == (xs + ys') + [ys[|ys| - 1]];
      AddAllSnoc(g, xs + ys', ys[|ys| - 1]);
      AddAllAppend(g, xs, ys');
    }
  }

  /**
    Adding a range: the point and segment keys become old keys plus the
    range's keys, every old element stays, and the surfaces and volumes of
    the range are appended in order.
  */
  lemma AddAllContents(g: GSet, xs: seq<Primitive>)
    requires g.Valid()
    ensures Shapes(AddAll(g, xs).points) == Shapes(g.points) + Shapes(OfType(xs, PrimitivePoint))
    ensures Shapes(AddAll(g, xs).segments) == Shapes(g.segments) + Shapes(OfType(xs, PrimitiveSegment))
    ensures AddAll(g, xs).surfaces == g.surfaces + OfType(xs, PrimitiveSurface)
    ensures AddAll(g, xs).volumes == g.volumes + OfType(xs, PrimitiveVolume)
    ensures forall y :: y in g.points ==> y in AddAll(g, xs).points
    ensures forall y :: y in g.segments ==> y in AddAll(g, xs).segments
  {
    AddAllKeys(g, xs);
    AddAllLists(g, xs);
  }

  /** The point and segment keys after adding a range are the old keys and the range's. */
  lemma {:induction false} AddAllKeys(g: GSet, xs: seq<Primitive>)
    requires g.Valid()
    ensures Shapes(AddAll(g, xs).points) == Shapes(g.points) + Shapes(OfType(xs, PrimitivePoint))
    ensures Shapes(AddAll(g, xs).segments) == Shapes(g.segments) + Shapes(OfType(xs, PrimitiveSegment))
    ensures forall y :: y in g.points ==> y in AddAll(g, xs).points
    ensures forall y :: y in g.segments ==> y in AddAll(g, xs).segments
    decreases |xs|
  {
    if xs != [] {
      var xs' := xs[..|xs| - 1];
      var x := xs[|xs| - 1];
      assert Shapes([x]) == {x.shape} by { assert [x][0].shape == x.shape; }
      AddAllKeys(g, xs');
      assert AddAll(g, xs) == Add(AddAll(g, xs'), x);
      OfTypeSnoc(xs, PrimitivePoint);
      OfTypeSnoc(xs, PrimitiveSegment);
      ShapesAppend(OfType(xs', PrimitivePoint), [x]);
      ShapesAppend(OfType(xs', PrimitiveSegment), [x]);
    }
  }

  /** The surfaces and volumes after adding a range are the old ones followed by the range's, in order. */
  lemma {:induction false} AddAllLists(g: GSet, xs: seq<Primitive>)
    requires g.Valid()
    ensures AddAll(g, xs).surfaces == g.surfaces + OfType(xs, PrimitiveSurface)
    ensures AddAll(g, xs).volumes == g.volumes + OfType(xs, PrimitiveVolume)
    decreases |xs|
  {
    if xs != [] {
      var xs' := xs[..|xs| - 1];
      var x := xs[|xs| - 1];
      AddAllLists(g, xs');
      assert AddAll(g, xs) == Add(AddAll(g, xs'), x);
      OfTypeSnoc(xs, PrimitiveSurface);
      OfTypeSnoc(xs, PrimitiveVolume);
    }
  }

  /** Adding primitives of kind k leaves the other collections as they were. */
  lemma {:induction false} AddAllKeepsOtherKinds(g: GSet, xs: seq<Primitive>, k: PrimitiveType)
    requires g.Valid() && AllOfType(xs, k)
    ensures var r := AddAll(g, xs);
      && (k != PrimitivePoint ==> r.points == g.points)
      && (k != PrimitiveSegment ==> r.segments == g.segments)
      && (k != PrimitiveSurface ==> r.surfaces == g.surfaces)
      && (k != PrimitiveVolume ==> r.volumes == g.volumes)
    decreases |xs|
  {
    if xs != [] {
      AddAllKeepsOtherKinds(g, xs[..|xs| - 1], k);
    }
  }

  lemma AddAllOfOneKind(g: GSet, xs: seq<Primitive>, k: PrimitiveType)
    requires g.Valid() && AllOfType(xs, k)
    ensures var r := AddAll(g, xs);
      && (k == PrimitivePoint ==> Shapes(r.points) == Shapes(g.points) + Shapes(xs))
      && (k == PrimitiveSegment ==> Shapes(r.segments) == Shapes(g.segments) + Shapes(xs))
      && (k == PrimitiveSurface ==> r.surfaces == g.surfaces + xs)
      && (k == PrimitiveVolume ==> r.volumes == g.volumes + xs)
      && (k != PrimitivePoint ==> r.points == g.points)
      && (k != PrimitiveSegment ==> r.segments == g.segments)
      && (k != PrimitiveSurface ==> r.surfaces == g.surfaces)
      && (k != PrimitiveVolume ==> r.volumes == g.volumes)
  {
    AddAllContents(g, xs);
    AddAllKeepsOtherKinds(g, xs, k);
    OfTypeAll(xs, k);
  }

  /** A valid set with flags 0 everywhere is rebuilt by adding its own primitives in order. */
  lemma {:induction false} AddAllOwnPrimitives(g: GSet)
    requires g.Valid()
    ensures AddAll(Empty, g.Primitives()) == g.(complete := false)
  {
    var e3 := g.(complete := false, volumes := []);
    FlatRunsRebuild(g);
    assert e3.Selection(PrimitiveVolume.Tag()) == [];
    AddRunAfter(Empty, g.points + g.segments + g.surfaces, g.volumes, PrimitiveVolume);
  }

  /** Adding a valid set's points, segments and surfaces to an empty set rebuilds those three collections. */
  lemma FlatRunsRebuild(g: GSet)
    requires g.Valid()
    ensures AddAll(Empty, g.points + g.segments + g.surfaces) == g.(complete := false, volumes := [])
  {
    var e2 := g.(complete := false, surfaces := [], volumes := []);
    SortedRunsRebuild(g);
    assert e2.Selection(PrimitiveSurface.Tag()) == [];
    AddRunAfter(Empty, g.points + g.segments, g.surfaces, PrimitiveSurface);
    assert WithRun(e2, PrimitiveSurface, g.surfaces) == g.(complete := false, volumes := []);
  }

  /** Adding a run of one kind after xs, when xs left that kind empty, makes the run that kind's collection. */
  lemma AddRunAfter(g: GSet, xs: seq<Primitive>, ys: seq<Primitive>, k: PrimitiveType)
    requires g.Valid() && AddAll(g, xs).Selection(k.Tag()) == [] && AllOfType(ys, k)
    requires Ordered(k) ==> StrictlySorted(ys)
    ensures AddAll(g, xs + ys) == WithRun(AddAll(g, xs), k, ys)
  {
    AddAllAppend(g, xs, ys);
    AddRunRebuilds(AddAll(g, xs), ys, k);
  }

  /** Adding a valid set's points and segments to an empty set rebuilds those two collections. */
  lemma SortedRunsRebuild(g: GSet)
    requires g.Valid()
    ensures AddAll(Empty, g.points + g.segments) == g.(complete := false, surfaces := [], volumes := [])
  {
    var e1 := g.(complete := false, points := [], segments := [], surfaces := [], volumes := []);
    assert e1 == Empty;
    AddRunRebuilds(Empty, g.points, PrimitivePoint);
    AddRunRebuilds(e1.(points := g.points), g.segments, PrimitiveSegment);
    AddAllAppend(Empty, g.points, g.segments);
  }

  /** g with its collection of kind k replaced by xs. */
  function WithRun(g: GSet, k: PrimitiveType, xs: seq<Primitive>): GSet
  {
    match k
    case PrimitivePoint => g.(points := xs)
    case PrimitiveSegment => g.(segments := xs)
    case PrimitiveSurface => g.(surfaces := xs)
    case PrimitiveVolume => g.(volumes := xs)
  }

  /**
    Adding a run of kind k, sorted when kind k is kept sorted, to a set whose
    collection of that kind is empty makes the run that collection.
  */
  lemma {:induction false} AddRunRebuilds(g: GSet, xs: seq<Primitive>, k: PrimitiveType)
    requires g.Valid() && g.Selection(k.Tag()) == [] && AllOfType(xs, k)
    requires Ordered(k) ==> StrictlySorted(xs)
    ensures AddAll(g, xs) == WithRun(g, k, xs)
    decreases |xs|
  {
    if xs != [] {
      var xs' := xs[..|xs| - 1];
      var x := xs[|xs| - 1];
      assert xs == xs' + [x];
      AddRunRebuilds(g, xs', k);
      if Ordered(k) {
        assert forall i :: 0 <= i < |xs'| ==> Less(xs'[i], x) by {
          forall i | 0 <= i < |xs'| ensures Less(xs'[i], x) {
            assert Less(xs[i], xs[|xs| - 1]);
          }
        }
        AppendLargest(xs', x);
      }
      AddToRun(g, k, xs', x);
    }
  }

  /** Adding x to the run of its kind appends it, when a sorted run has x as its largest. */
  lemma AddToRun(g: GSet, k: PrimitiveType, xs: seq<Primitive>, x: Primitive)
    requires WithRun(g, k, xs).Valid() && x.GetType() == k
    requires Ordered(k) ==> SetInsert(xs, x) == xs + [x]
    ensures Add(WithRun(g, k, xs), x) == WithRun(g, k, xs + [x])
  {
  }

  lemma AppendLargest(s: seq<Primitive>, x: Primitive)
    requires Ordered(x.GetType()) && IsSet(s, x.GetType())
    requires forall i :: 0 <= i < |s| ==> Less(s[i], x)
    ensures x.shape !in Shapes(s) && SetInsert(s, x) == s + [x]
  {
    forall i | 0 <= i < |s| ensures s[i].shape != x.shape {
      LessIsStrictTotal(s[i], x, x);
    }
    var q := SetInsertSplit(s, x);
    if q < |s| {
      LessIsStrictTotal(x, s[q], x);
    }
    assert s[..q] == s;
  }

  /** A primitive with its flags cleared (what the PrimitiveBase overloads insert). */
  function Bare(p: Primitive): Primitive
  {
    Make(p.shape)
  }

  // ---------------------------------------------------------------------
  // Decomposition of structured geometries
  // ---------------------------------------------------------------------

  /** A 2D triangle as a hole-free polygon, turned round when it is clockwise. */
  function TrianglePolygon(t: Triangle2): (r: Polygon)
    ensures r.holes == [] && |r.outer| == 3 && r.outer[0] == t.a
    ensures {r.outer[1], r.outer[2]} == {t.b, t.c}
    ensures OrientationOf(r.outer[0], r.outer[1], r.outer[2]) != Clockwise
  {
    CrossAntisymmetric(t.a, t.b, t.c);
    if OrientationOf(t.a, t.b, t.c) == Clockwise then Polygon([t.a, t.c, t.b], [])
    else Polygon([t.a, t.b, t.c], [])
  }

  /** The key of the segment from point i to point i+1 of a line string. */
  function StepKey(pts: seq<Point2>, i: int): Shape
    requires 0 <= i < |pts| - 1
  {
    SegmentShape(Segment(pts[i], pts[i + 1]))
  }

  /** The consecutive segments pointN(i) -> pointN(i+1) of a line string. */
  function LineSegments(pts: seq<Point2>): (r: seq<Primitive>)
    ensures |r| == if |pts| == 0 then 0 else |pts| - 1
    ensures AllOfType(r, PrimitiveSegment)
  {
    if |pts| <= 1 then []
    else seq(|pts| - 1, i requires 0 <= i < |pts| - 1 => Make(StepKey(pts, i)))
  }

  /** Adding the segment from point i to point i+1 extends the segments added so far by one. */
  lemma LineSegmentStep(g: GSet, pts: seq<Point2>, i: nat)
    requires g.Valid() && i < |pts| - 1
    ensures AddAll(g, LineSegments(pts)[..i + 1]) == Add(AddAll(g, LineSegments(pts)[..i]), Make(StepKey(pts, i)))
  {
    var xs := LineSegments(pts);
    assert xs[i] == Make(StepKey(pts, i));
    assert xs[..i + 1] == xs[..i] + [xs[i]];
    AddAllSnoc(g, xs[..i], xs[i]);
  }

  function TrianglePieces(ts: seq<Triangle2>): (r: seq<Primitive>)
    ensures |r| == |ts| && AllOfType(r, PrimitiveSurface)
  {
    seq(|ts|, i requires 0 <= i < |ts| => Make(SurfaceShape(TrianglePolygon(ts[i]))))
  }

  /** The non-empty polygons of a polyhedral surface, each as one surface. */
  function PolygonPieces(ps: seq<Polygon>): (r: seq<Primitive>)
    ensures AllOfType(r, PrimitiveSurface) && |r| <= |ps|
    decreases |ps|
  {
    if ps == [] then []
    else PolygonPieces(ps[..|ps| - 1]) + (if ps[|ps| - 1].outer == [] then [] else [Make(SurfaceShape(ps[|ps| - 1]))])
  }

  /** One more polygon of a polyhedral surface: added as a surface unless it is empty. */
  lemma PolygonPieceStep(g: GSet, ps: seq<Polygon>, i: nat)
    requires g.Valid() && i < |ps|
    ensures ps[i].outer != [] ==>
      AddAll(g, PolygonPieces(ps[..i + 1])) == Add(AddAll(g, PolygonPieces(ps[..i])), Make(SurfaceShape(ps[i])))
    ensures ps[i].outer == [] ==> AddAll(g, PolygonPieces(ps[..i + 1])) == AddAll(g, PolygonPieces(ps[..i]))
  {
    assert ps[..i + 1][..i] == ps[..i] && ps[..i + 1][i] == ps[i];
    if ps[i].outer != [] {
      assert PolygonPieces(ps[..i + 1]) == PolygonPieces(ps[..i]) + [Make(SurfaceShape(ps[i]))];
      AddAllSnoc(g, PolygonPieces(ps[..i]), Make(SurfaceShape(ps[i])));
    } else {
      assert PolygonPieces(ps[..i + 1]) == PolygonPieces(ps[..i]) + [];
      assert PolygonPieces(ps[..i]) + [] == PolygonPieces(ps[..i]);
    }
  }

  /** What decomposing a geometry adds to a set (2D). */
  function Decomposition(g: GSet, geom: Geometry): (r: GSet)
    requires g.Valid()
    ensures r.Valid() && r.complete == g.complete
    decreases geom
  {
    if geom.IsEmpty() then g
    else
      match geom
      case CollectionGeom(_, ms) => DecompositionAll(g, ms)
      case PointGeom(c) => Add(g, Make(PointShape(c.value)))
      case LineStringGeom(pts) => AddAll(g, LineSegments(pts))
      case TriangleGeom(t) => Add(g, Make(SurfaceShape(TrianglePolygon(t.value))))
      case PolygonGeom(poly) => Add(g, Make(SurfaceShape(poly)))
      case TriangulatedSurfaceGeom(ts) => AddAll(g, TrianglePieces(ts))
      case PolyhedralSurfaceGeom(ps) => AddAll(g, PolygonPieces(ps))
      case SolidGeom(_) => g
  }

  /** Decomposing the members of a collection one after another. */
  function DecompositionAll(g: GSet, ms: seq<Geometry>): (r: GSet)
    requires g.Valid()
    ensures r.Valid() && r.complete == g.complete
    decreases ms
  {
    if ms == [] then g else Decomposition(DecompositionAll(g, ms[..|ms| - 1]), ms[|ms| - 1])
  }

  lemma DecompositionAllSnoc(g: GSet, ms: seq<Geometry>, m: Geometry)
    requires g.Valid()
    ensures DecompositionAll(g, ms + [m]) == Decomposition(DecompositionAll(g, ms), m)
  {
    assert (ms + [m])[..|ms|] == ms;
  }

  /** Decomposing an empty geometry, or a 2D solid, adds nothing. */
  lemma DecomposeAddsNothing(g: GSet, geom: Geometry)
    requires g.Valid() && (geom.IsEmpty() || geom.SolidGeom?)
    ensures Decomposition(g, geom) == g
  {
  }

  /**
    A line string of n points adds exactly the n-1 segments from point i to
    point i+1, and touches no other collection.
  */
  lemma DecomposeLineString(g: GSet, pts: seq<Point2>)
    requires g.Valid()
    ensures var r := Decomposition(g, LineStringGeom(pts));
      && Shapes(r.segments) == Shapes(g.segments) + (set i | 0 <= i < |pts| - 1 :: StepKey(pts, i))
      && r.points == g.points && r.surfaces == g.surfaces && r.volumes == g.volumes
  {
    var xs := LineSegments(pts);
    assert Decomposition(g, LineStringGeom(pts)) == AddAll(g, xs);
    AddAllOfOneKind(g, xs, PrimitiveSegment);
    LineSegmentKeys(pts);
  }

  lemma LineSegmentKeys(pts: seq<Point2>)
    ensures Shapes(LineSegments(pts)) == (set i | 0 <= i < |pts| - 1 :: StepKey(pts, i))
  {
    var xs := LineSegments(pts);
    forall x | x in Shapes(xs) ensures x in (set i | 0 <= i < |pts| - 1 :: StepKey(pts, i)) {
      var i :| 0 <= i < |xs| && xs[i].shape == x;
    }
    forall i | 0 <= i < |pts| - 1 ensures StepKey(pts, i) in Shapes(xs) {
      assert xs[i].shape == StepKey(pts, i);
    }
  }

  /** A 2D triangle becomes one hole-free, not clockwise, surface appended to the list. */
  lemma DecomposeTriangle(g: GSet, t: Triangle2)
    requires g.Valid()
    ensures var r := Decomposition(g, TriangleGeom(Some(t)));
      && |r.surfaces| == |g.surfaces| + 1 && r.surfaces[..|g.surfaces|] == g.surfaces
      && var poly := r.surfaces[|g.surfaces|].shape.polygon;
         poly.holes == [] && |poly.outer| == 3
         && OrientationOf(poly.outer[0], poly.outer[1], poly.outer[2]) != Clockwise
  {
  }

  // ---------------------------------------------------------------------
  // Iteration: points, then segments, then surfaces, then volumes
  // ---------------------------------------------------------------------

  /** The four positions of a primitive iterator, as indices into the collections. */
  datatype Cursor = Cursor(pointIt: nat, segmentIt: nat, surfaceIt: nat, volumeIt: nat)

  predicate InRange(g: GSet, c: Cursor)
  {
    c.pointIt <= |g.points| && c.segmentIt <= |g.segments|
    && c.surfaceIt <= |g.surfaces| && c.volumeIt <= |g.volumes|
  }

  /** primitives_begin(sel): the unselected collections start at their end. */
  function Begin(g: GSet, sel: int): (c: Cursor)
    ensures InRange(g, c)
  {
    if sel == -1 then Cursor(0, 0, 0, 0)
    else if sel == 0 then Cursor(0, |g.segments|, |g.surfaces|, |g.volumes|)
    else if sel == 1 then Cursor(|g.points|, 0, |g.surfaces|, |g.volumes|)
    else if sel == 2 then Cursor(|g.points|, |g.segments|, 0, |g.volumes|)
    else Cursor(|g.points|, |g.segments|, |g.surfaces|, 0)
  }

  /** primitives_end(). */
  function End(g: GSet): Cursor
  {
    Cursor(|g.points|, |g.segments|, |g.surfaces|, |g.volumes|)
  }

  function Remaining(g: GSet, c: Cursor): nat
    requires InRange(g, c)
  {
    (|g.points| - c.pointIt) + (|g.segments| - c.segmentIt) + (|g.surfaces| - c.surfaceIt) + (|g.volumes| - c.volumeIt)
  }

  /** Advance the first position that is not at its end. */
  function Increment(g: GSet, c: Cursor): (r: Cursor)
    requires InRange(g, c)
    ensures InRange(g, r)
    ensures c != End(g) ==> Remaining(g, r) == Remaining(g, c) - 1
  {
    if c.pointIt != |g.points| then c.(pointIt := c.pointIt + 1)
    else if c.segmentIt != |g.segments| then c.(segmentIt := c.segmentIt + 1)
    else if c.surfaceIt != |g.surfaces| then c.(surfaceIt := c.surfaceIt + 1)
    else if c.volumeIt != |g.volumes| then c.(volumeIt := c.volumeIt + 1)
    else c
  }

  /** The primitive under the first position that is not at its end. */
  function Dereference(g: GSet, c: Cursor): Primitive
    requires InRange(g, c) && c != End(g)
  {
    if c.pointIt != |g.points| then g.points[c.pointIt]
    else if c.segmentIt != |g.segments| then g.segments[c.segmentIt]
    else if c.surfaceIt != |g.surfaces| then g.surfaces[c.surfaceIt]
    else g.volumes[c.volumeIt]
  }

  /** The primitives met from c up to the end. */
  function Walk(g: GSet, c: Cursor): seq<Primitive>
    requires InRange(g, c)
    decreases Remaining(g, c)
  {
    if c == End(g) then [] else [Dereference(g, c)] + Walk(g, Increment(g, c))
  }

  /** From any position, iteration visits the rest of the points, then of the segments, surfaces and volumes. */
  lemma {:induction false} WalkVisits(g: GSet, c: Cursor)
    requires InRange(g, c)
    ensures Walk(g, c) == g.points[c.pointIt..] + g.segments[c.segmentIt..] + g.surfaces[c.surfaceIt..] + g.volumes[c.volumeIt..]
    decreases |g.points| - c.pointIt
  {
    if c.pointIt == |g.points| {
      WalkSegments(g, c);
      assert g.points[c.pointIt..] == [];
    } else {
      var c' := c.(pointIt := c.pointIt + 1);
      assert g.points[c.pointIt..] == [g.points[c.pointIt]] + g.points[c'.pointIt..];
      WalkVisits(g, c');
    }
  }

  lemma {:induction false} WalkSegments(g: GSet, c: Cursor)
    requires InRange(g, c) && c.pointIt == |g.points|
    ensures Walk(g, c) == g.segments[c.segmentIt..] + g.surfaces[c.surfaceIt..] + g.volumes[c.volumeIt..]
    decreases |g.segments| - c.segmentIt
  {
    if c.segmentIt == |g.segments| {
      WalkSurfaces(g, c);
      assert g.segments[c.segmentIt..] == [];
    } else {
      var c' := c.(segmentIt := c.segmentIt + 1);
      assert g.segments[c.segmentIt..] == [g.segments[c.segmentIt]] + g.segments[c'.segmentIt..];
      WalkSegments(g, c');
    }
  }

  lemma {:induction false} WalkSurfaces(g: GSet, c: Cursor)
    requires InRange(g, c) && c.pointIt == |g.points| && c.segmentIt == |g.segments|
    ensures Walk(g, c) == g.surfaces[c.surfaceIt..] + g.volumes[c.volumeIt..]
    decreases |g.surfaces| - c.surfaceIt
  {
    if c.surfaceIt == |g.surfaces| {
      WalkVolumes(g, c);
      assert g.surfaces[c.surfaceIt..] == [];
    } else {
      var c' := c.(surfaceIt := c.surfaceIt + 1);
      assert g.surfaces[c.surfaceIt..] == [g.surfaces[c.surfaceIt]] + g.surfaces[c'.surfaceIt..];
      WalkSurfaces(g, c');
    }
  }

  lemma {:induction false} WalkVolumes(g: GSet, c: Cursor)
    requires InRange(g, c) && c.pointIt == |g.points| && c.segmentIt == |g.segments| && c.surfaceIt == |g.surfaces|
    ensures Walk(g, c) == g.volumes[c.volumeIt..]
    decreases |g.volumes| - c.volumeIt
  {
    if c.volumeIt != |g.volumes| {
      var c' := c.(volumeIt := c.volumeIt + 1);
      assert g.volumes[c.volumeIt..] == [g.volumes[c.volumeIt]] + g.volumes[c'.volumeIt..];
      WalkVolumes(g, c');
    }
  }

  /** primitives_begin(sel) .. primitives_end() visits exactly the selection. */
  lemma BeginVisitsSelection(g: GSet, sel: int)
    ensures Walk(g, Begin(g, sel)) == g.Selection(sel)
  {
    assert g.points[|g.points|..] == [] && g.segments[|g.segments|..] == [];
    assert g.surfaces[|g.surfaces|..] == [] && g.volumes[|g.volumes|..] == [];
    assert g.points[0..] == g.points && g.segments[0..] == g.segments;
    assert g.surfaces[0..] == g.surfaces && g.volumes[0..] == g.volumes;
    WalkVisits(g, Begin(g, sel));
    if sel == -1 {
    } else if sel == 0 {
      assert g.points + [] + [] + [] == g.points;
    } else if sel == 1 {
      assert [] + g.segments + [] + [] == g.segments;
    } else if sel == 2 {
      assert [] + [] + g.surfaces + [] == g.surfaces;
    } else {
      assert [] + [] + [] + g.volumes == g.volumes;
    }
  }

  /** Selecting kind k in a valid set yields exactly its primitives of kind k. */
  lemma SelectionIsKind(g: GSet, k: PrimitiveType)
    requires g.Valid()
    ensures g.Selection(k.Tag()) == OfType(g.Primitives(), k)
  {
    SelectionOfKind(g, k);
  }

  lemma SelectionOfKind(g: GSet, k: PrimitiveType)
    requires AllOfType(g.points, PrimitivePoint) && AllOfType(g.segments, PrimitiveSegment)
    requires AllOfType(g.surfaces, PrimitiveSurface) && AllOfType(g.volumes, PrimitiveVolume)
    ensures g.Selection(k.Tag()) == OfType(g.Primitives(), k)
  {
    OfTypeOfBlocks(g.points, g.segments, g.surfaces, g.volumes, k);
    assert g.Primitives() == g.points + g.segments + g.surfaces + g.volumes;
  }

  /** Filtering the four collections, one kind each, by a kind keeps exactly the collection of that kind. */
  lemma OfTypeOfBlocks(P: seq<Primitive>, S: seq<Primitive>, F: seq<Primitive>, V: seq<Primitive>, k: PrimitiveType)
    requires AllOfType(P, PrimitivePoint) && AllOfType(S, PrimitiveSegment)
    requires AllOfType(F, PrimitiveSurface) && AllOfType(V, PrimitiveVolume)
    ensures OfType(P + S + F + V, k) == match k
      case PrimitivePoint => P
      case PrimitiveSegment => S
      case PrimitiveSurface => F
      case PrimitiveVolume => V
  {
    OfTypeAppend4(P, S, F, V, k);
    OfTypeBlock(P, PrimitivePoint, k);
    OfTypeBlock(S, PrimitiveSegment, k);
    OfTypeBlock(F, PrimitiveSurface, k);
    OfTypeBlock(V, PrimitiveVolume, k);
    match k
    case PrimitivePoint => assert P + [] + [] + [] == P;
    case PrimitiveSegment => assert [] + S + [] + [] == S;
    case PrimitiveSurface => assert [] + [] + F + [] == F;
    case PrimitiveVolume => assert [] + [] + [] + V == V;
  }

  /** Filtering a collection of one kind keeps all of it or none of it. */
  lemma OfTypeBlock(xs: seq<Primitive>, kx: PrimitiveType, k: PrimitiveType)
    requires AllOfType(xs, kx)
    ensures OfType(xs, k) == if kx == k then xs else []
  {
    if kx == k { OfTypeAll(xs, k); } else { OfTypeNone(xs, kx, k); }
  }

  lemma OfTypeAppend4(a: seq<Primitive>, b: seq<Primitive>, c: seq<Primitive>, d: seq<Primitive>, k: PrimitiveType)
    ensures OfType(a + b + c + d, k) == OfType(a, k) + OfType(b, k) + OfType(c, k) + OfType(d, k)
  {
    OfTypeAppend(a, b, k);
    OfTypeAppend(a + b, c, k);
    OfTypeAppend(a + b + c, d, k);
  }

  /** A box paired with the index of its primitive in the handle list. */
  datatype HandleBox = HandleBox(box: Option<Box>, handle: nat)

  // ---------------------------------------------------------------------
  // Points of a primitive, and results of intersection routines
  // ---------------------------------------------------------------------

  function Flatten(rings: seq<seq<Point2>>): seq<Point2>
    decreases |rings|
  {
    if rings == [] then [] else Flatten(rings[..|rings| - 1]) + rings[|rings| - 1]
  }

  lemma FlattenSnoc(outer: seq<Point2>, rings: seq<seq<Point2>>, h: nat)
    requires h < |rings|
    ensures outer + Flatten(rings[..h + 1]) == (outer + Flatten(rings[..h])) + rings[h]
  {
    assert rings[..h + 1][..h] == rings[..h];
  }

  /** Every vertex of a primitive: a point, both ends of a segment, the outer ring then each hole. */
  function VerticesOf(p: Primitive): seq<Point2>
  {
    match p.shape
    case PointShape(q) => [q]
    case SegmentShape(s) => [s.source, s.target]
    case SurfaceShape(poly) => poly.outer + Flatten(poly.holes)
    case VolumeShape(_) => []
  }

  /** Inserting one more vertex as a point adds its point primitive to the points so far. */
  lemma InsertVertexStep(g0: GSet, done: seq<Point2>, vs: seq<Point2>, i: nat)
    requires g0.Valid() && i < |vs|
    ensures AddAll(g0, PointPrimitives(done + vs[..i + 1]))
      == Add(AddAll(g0, PointPrimitives(done + vs[..i])), Make(PointShape(vs[i])))
  {
    assert done + vs[..i + 1] == (done + vs[..i]) + [vs[i]];
    PointPrimitivesSnoc(done + vs[..i], vs[i]);
    AddAllSnoc(g0, PointPrimitives(done + vs[..i]), Make(PointShape(vs[i])));
  }

  function PointPrimitives(pts: seq<Point2>): (r: seq<Primitive>)
    ensures |r| == |pts| && AllOfType(r, PrimitivePoint)
    ensures forall i :: 0 <= i < |pts| ==> r[i] == Make(PointShape(pts[i]))
  {
    seq(|pts|, i requires 0 <= i < |pts| => Make(PointShape(pts[i])))
  }

  lemma PointPrimitivesSnoc(pts: seq<Point2>, v: Point2)
    ensures PointPrimitives(pts + [v]) == PointPrimitives(pts) + [Make(PointShape(v))]
  {
  }

  /** The point keys gained by collecting the points of p: one per vertex. */
  lemma CollectedPoints(g: GSet, p: Primitive)
    requires g.Valid()
    ensures var r := AddAll(g, PointPrimitives(VerticesOf(p)));
      && Shapes(r.points) == Shapes(g.points) + (set v | v in VerticesOf(p) :: PointShape(v))
      && r.segments == g.segments && r.surfaces == g.surfaces && r.volumes == g.volumes
  {
    var xs := PointPrimitives(VerticesOf(p));
    AddAllOfOneKind(g, xs, PrimitivePoint);
    var vs := VerticesOf(p);
    assert Shapes(xs) == (set v | v in vs :: PointShape(v)) by {
      forall x | x in Shapes(xs) ensures x in (set v | v in vs :: PointShape(v)) {
        var i :| 0 <= i < |xs| && xs[i].shape == x;
        assert vs[i] in vs;
      }
      forall v | v in vs ensures PointShape(v) in Shapes(xs) {
        var i :| 0 <= i < |vs| && vs[i] == v;
        assert xs[i].shape == PointShape(v);
      }
    }
  }

  /** The value a CGAL::Object can carry when it is handed to the set. */
  datatype CgalObject =
    | ObjectPoint(point: Point2)
    | ObjectPoints(pts: seq<Point2>)
    | ObjectTriangle(triangle: Triangle2)
    | ObjectSegment(segment: Segment)
    | ObjectSurface(polygon: Polygon)
    | ObjectVolume(volume: NoVolume)
    | ObjectEmpty

  /**
    What adding a CGAL::Object inserts: a vector of points becomes one
    polygon when pointsAsRing is set and separate points otherwise; a
    triangle becomes a polygon with its vertices in the given order.
  */
  function ObjectPrimitives(o: CgalObject, pointsAsRing: bool): seq<Primitive>
  {
    match o
    case ObjectPoint(p) => [Make(PointShape(p))]
    case ObjectPoints(pts) =>
      if pointsAsRing then [Make(SurfaceShape(Polygon(pts, [])))] else PointPrimitives(pts)
    case ObjectTriangle(t) => [Make(SurfaceShape(Polygon([t.a, t.b, t.c], [])))]
    case ObjectSegment(s) => [Make(SegmentShape(s))]
    case ObjectSurface(poly) => [Make(SurfaceShape(poly))]
    case ObjectVolume(v) => [Make(VolumeShape(v))]
    case ObjectEmpty => []
  }

  // ---------------------------------------------------------------------
  // Filtering covered primitives
  // ---------------------------------------------------------------------

  /** The coverage test the filter is given (algorithm::covers is not part of this model). */
  type Covers = (GSet, GSet) -> bool

  /** Some later element of xs covers xs[i] (each as a one-primitive set). */
  predicate CoveredLater(xs: seq<Primitive>, i: nat, covers: Covers)
    requires i < |xs|
  {
    exists j :: i < j < |xs| && covers(Add(Empty, xs[j]), Add(Empty, xs[i]))
  }

  /** _filter_covered on xs[i..]: keep what no later element and nothing already kept covers. */
  function FilterFrom(xs: seq<Primitive>, i: nat, out: GSet, covers: Covers): (r: GSet)
    requires i <= |xs| && out.Valid()
    ensures r.Valid()
    decreases |xs| - i
  {
    if i == |xs| then out
    else
      var keep := !CoveredLater(xs, i, covers) && !covers(out, Add(Empty, xs[i]));
      FilterFrom(xs, i + 1, if keep then Add(out, xs[i]) else out, covers)
  }

  /** filterCovered: volumes, then surfaces, then segments, then points. */
  function FilterCoveredSpec(g: GSet, out: GSet, covers: Covers): (r: GSet)
    requires out.Valid()
    ensures r.Valid()
  {
    FilterFrom(g.points, 0,
      FilterFrom(g.segments, 0,
        FilterFrom(g.surfaces, 0,
          FilterFrom(g.volumes, 0, out, covers), covers), covers), covers)
  }

  /** Adding a suffix of xs is adding its first element, then the rest. */
  lemma AddAllFrom(g: GSet, xs: seq<Primitive>, i: nat)
    requires g.Valid() && i < |xs|
    ensures AddAll(g, xs[i..]) == AddAll(Add(g, xs[i]), xs[i + 1..])
  {
    assert xs[i..] == [xs[i]] + xs[i + 1..];
    AddAllAppend(g, [xs[i]], xs[i + 1..]);
    AddAllSnoc(g, [], xs[i]);
    assert [] + [xs[i]] == [xs[i]];
  }

  lemma {:induction false} FilterFromNothingCovered(xs: seq<Primitive>, i: nat, out: GSet, covers: Covers)
    requires i <= |xs| && out.Valid()
    requires forall a, b :: !covers(a, b)
    ensures FilterFrom(xs, i, out, covers) == AddAll(out, xs[i..])
    decreases |xs| - i
  {
    if i < |xs| {
      var out' := Add(out, xs[i]);
      assert !CoveredLater(xs, i, covers);
      assert !covers(out, Add(Empty, xs[i]));
      assert FilterFrom(xs, i, out, covers) == FilterFrom(xs, i + 1, out', covers);
      FilterFromNothingCovered(xs, i + 1, out', covers);
      AddAllFrom(out, xs, i);
    } else {
      assert xs[i..] == [];
    }
  }

  /** When nothing covers anything, every primitive is kept: volumes, surfaces, segments, then points. */
  lemma FilterCoveredKeepsAllWhenNothingCovers(g: GSet, out: GSet, covers: Covers)
    requires out.Valid()
    requires forall a, b :: !covers(a, b)
    ensures FilterCoveredSpec(g, out, covers) == AddAll(out, g.volumes + g.surfaces + g.segments + g.points)
  {
    assert g.volumes[0..] == g.volumes && g.surfaces[0..] == g.surfaces;
    assert g.segments[0..] == g.segments && g.points[0..] == g.points;
    FilterFromNothingCovered(g.volumes, 0, out, covers);
    var o1 := AddAll(out, g.volumes);
    FilterFromNothingCovered(g.surfaces, 0, o1, covers);
    var o2 := AddAll(o1, g.surfaces);
    FilterFromNothingCovered(g.segments, 0, o2, covers);
    var o3 := AddAll(o2, g.segments);
    FilterFromNothingCovered(g.points, 0, o3, covers);
    AddAllAppend(out, g.volumes, g.surfaces);
    AddAllAppend(out, g.volumes + g.surfaces, g.segments);
    AddAllAppend(out, g.volumes + g.surfaces + g.segments, g.points);
  }

  /** A primitive that a later one covers is never kept. */
  lemma FilterSkipsCoveredLater(xs: seq<Primitive>, i: nat, out: GSet, covers: Covers)
    requires i < |xs| && out.Valid() && CoveredLater(xs, i, covers)
    ensures FilterFrom(xs, i, out, covers) == FilterFrom(xs, i + 1, out, covers)
  {
  }

  // ---------------------------------------------------------------------
  // The set, updated in place
  // ---------------------------------------------------------------------

  class GeometrySet {
    var points: seq<Primitive>
    var segments: seq<Primitive>
    var surfaces: seq<Primitive>
    var volumes: seq<Primitive>
    var complete: bool

    function Value(): GSet
      reads this
    {
      GSet(points, segments, surfaces, volumes, complete)
    }

    predicate Valid()
      reads this
    {
      Value().Valid()
    }

    constructor ()
      ensures Valid() && Value() == Empty
    {
      points, segments, surfaces, volumes, complete := [], [], [], [], false;
    }

    /** Build the set of a geometry by decomposing it. */
    constructor FromGeometry(geom: Geometry)
      ensures Valid() && Value() == Decomposition(Empty, geom)
    {
      points, segments, surfaces, volumes, complete := [], [], [], [], false;
      new;
      Decompose(geom);
    }

    /** Build the set holding one primitive, flags kept. */
    constructor FromPrimitive(p: Primitive)
      ensures Valid() && Value() == Add(Empty, p)
    {
      points, segments, surfaces, volumes, complete := [], [], [], [], false;
      new;
      AddPrimitive(p);
    }

    method AddGeometry(geom: Geometry)
      requires Valid()
      modifies this
      ensures Valid() && Value() == Decomposition(old(Value()), geom)
    {
      Decompose(geom);
    }

    /** The typed overloads: the primitive goes in with its flags. */
    method AddPrimitive(p: Primitive)
      requires Valid()
      modifies this
      ensures Valid() && Value() == Add(old(Value()), p)
    {
      match p.GetType()
      case PrimitivePoint => points := SetInsert(points, p);
      case PrimitiveSegment => segments := SetInsert(segments, p);
      case PrimitiveSurface => surfaces := surfaces + [p];
      case PrimitiveVolume => volumes := volumes + [p];
    }

    /**
      The overload taking a PrimitiveBase: the wrapped value is extracted
      and re-wrapped, so the stored primitive has flags 0.
    */
    method AddPrimitiveBase(p: Primitive)
      requires Valid()
      modifies this
      ensures Valid() && Value() == Add(old(Value()), Bare(p))
    {
      AddPrimitive(Bare(p));
    }

    /** Add every element of a range, in order. */
    method AddRange(xs: seq<Primitive>)
      requires Valid()
      modifies this
      ensures Valid() && Value() == AddAll(old(Value()), xs)
    {
      var i := 0;
      while i < |xs|
        invariant 0 <= i <= |xs|
        invariant Valid() && Value() == AddAll(old(Value()), xs[..i])
      {
        assert xs[..i + 1] == xs[..i] + [xs[i]];
        AddAllSnoc(old(Value()), xs[..i], xs[i]);
        AddPrimitive(xs[i]);
        i := i + 1;
      }
      assert xs[..i] == xs;
    }

    /** addPoints: the point keys become the old keys plus those of the range. */
    method AddPoints(xs: seq<Primitive>)
      requires Valid() && AllOfType(xs, PrimitivePoint)
      modifies this
      ensures Valid() && Value() == AddAll(old(Value()), xs)
      ensures Shapes(points) == Shapes(old(points)) + Shapes(xs)
      ensures forall y :: y in old(points) ==> y in points
      ensures segments == old(segments) && surfaces == old(surfaces) && volumes == old(volumes)
    {
      AddRange(xs);
      AddAllOfOneKind(old(Value()), xs, PrimitivePoint);
      AddAllContents(old(Value()), xs);
    }

    /** addSegments: the segment keys become the old keys plus those of the range. */
    method AddSegments(xs: seq<Primitive>)
      requires Valid() && AllOfType(xs, PrimitiveSegment)
      modifies this
      ensures Valid() && Value() == AddAll(old(Value()), xs)
      ensures Shapes(segments) == Shapes(old(segments)) + Shapes(xs)
      ensures forall y :: y in old(segments) ==> y in segments
      ensures points == old(points) && surfaces == old(surfaces) && volumes == old(volumes)
    {
      AddRange(xs);
      AddAllOfOneKind(old(Value()), xs, PrimitiveSegment);
      AddAllContents(old(Value()), xs);
    }

    /** addSurfaces: every element appended in order, duplicates kept. */
    method AddSurfaces(xs: seq<Primitive>)
      requires Valid() && AllOfType(xs, PrimitiveSurface)
      modifies this
      ensures Valid() && surfaces == old(surfaces) + xs
      ensures points == old(points) && segments == old(segments) && volumes == old(volumes)
      ensures complete == old(complete)
    {
      var i := 0;
      while i < |xs|
        invariant 0 <= i <= |xs|
        invariant Valid() && surfaces == old(surfaces) + xs[..i]
        invariant points == old(points) && segments == old(segments) && volumes == old(volumes)
        invariant complete == old(complete)
      {
        surfaces := surfaces + [xs[i]];
        assert xs[..i + 1] == xs[..i] + [xs[i]];
        i := i + 1;
      }
      assert xs[..i] == xs;
    }

    /** addVolumes: every element appended in order, duplicates kept. */
    method AddVolumes(xs: seq<Primitive>)
      requires Valid() && AllOfType(xs, PrimitiveVolume)
      modifies this
      ensures Valid() && volumes == old(volumes) + xs
      ensures points == old(points) && segments == old(segments) && surfaces == old(surfaces)
      ensures complete == old(complete)
    {
      var i := 0;
      while i < |xs|
        invariant 0 <= i <= |xs|
        invariant Valid() && volumes == old(volumes) + xs[..i]
        invariant points == old(points) && segments == old(segments) && surfaces == old(surfaces)
        invariant complete == old(complete)
      {
        volumes := volumes + [xs[i]];
        assert xs[..i + 1] == xs[..i] + [xs[i]];
        i := i + 1;
      }
      assert xs[..i] == xs;
    }

    /** addPrimitive(CGAL::Object, pointsAsRing). */
    method AddObject(o: CgalObject, pointsAsRing: bool)
      requires Valid()
      modifies this
      ensures Valid() && Value() == AddAll(old(Value()), ObjectPrimitives(o, pointsAsRing))
    {
      match o
      case ObjectPoints(pts) =>
        if pointsAsRing {
          var ring: seq<Point2> := [];
          var i := 0;
          while i < |pts|
            invariant 0 <= i <= |pts| && ring == pts[..i]
          {
            ring := ring + [pts[i]];
            i := i + 1;
          }
          assert ring == pts;
          AddPrimitive(Make(SurfaceShape(Polygon(ring, []))));
          assert AddAll(old(Value()), [Make(SurfaceShape(Polygon(ring, [])))]) == Add(old(Value()), Make(SurfaceShape(Polygon(ring, []))));
        } else {
          AddPoints(PointPrimitives(pts));
        }
      case ObjectEmpty =>
      case _ =>
        var p := ObjectPrimitives(o, pointsAsRing)[0];
        AddPrimitive(p);
        assert AddAll(old(Value()), [p]) == Add(old(Value()), p);
    }

    /** _decompose: add the primitives of a geometry (2D). */
    method Decompose(geom: Geometry)
      requires Valid()
      modifies this
      ensures Valid() && Value() == Decomposition(old(Value()), geom)
      decreases geom
    {
      if geom.IsEmpty() {
        return;
      }
      match geom
      case CollectionGeom(_, ms) =>
        var i := 0;
        while i < |ms|
          invariant 0 <= i <= |ms|
          invariant Valid() && Value() == DecompositionAll(old(Value()), ms[..i])
        {
          DecompositionAllSnoc(old(Value()), ms[..i], ms[i]);
          assert ms[..i + 1] == ms[..i] + [ms[i]];
          Decompose(ms[i]);
          i := i + 1;
        }
        assert ms[..i] == ms;
      case PointGeom(c) =>
        AddPrimitive(Make(PointShape(c.value)));
      case LineStringGeom(pts) =>
        DecomposeLineString(pts);
      case TriangleGeom(t) =>
        AddPrimitive(Make(SurfaceShape(TrianglePolygon(t.value))));
      case PolygonGeom(poly) =>
        AddPrimitive(Make(SurfaceShape(poly)));
      case TriangulatedSurfaceGeom(ts) =>
        DecomposeTriangles(ts);
      case PolyhedralSurfaceGeom(ps) =>
        DecomposePolygons(ps);
      case SolidGeom(_) =>
    }

    /** The line string branch of decompose: one segment from each point to the next. */
    method DecomposeLineString(pts: seq<Point2>)
      requires Valid()
      modifies this
      ensures Valid() && Value() == AddAll(old(Value()), LineSegments(pts))
    {
      var xs := LineSegments(pts);
      var i := 0;
      while i < |pts| - 1
        invariant 0 <= i <= |xs|
        invariant Valid() && Value() == AddAll(old(Value()), xs[..i])
      {
        var seg := Make(StepKey(pts, i));
        LineSegmentStep(old(Value()), pts, i);
        AddPrimitive(seg);
        i := i + 1;
      }
      assert xs[..i] == xs;
    }

    /** The triangulated surface branch of decompose: one surface per triangle. */
    method DecomposeTriangles(ts: seq<Triangle2>)
      requires Valid()
      modifies this
      ensures Valid() && Value() == AddAll(old(Value()), TrianglePieces(ts))
    {
      var xs := TrianglePieces(ts);
      var i := 0;
      while i < |ts|
        invariant 0 <= i <= |ts|
        invariant Valid() && Value() == AddAll(old(Value()), xs[..i])
      {
        AddAllSnoc(old(Value()), xs[..i], xs[i]);
        assert xs[..i + 1] == xs[..i] + [xs[i]];
        AddPrimitive(Make(SurfaceShape(TrianglePolygon(ts[i]))));
        i := i + 1;
      }
      assert xs[..i] == xs;
    }

    /** The polyhedral surface branch of decompose: one surface per non-empty polygon. */
    method DecomposePolygons(ps: seq<Polygon>)
      requires Valid()
      modifies this
      ensures Valid() && Value() == AddAll(old(Value()), PolygonPieces(ps))
    {
      var i := 0;
      while i < |ps|
        invariant 0 <= i <= |ps|
        invariant Valid() && Value() == AddAll(old(Value()), PolygonPieces(ps[..i]))
      {
        PolygonPieceStep(old(Value()), ps, i);
        if ps[i].outer != [] {
          AddPrimitive(Make(SurfaceShape(ps[i])));
        }
        i := i + 1;
      }
      assert ps[..i] == ps;
    }

    /**
      computeBoundingBoxes: the boxes come out fresh, one per primitive in
      iteration order, each naming its primitive in the handle list; the
      handle list is appended to, not cleared.
    */
    method ComputeBoundingBoxes(handles: seq<Primitive>) returns (handlesOut: seq<Primitive>, boxes: seq<HandleBox>)
      requires Valid()
      ensures handlesOut == handles + Value().Primitives()
      ensures |boxes| == |Value().Primitives()|
      ensures forall i :: 0 <= i < |boxes| ==>
        boxes[i].box == BoxOf(Value().Primitives()[i]) && boxes[i].handle == |handles| + i
    {
      var g := Value();
      handlesOut := handles;
      boxes := [];
      var it := Begin(g, -1);
      ghost var visited: seq<Primitive> := [];
      WalkVisits(g, it);
      assert g.points[0..] == g.points && g.segments[0..] == g.segments;
      assert g.surfaces[0..] == g.surfaces && g.volumes[0..] == g.volumes;
      while it != End(g)
        invariant InRange(g, it)
        invariant visited + Walk(g, it) == g.Primitives()
        invariant handlesOut == handles + visited
        invariant |boxes| == |visited|
        invariant forall i :: 0 <= i < |boxes| ==> boxes[i] == HandleBox(BoxOf(visited[i]), |handles| + i)
        decreases Remaining(g, it)
      {
        var p := Dereference(g, it);
        assert Walk(g, it) == [p] + Walk(g, Increment(g, it));
        assert (visited + [p]) + Walk(g, Increment(g, it)) == visited + Walk(g, it);
        handlesOut := handlesOut + [p];
        boxes := boxes + [HandleBox(BoxOf(p), |handlesOut| - 1)];
        visited := visited + [p];
        it := Increment(g, it);
      }
    }

    /** collectPoints: insert every vertex of pa as a point with flags 0. */
    method CollectPoints(pa: Primitive)
      requires Valid()
      modifies this
      ensures Valid() && Value() == AddAll(old(Value()), PointPrimitives(VerticesOf(pa)))
    {
      assert PointPrimitives([]) == [];
      match pa.shape
      case PointShape(q) =>
        InsertVertices([q], old(Value()), []);
        assert [] + [q] == VerticesOf(pa);
      case SegmentShape(s) =>
        InsertVertices([s.source, s.target], old(Value()), []);
        assert [] + [s.source, s.target] == VerticesOf(pa);
      case SurfaceShape(poly) =>
        InsertVertices(poly.outer, old(Value()), []);
        assert [] + poly.outer == poly.outer;
        InsertHoleVertices(poly, old(Value()));
      case VolumeShape(_) =>
        // a 2D volume has no points
    }

    /** The hole loop of collectPoints, after the outer ring. */
    method InsertHoleVertices(poly: Polygon, ghost g0: GSet)
      requires Valid() && g0.Valid() && Value() == AddAll(g0, PointPrimitives(poly.outer))
      modifies this
      ensures Valid() && Value() == AddAll(g0, PointPrimitives(poly.outer + Flatten(poly.holes)))
    {
      assert poly.holes[..0] == [] && poly.outer + Flatten([]) == poly.outer;
      var h := 0;
      while h < |poly.holes|
        invariant 0 <= h <= |poly.holes|
        invariant Valid() && Value() == AddAll(g0, PointPrimitives(poly.outer + Flatten(poly.holes[..h])))
      {
        ghost var done := poly.outer + Flatten(poly.holes[..h]);
        FlattenSnoc(poly.outer, poly.holes, h);
        InsertVertices(poly.holes[h], g0, done);
        h := h + 1;
      }
      assert poly.holes[..h] == poly.holes;
    }

    /** Insert the vertices vs as points, after the vertices already collected. */
    method InsertVertices(vs: seq<Point2>, ghost g0: GSet, ghost done: seq<Point2>)
      requires Valid() && g0.Valid() && Value() == AddAll(g0, PointPrimitives(done))
      modifies this
      ensures Valid() && Value() == AddAll(g0, PointPrimitives(done + vs))
    {
      assert done + vs[..0] == done;
      var i := 0;
      while i < |vs|
        invariant 0 <= i <= |vs|
        invariant Valid() && Value() == AddAll(g0, PointPrimitives(done + vs[..i]))
      {
        var p := Make(PointShape(vs[i]));
        InsertVertexStep(g0, done, vs, i);
        AddPrimitive(p);
        i := i + 1;
      }
      assert vs[..i] == vs;
    }

    /**
      insert(it, value): a point or segment goes in by key, a surface or
      volume just before the iterator's position in its list. The value is
      stored with flags 0. The returned iterator still designates the
      element the given one designated, now possibly one place further.
    */
    method Insert(it: Cursor, value: Primitive) returns (r: Cursor)
      requires Valid() && InRange(Value(), it)
      modifies this
      ensures Valid() && InRange(Value(), r) && complete == old(complete)
      ensures InsertedValue(old(Value()), Value(), it, Bare(value))
      ensures CursorFollows(old(Value()), Value(), it, r)
    {
      var v := Bare(value);
      if Ordered(v.GetType()) {
        r := InsertKeyed(it, v);
      } else {
        r := InsertListed(it, v);
      }
    }

    /** insert for a point or a segment: std::set insertion, with the cursor following its element. */
    method InsertKeyed(it: Cursor, v: Primitive) returns (r: Cursor)
      requires Valid() && InRange(Value(), it) && Ordered(v.GetType()) && v.flags == 0
      modifies this
      ensures Valid() && InRange(Value(), r) && complete == old(complete)
      ensures InsertedValue(old(Value()), Value(), it, v)
      ensures CursorFollows(old(Value()), Value(), it, r)
    {
      r := it;
      if v.GetType() == PrimitivePoint {
        var k := SetPosition(points, v, it.pointIt);
        r := r.(pointIt := k);
        points := SetInsert(points, v);
      } else {
        var k := SetPosition(segments, v, it.segmentIt);
        r := r.(segmentIt := k);
        segments := SetInsert(segments, v);
      }
    }

    /** insert for a surface or a volume: list insertion before the cursor, which moves past the new element. */
    method InsertListed(it: Cursor, v: Primitive) returns (r: Cursor)
      requires Valid() && InRange(Value(), it) && !Ordered(v.GetType())
      modifies this
      ensures Valid() && InRange(Value(), r) && complete == old(complete)
      ensures InsertedValue(old(Value()), Value(), it, v)
      ensures CursorFollows(old(Value()), Value(), it, r)
    {
      r := it;
      if v.GetType() == PrimitiveSurface {
        SpliceFacts(surfaces, it.surfaceIt, v);
        surfaces := surfaces[..it.surfaceIt] + [v] + surfaces[it.surfaceIt..];
        r := r.(surfaceIt := it.surfaceIt + 1);
      } else {
        SpliceFacts(volumes, it.volumeIt, v);
        volumes := volumes[..it.volumeIt] + [v] + volumes[it.volumeIt..];
        r := r.(volumeIt := it.volumeIt + 1);
      }
    }

    /** filterCovered: keep, kind by kind, what nothing else covers. */
    method FilterCovered(output: GeometrySet, covers: Covers)
      requires Valid() && output.Valid() && output != this
      modifies output
      ensures output.Valid() && output.Value() == FilterCoveredSpec(Value(), old(output.Value()), covers)
    {
      FilterRange(volumes, output, covers);
      FilterRange(surfaces, output, covers);
      FilterRange(segments, output, covers);
      FilterRange(points, output, covers);
    }
  }

  /**
    g is g0 with v inserted: into the sorted set of its kind for a point or
    a segment, before the cursor's position for a surface or a volume.
  */
  ghost predicate InsertedValue(g0: GSet, g: GSet, it: Cursor, v: Primitive)
  {
    && g0.Valid() && InRange(g0, it)
    && (v.GetType() == PrimitivePoint ==> g == g0.(points := SetInsert(g0.points, v)))
    && (v.GetType() == PrimitiveSegment ==> g == g0.(segments := SetInsert(g0.segments, v)))
    && (v.GetType() == PrimitiveSurface ==>
          g == g0.(surfaces := g0.surfaces[..it.surfaceIt] + [v] + g0.surfaces[it.surfaceIt..]))
    && (v.GetType() == PrimitiveVolume ==>
          g == g0.(volumes := g0.volumes[..it.volumeIt] + [v] + g0.volumes[it.volumeIt..]))
  }

  /** Each position of r names in g the element it names in g0; a position at the end stays at the end. */
  ghost predicate CursorFollows(g0: GSet, g: GSet, it: Cursor, r: Cursor)
  {
    && (it.pointIt < |g0.points| ==> r.pointIt < |g.points| && g.points[r.pointIt] == g0.points[it.pointIt])
    && (it.pointIt == |g0.points| ==> r.pointIt == |g.points|)
    && (it.segmentIt < |g0.segments| ==> r.segmentIt < |g.segments| && g.segments[r.segmentIt] == g0.segments[it.segmentIt])
    && (it.segmentIt == |g0.segments| ==> r.segmentIt == |g.segments|)
    && (it.surfaceIt < |g0.surfaces| ==> r.surfaceIt < |g.surfaces| && g.surfaces[r.surfaceIt] == g0.surfaces[it.surfaceIt])
    && (it.surfaceIt == |g0.surfaces| ==> r.surfaceIt == |g.surfaces|)
    && (it.volumeIt < |g0.volumes| ==> r.volumeIt < |g.volumes| && g.volumes[r.volumeIt] == g0.volumes[it.volumeIt])
    && (it.volumeIt == |g0.volumes| ==> r.volumeIt == |g.volumes|)
  }

  /** Inserting v before position c shifts what was at c one place on, and keeps the kind of every element. */
  lemma SpliceFacts(s: seq<Primitive>, c: nat, v: Primitive)
    requires c <= |s|
    ensures var r := s[..c] + [v] + s[c..];
      && |r| == |s| + 1
      && (c < |s| ==> r[c + 1] == s[c])
      && (AllOfType(s, v.GetType()) ==> AllOfType(r, v.GetType()))
  {
    var r := s[..c] + [v] + s[c..];
    assert forall l :: 0 <= l < |r| ==> r[l] == v || r[l] in s;
  }

  /** Where the element at index k of s sits once x has been inserted. */
  method SetPosition(s: seq<Primitive>, x: Primitive, k: nat) returns (k': nat)
    requires Ordered(x.GetType()) && IsSet(s, x.GetType()) && k <= |s|
    ensures k' <= |SetInsert(s, x)|
    ensures k < |s| ==> k' < |SetInsert(s, x)| && SetInsert(s, x)[k'] == s[k]
    ensures k == |s| ==> k' == |SetInsert(s, x)|
  {
    if x.shape in Shapes(s) {
      k' := k;
    } else {
      ghost var q := SetInsertSplit(s, x);
      if k == |s| {
        k' := k + 1;
      } else if Less(x, s[k]) {
        LessIsStrictTotal(s[k], x, s[k]);
        k' := k + 1;
      } else {
        k' := k;
      }
    }
  }

  /** The inner scan of _filter_covered: does a later primitive of the collection cover xs[i]? */
  method IsCoveredLater(xs: seq<Primitive>, i: nat, covers: Covers) returns (covered: bool)
    requires i < |xs|
    ensures covered == CoveredLater(xs, i, covers)
  {
    var v1 := Add(Empty, xs[i]);
    covered := false;
    var j := i + 1;
    while j < |xs| && !covered
      invariant i + 1 <= j <= |xs|
      invariant covered ==> j < |xs| && covers(Add(Empty, xs[j]), v1)
      invariant !covered ==> forall j' :: i < j' < j ==> !covers(Add(Empty, xs[j']), v1)
      decreases |xs| - j, if covered then 0 else 1
    {
      if covers(Add(Empty, xs[j]), v1) {
        covered := true;
      } else {
        j := j + 1;
      }
    }
  }

  /** _filter_covered over one collection, adding to output what it keeps. */
  method FilterRange(xs: seq<Primitive>, output: GeometrySet, covers: Covers)
    requires output.Valid()
    modifies output
    ensures output.Valid() && output.Value() == FilterFrom(xs, 0, old(output.Value()), covers)
  {
    var i := 0;
    while i < |xs|
      invariant 0 <= i <= |xs| && output.Valid()
      invariant FilterFrom(xs, i, output.Value(), covers) == FilterFrom(xs, 0, old(output.Value()), covers)
    {
      var v1 := Add(Empty, xs[i]);
      var covered := IsCoveredLater(xs, i, covers);
      if !covered {
        if !covers(output.Value(), v1) {
          output.AddPrimitive(xs[i]);
        }
      }
      i := i + 1;
    }
  }
}
