/**
  Facet merging for PolyhedralSurface. A polyhedron arrives as its facets,
  each the cycle of its vertices. Without simplification each facet becomes
  one closed polygon. With simplification the facets are grouped by plane,
  and within a plane the facets are grafted one onto another along shared
  edges (a `Ring` of segments with an insertion cursor), each finished ring
  becoming one polygon with its collinear vertices dropped.
*/
module PolyhedralSurfaces {
  import opened Options

  // ---------------------------------------------------------------------
  // Points, segments and polygons in 3D
  // ---------------------------------------------------------------------

  datatype Point3 = Point3(x: real, y: real, z: real)

  datatype Segment3 = Segment3(source: Point3, target: Point3)
  {
    function Opposite(): Segment3
    {
      Segment3(target, source)
    }
  }

  /** A polygon with an exterior ring only, as toPolygon and the facet loop build it. */
  datatype Polygon3 = Polygon3(ring: seq<Point3>)

  function Sub(p: Point3, q: Point3): Point3
  {
    Point3(p.x - q.x, p.y - q.y, p.z - q.z)
  }

  function Cross3(u: Point3, v: Point3): Point3
  {
    Point3(u.y * v.z - u.z * v.y, u.z * v.x - u.x * v.z, u.x * v.y - u.y * v.x)
  }

  /** CGAL::collinear on three points of space. */
  predicate Collinear3(p: Point3, q: Point3, r: Point3)
  {
    Cross3(Sub(q, p), Sub(r, p)) == Point3(0.0, 0.0, 0.0)
  }

  // ---------------------------------------------------------------------
  // The ring: specification on values
  // ---------------------------------------------------------------------

  /** The list of segments and the index of insert_location (|segs| is end()). */
  datatype RingState = RingState(segs: seq<Segment3>, cursor: nat)
  {
    predicate Valid()
    {
      cursor <= |segs|
    }
  }

  const EmptyRing: RingState := RingState([], 0)

  /** The list after inserting vs, in order, before position c. */
  function Inserted(segs: seq<Segment3>, c: nat, vs: seq<Segment3>): (r: seq<Segment3>)
    requires c <= |segs|
    ensures |r| == |segs| + |vs|
  {
    segs[..c] + vs + segs[c..]
  }

  /** A push after a run of pushes at the same place: the run grows at its end, so pushes keep their order. */
  lemma InsertedSnoc(segs: seq<Segment3>, c: nat, vs: seq<Segment3>, v: Segment3)
    requires c <= |segs|
    ensures Inserted(Inserted(segs, c, vs), c + |vs|, [v]) == Inserted(segs, c, vs + [v])
  {
    var s1 := Inserted(segs, c, vs);
    assert s1[..c + |vs|] == segs[..c] + vs;
    assert s1[c + |vs|..] == segs[c..];
  }

  /** std::find: the first position holding s, or |segs| when there is none. */
  function IndexOf(segs: seq<Segment3>, s: Segment3): (r: nat)
    ensures r <= |segs|
    ensures r < |segs| ==> segs[r] == s
    ensures forall k :: 0 <= k < r ==> segs[k] != s
    ensures r == |segs| <==> s !in segs
  {
    if segs == [] then 0
    else if segs[0] == s then 0
    else 1 + IndexOf(segs[1..], s)
  }

  /** The first segment of other, from position i on, whose reverse is in segs. */
  function FirstShared(segs: seq<Segment3>, other: seq<Segment3>, i: nat): (r: Option<nat>)
    requires i <= |other|
    ensures r.Some? ==> i <= r.value < |other| && other[r.value].Opposite() in segs
    ensures forall k :: i <= k < (if r.Some? then r.value else |other|) ==> other[k].Opposite() !in segs
    decreases |other| - i
  {
    if i == |other| then None
    else if other[i].Opposite() in segs then Some(i)
    else FirstShared(segs, other, i + 1)
  }

  /** Position t of the walk round other that starts just after position i. */
  function CyclePos(i: nat, t: nat, m: nat): nat
  {
    if i + 1 + t < m then i + 1 + t else i + 1 + t - m
  }

  /**
    What the circulator loop pushes: other's segments in cyclic order,
    starting after position i and stopping before it. A one-segment ring
    comes round to its own segment at once, which is pushed.
  */
  function Spliced(other: seq<Segment3>, i: nat): (r: seq<Segment3>)
    requires i < |other|
    ensures |other| == 1 ==> r == other
    ensures |other| >= 2 ==> r == other[i + 1..] + other[..i]
  {
    if |other| == 1 then other else other[i + 1..] + other[..i]
  }

  lemma SplicedAt(other: seq<Segment3>, i: nat, t: nat)
    requires i < |other| && t < |Spliced(other, i)|
    ensures CyclePos(i, t, |other|) < |other|
    ensures Spliced(other, i)[t] == other[CyclePos(i, t, |other|)]
  {
  }

  datatype MergeOutcome = MergeOutcome(ok: bool, ring: RingState)

  /**
    merge: into an empty ring, other is pushed whole. Otherwise the first
    segment of other whose reverse is in the ring picks the shared edge;
    the edge is erased and the rest of other, taken cyclically from after
    its copy, goes in where the edge was. With no shared edge nothing
    changes and the answer is false.
  */
  function Merged(st: RingState, other: seq<Segment3>): (r: MergeOutcome)
    requires st.Valid()
    ensures r.ring.Valid()
    ensures st.segs == [] ==> r.ok && r.ring == RingState(other, |other|)
    ensures !r.ok ==> r.ring == st
  {
    if st.segs == [] then MergeOutcome(true, RingState(other, |other|))
    else
      match FirstShared(st.segs, other, 0)
      case None => MergeOutcome(false, st)
      case Some(i) =>
        var j := IndexOf(st.segs, other[i].Opposite());
        var sp := Spliced(other, i);
        MergeOutcome(true, RingState(Inserted(st.segs[..j] + st.segs[j + 1..], j, sp), j + |sp|))
  }

  /** A non-empty ring merges exactly when some segment of other has its reverse in the ring. */
  lemma MergeSucceedsIffShared(st: RingState, other: seq<Segment3>)
    requires st.Valid() && st.segs != []
    ensures Merged(st, other).ok <==> exists k :: 0 <= k < |other| && other[k].Opposite() in st.segs
    ensures !Merged(st, other).ok ==> Merged(st, other).ring == st
  {
    var fs := FirstShared(st.segs, other, 0);
    if fs.Some? {
      assert other[fs.value].Opposite() in st.segs;
    }
  }

  /** A successful merge of a ring of at least two segments into a non-empty ring trades two segments for the rest. */
  lemma MergeLength(st: RingState, other: seq<Segment3>)
    requires st.Valid() && st.segs != [] && |other| >= 2 && Merged(st, other).ok
    ensures |Merged(st, other).ring.segs| == |st.segs| + |other| - 2
  {
  }

  /**
    A successful merge into a non-empty ring: the shared edge e of the ring
    and its reverse in other are gone, every other segment of either ring
    is there.
  */
  lemma MergeKeepsTheRest(st: RingState, other: seq<Segment3>)
    requires st.Valid() && st.segs != [] && |other| >= 2
    requires FirstShared(st.segs, other, 0).Some?
    ensures var i := FirstShared(st.segs, other, 0).value;
      multiset(Merged(st, other).ring.segs)
        == multiset(st.segs) - multiset{other[i].Opposite()} + (multiset(other) - multiset{other[i]})
  {
    var i := FirstShared(st.segs, other, 0).value;
    var j := IndexOf(st.segs, other[i].Opposite());
    RemoveAtCount(st.segs, j);
    RemoveAtCount(other, i);
    SplicedCount(other, i);
    InsertedCount(st.segs[..j] + st.segs[j + 1..], j, Spliced(other, i));
  }

  lemma RemoveAtCount(s: seq<Segment3>, j: nat)
    requires j < |s|
    ensures multiset(s[..j] + s[j + 1..]) == multiset(s) - multiset{s[j]}
  {
    assert s == s[..j] + [s[j]] + s[j + 1..];
  }

  lemma SplicedCount(other: seq<Segment3>, i: nat)
    requires i < |other| && |other| >= 2
    ensures multiset(Spliced(other, i)) == multiset(other[..i] + other[i + 1..])
  {
  }

  lemma InsertedCount(segs: seq<Segment3>, c: nat, vs: seq<Segment3>)
    requires c <= |segs|
    ensures multiset(Inserted(segs, c, vs)) == multiset(segs) + multiset(vs)
  {
    assert segs == segs[..c] + segs[c..];
  }

  // ---------------------------------------------------------------------
  // toPolygon
  // ---------------------------------------------------------------------

  /** The segment after position k, wrapping round. */
  function NextIndex(n: nat, k: nat): nat
    requires k < n
  {
    if k + 1 == n then 0 else k + 1
  }

  /** A segment whose target is a straight-through vertex: collinear with the segment and the next one's target. */
  predicate Straight(segs: seq<Segment3>, k: nat)
    requires k < |segs|
  {
    Collinear3(segs[k].source, segs[k].target, segs[NextIndex(|segs|, k)].target)
  }

  /** The targets of the first k segments that are not straight-through vertices. */
  function Corners(segs: seq<Segment3>, k: nat): (r: seq<Point3>)
    requires k <= |segs|
    ensures |r| <= k
    ensures forall p :: p in r ==> exists l :: 0 <= l < k && segs[l].target == p && !Straight(segs, l)
  {
    if k == 0 then []
    else
      var prev := Corners(segs, k - 1);
      if Straight(segs, k - 1) then prev else prev + [segs[k - 1].target]
  }

  /**
    toPolygon: the corner targets, closed by repeating the first. With no
    corner at all the source reads a point that does not exist; the model
    answers None there.
  */
  function PolygonOf(segs: seq<Segment3>): (r: Option<Polygon3>)
    ensures r.Some? ==> |r.value.ring| >= 2 && r.value.ring[0] == r.value.ring[|r.value.ring| - 1]
    ensures r.None? <==> Corners(segs, |segs|) == []
  {
    var b := Corners(segs, |segs|);
    if b == [] then None else Some(Polygon3(b + [b[0]]))
  }

  /** Every corner is kept: a target that is not a straight-through vertex is in the polygon. */
  lemma {:induction false} CornersKept(segs: seq<Segment3>, k: nat, l: nat)
    requires l < k <= |segs| && !Straight(segs, l)
    ensures segs[l].target in Corners(segs, k)
  {
    if l < k - 1 {
      CornersKept(segs, k - 1, l);
    }
  }

  /** With no straight-through vertex, the polygon is every target in order, closed. */
  lemma {:induction false} NoStraightKeepsAll(segs: seq<Segment3>, k: nat)
    requires k <= |segs| && forall l :: 0 <= l < |segs| ==> !Straight(segs, l)
    ensures Corners(segs, k) == seq(k, l requires 0 <= l < k => segs[l].target)
  {
    if k > 0 {
      NoStraightKeepsAll(segs, k - 1);
    }
  }

  // ---------------------------------------------------------------------
  // The ring, updated in place
  // ---------------------------------------------------------------------

  class Ring {
    var segs: seq<Segment3>
    var cursor: nat

    function State(): RingState
      reads this
    {
      RingState(segs, cursor)
    }

    predicate Valid()
      reads this
    {
      cursor <= |segs|
    }

    /** A new ring is empty, its cursor at the end. */
    constructor ()
      ensures Valid() && State() == EmptyRing
    {
      segs, cursor := [], 0;
    }

    /** The copy constructor: the same segments, the cursor at the same offset. */
    constructor Copy(other: Ring)
      requires other.Valid()
      ensures Valid() && segs == other.segs && cursor == other.cursor
    {
      segs := other.segs;
      cursor := other.cursor;
    }

    /** push: v goes in before the cursor, which stays on the element it was on. */
    method Push(v: Segment3)
      requires Valid()
      modifies this
      ensures Valid() && segs == Inserted(old(segs), old(cursor), [v]) && cursor == old(cursor) + 1
    {
      segs := segs[..cursor] + [v] + segs[cursor..];
      cursor := cursor + 1;
    }

    /** erase: the element at k goes, and the cursor moves to its successor. */
    method Erase(k: nat) returns (r: nat)
      requires Valid() && k < |segs|
      modifies this
      ensures Valid() && segs == old(segs[..k] + segs[k + 1..]) && cursor == k && r == k
    {
      segs := segs[..k] + segs[k + 1..];
      cursor := k;
      r := cursor;
    }

    /** clear: no segments, the cursor at the end. */
    method Clear()
      modifies this
      ensures Valid() && State() == EmptyRing
    {
      segs := [];
      cursor := 0;
    }

    /** Push a run of segments in order, as the merge loops do. */
    method PushAll(vs: seq<Segment3>)
      requires Valid()
      modifies this
      ensures Valid() && segs == Inserted(old(segs), old(cursor), vs) && cursor == old(cursor) + |vs|
    {
      for k := 0 to |vs|
        invariant Valid() && segs == Inserted(old(segs), old(cursor), vs[..k]) && cursor == old(cursor) + k
      {
        InsertedSnoc(old(segs), old(cursor), vs[..k], vs[k]);
        assert vs[..k + 1] == vs[..k] + [vs[k]];
        Push(vs[k]);
      }
      assert vs[..|vs|] == vs;
    }

    /** merge(other), other given by its segment list. */
    method Merge(other: seq<Segment3>) returns (ok: bool)
      requires Valid()
      modifies this
      ensures Valid() && MergeOutcome(ok, State()) == Merged(old(State()), other)
    {
      if segs == [] {
        PushAll(other);
        return true;
      }
      var k := 0;
      var common2 := |other|;
      while k < |other|
        invariant k <= |other| && segs == old(segs) && cursor == old(cursor)
        invariant FirstShared(segs, other, k) == FirstShared(segs, other, 0)
      {
        var commonEdge := Find(segs, other[k].Opposite());
        if commonEdge < |segs| {
          var _ := Erase(commonEdge);
          common2 := k;
          break;
        }
        k := k + 1;
      }
      if common2 == |other| {
        return false;
      }
      SpliceFrom(other, common2);
      ok := true;
    }

    /** The circulator loop of merge: other's segments from after position i round to it, pushed in turn. */
    method SpliceFrom(other: seq<Segment3>, i: nat)
      requires Valid() && i < |other|
      modifies this
      ensures Valid() && segs == Inserted(old(segs), old(cursor), Spliced(other, i))
      ensures cursor == old(cursor) + |Spliced(other, i)|
    {
      var m := |other|;
      ghost var sp := Spliced(other, i);
      var c := if i + 1 == m then 0 else i + 1;
      var t := 0;
      while t == 0 || c != i
        invariant 0 <= t <= |sp|
        invariant c == (if t == m then i else CyclePos(i, t, m))
        invariant Valid() && segs == Inserted(old(segs), old(cursor), sp[..t]) && cursor == old(cursor) + t
        decreases |sp| - t
      {
        assert sp[..t + 1] == sp[..t] + [sp[t]];
        SplicedAt(other, i, t);
        InsertedSnoc(old(segs), old(cursor), sp[..t], sp[t]);
        Push(other[c]);
        c := if c + 1 == m then 0 else c + 1;
        t := t + 1;
      }
      assert sp[..t] == sp;
    }

    /** toPolygon: the corners of the ring, closed. */
    method ToPolygon() returns (p: Option<Polygon3>)
      requires Valid()
      ensures p == PolygonOf(segs)
    {
      var boundary: seq<Point3> := [];
      var n := |segs|;
      for k := 0 to n
        invariant boundary == Corners(segs, k)
      {
        var next := if k + 1 == n then 0 else k + 1;
        if Collinear3(segs[k].source, segs[k].target, segs[next].target) {
          continue;
        }
        boundary := boundary + [segs[k].target];
      }
      if boundary == [] {
        return None;
      }
      p := Some(Polygon3(boundary + [boundary[0]]));
    }
  }

  /** std::find over the ring's list. */
  method Find(segs: seq<Segment3>, s: Segment3) returns (r: nat)
    ensures r == IndexOf(segs, s)
  {
    r := 0;
    while r < |segs| && segs[r] != s
      invariant r <= |segs| && forall k :: 0 <= k < r ==> segs[k] != s
    {
      r := r + 1;
    }
    IndexOfIsFirst(segs, s, r);
  }

  lemma IndexOfIsFirst(segs: seq<Segment3>, s: Segment3, r: nat)
    requires r <= |segs| && (r < |segs| ==> segs[r] == s) && forall k :: 0 <= k < r ==> segs[k] != s
    ensures r == IndexOf(segs, s)
  {
  }

  // ---------------------------------------------------------------------
  // Facets
  // ---------------------------------------------------------------------

  /**
    The ring of a facet given by its vertices v0 .. v(n-1) in circulator
    order: the halfedge into vertex k runs from vertex k-1, and the one
    into v0 from the last vertex.
  */
  function FacetRing(vs: seq<Point3>): (r: seq<Segment3>)
    ensures |r| == |vs|
    ensures forall k :: 0 <= k < |r| ==> r[k].target == vs[k]
  {
    seq(|vs|, k requires 0 <= k < |vs| => Segment3(vs[if k == 0 then |vs| - 1 else k - 1], vs[k]))
  }

  /** The segments of a ring follow one another round a closed path. */
  predicate Chained(segs: seq<Segment3>)
  {
    forall k :: 0 <= k < |segs| ==> segs[k].target == segs[NextIndex(|segs|, k)].source
  }

  lemma FacetRingChained(vs: seq<Point3>)
    ensures Chained(FacetRing(vs))
  {
    var r := FacetRing(vs);
    forall k | 0 <= k < |r|
      ensures r[k].target == r[NextIndex(|r|, k)].source
    {
      var n := NextIndex(|r|, k);
      assert r[n].source == vs[if n == 0 then |vs| - 1 else n - 1];
    }
  }

  /** The closed polygon the unsimplified construction makes of one facet. */
  function FacetPolygon(vs: seq<Point3>): (r: Polygon3)
    requires |vs| >= 1
    ensures |r.ring| == |vs| + 1 && r.ring[0] == r.ring[|vs|]
  {
    Polygon3(vs + [vs[0]])
  }

  /**
    Both constructions agree on a lone facet without straight-through
    vertices: toPolygon of its ring is the facet's closed polygon.
  */
  lemma FacetRingPolygon(vs: seq<Point3>)
    requires |vs| >= 1
    requires forall l :: 0 <= l < |vs| ==> !Straight(FacetRing(vs), l)
    ensures PolygonOf(FacetRing(vs)) == Some(FacetPolygon(vs))
  {
    var r := FacetRing(vs);
    NoStraightKeepsAll(r, |r|);
    assert Corners(r, |r|) == vs;
  }

  /** Building a facet's ring by pushes into a new ring, as the plane loop does. */
  method FacetRingOf(vs: seq<Point3>) returns (r: Ring)
    ensures fresh(r) && r.Valid() && r.segs == FacetRing(vs) && r.cursor == |vs|
  {
    r := new Ring();
    var n := |vs|;
    for k := 0 to n
      invariant r.Valid() && r.segs == FacetRing(vs)[..k] && r.cursor == k
    {
      var s := vs[if k == 0 then n - 1 else k - 1];
      r.Push(Segment3(s, vs[k]));
      assert r.segs == FacetRing(vs)[..k + 1];
    }
    assert FacetRing(vs)[..n] == FacetRing(vs);
  }

  // ---------------------------------------------------------------------
  // Grouping facets by plane
  // ---------------------------------------------------------------------

  /** A plane, as the key under which facets are grouped. */
  datatype Plane = Plane(a: real, b: real, c: real, d: real)

  /** One entry of the plane list: the ring being grown and the facets still to merge. */
  datatype Group = Group(plane: Plane, rings: seq<seq<Segment3>>)

  predicate DistinctPlanes(gs: seq<Group>)
  {
    forall k, l :: 0 <= k < l < |gs| ==> gs[k].plane != gs[l].plane
  }

  function RingCount(gs: seq<Group>): nat
  {
    if gs == [] then 0 else RingCount(gs[..|gs| - 1]) + |gs[|gs| - 1].rings|
  }

  /** The first group on plane p, if any. */
  function GroupIndex(gs: seq<Group>, p: Plane, k: nat): (r: Option<nat>)
    requires k <= |gs|
    ensures r.Some? ==> k <= r.value < |gs| && gs[r.value].plane == p
    ensures r.None? ==> forall l :: k <= l < |gs| ==> gs[l].plane != p
    decreases |gs| - k
  {
    if k == |gs| then None
    else if gs[k].plane == p then Some(k)
    else GroupIndex(gs, p, k + 1)
  }

  /** A facet's ring joins the group of its plane, a new group being added at the end when there is none. */
  function AddToGroup(gs: seq<Group>, p: Plane, ring: seq<Segment3>): (r: seq<Group>)
  {
    match GroupIndex(gs, p, 0)
    case Some(k) => gs[k := gs[k].(rings := gs[k].rings + [ring])]
    case None => gs + [Group(p, [ring])]
  }

  lemma RingCountUpdate(gs: seq<Group>, k: nat, g: Group)
    requires k < |gs|
    ensures RingCount(gs[k := g]) == RingCount(gs) - |gs[k].rings| + |g.rings|
    decreases |gs|
  {
    var n := |gs| - 1;
    if k < n {
      assert gs[k := g][..n] == gs[..n][k := g];
      RingCountUpdate(gs[..n], k, g);
    } else {
      assert gs[k := g][..n] == gs[..n];
    }
  }

  /** Adding a facet keeps the planes distinct and adds exactly one ring. */
  lemma AddToGroupFacts(gs: seq<Group>, p: Plane, ring: seq<Segment3>)
    requires DistinctPlanes(gs)
    ensures DistinctPlanes(AddToGroup(gs, p, ring))
    ensures RingCount(AddToGroup(gs, p, ring)) == RingCount(gs) + 1
    ensures exists k :: 0 <= k < |AddToGroup(gs, p, ring)| && AddToGroup(gs, p, ring)[k].plane == p
  {
    var r := AddToGroup(gs, p, ring);
    match GroupIndex(gs, p, 0)
    case Some(k) =>
      RingCountUpdate(gs, k, gs[k].(rings := gs[k].rings + [ring]));
      assert r[k].plane == p;
    case None =>
      assert r[..|gs|] == gs;
      assert r[|gs|].plane == p;
  }

  /** The plane list after the facet loop: groups in first-seen order, each facet's ring in its plane's group. */
  function Grouped(planeOf: seq<Point3> -> Plane, facets: seq<seq<Point3>>): (r: seq<Group>)
  {
    if facets == [] then []
    else
      var f := facets[|facets| - 1];
      AddToGroup(Grouped(planeOf, facets[..|facets| - 1]), planeOf(f), FacetRing(f))
  }

  /** The plane list has one group per plane, and every facet lands in exactly one group. */
  lemma {:induction false} GroupedFacts(planeOf: seq<Point3> -> Plane, facets: seq<seq<Point3>>)
    ensures DistinctPlanes(Grouped(planeOf, facets))
    ensures RingCount(Grouped(planeOf, facets)) == |facets|
    ensures forall f :: f in facets ==> exists k :: 0 <= k < |Grouped(planeOf, facets)| && Grouped(planeOf, facets)[k].plane == planeOf(f)
  {
    if facets != [] {
      var n := |facets| - 1;
      var init := facets[..n];
      GroupedFacts(planeOf, init);
      var gs := Grouped(planeOf, init);
      AddToGroupFacts(gs, planeOf(facets[n]), FacetRing(facets[n]));
      var r := Grouped(planeOf, facets);
      forall f | f in facets
        ensures exists k :: 0 <= k < |r| && r[k].plane == planeOf(f)
      {
        if f in init {
          var k :| 0 <= k < |gs| && gs[k].plane == planeOf(f);
          GroupPlaneStays(gs, planeOf(facets[n]), FacetRing(facets[n]), k);
        } else {
          assert f == facets[n] by {
            assert facets == init + [facets[n]];
          }
        }
      }
    }
  }

  lemma GroupPlaneStays(gs: seq<Group>, p: Plane, ring: seq<Segment3>, k: nat)
    requires k < |gs|
    ensures k < |AddToGroup(gs, p, ring)| && AddToGroup(gs, p, ring)[k].plane == gs[k].plane
  {
  }

  /** The facet loop: each facet's ring is built and filed under its plane, searching the list in order. */
  method GroupFacets(planeOf: seq<Point3> -> Plane, facets: seq<seq<Point3>>) returns (gs: seq<Group>)
    ensures gs == Grouped(planeOf, facets)
  {
    gs := [];
    for n := 0 to |facets|
      invariant gs == Grouped(planeOf, facets[..n])
    {
      var f := facets[n];
      var ring := FacetRingOf(f);
      var plane := planeOf(f);
      var k := 0;
      while k < |gs| && gs[k].plane != plane
        invariant k <= |gs| && GroupIndex(gs, plane, k) == GroupIndex(gs, plane, 0)
      {
        k := k + 1;
      }
      if k == |gs| {
        gs := gs + [Group(plane, [ring.segs])];
      } else {
        gs := gs[k := gs[k].(rings := gs[k].rings + [ring.segs])];
      }
      assert facets[..n + 1][..n] == facets[..n];
    }
    assert facets[..|facets|] == facets;
  }

  // ---------------------------------------------------------------------
  // Merging the facets of one plane
  // ---------------------------------------------------------------------

  /** The first facet, from position k on, that merges into the ring. */
  function FirstMerge(st: RingState, nm: seq<seq<Segment3>>, k: nat): (r: Option<nat>)
    requires st.Valid() && k <= |nm|
    ensures r.Some? ==> k <= r.value < |nm| && Merged(st, nm[r.value]).ok
    ensures r.None? ==> forall l :: k <= l < |nm| ==> !Merged(st, nm[l]).ok
    decreases |nm| - k
  {
    if k == |nm| then None
    else if Merged(st, nm[k]).ok then Some(k)
    else FirstMerge(st, nm, k + 1)
  }

  /**
    The while loop over not_merged: the first facet that merges leaves the
    queue; when none merges, or the queue has just emptied, the ring is
    emitted and cleared. The answer lists the emitted rings in order.
  */
  function Drain(st: RingState, nm: seq<seq<Segment3>>): (r: seq<seq<Segment3>>)
    requires st.Valid()
    decreases |nm|, if st.segs == [] then 0 else 1
  {
    if nm == [] then []
    else
      match FirstMerge(st, nm, 0)
      case Some(k) =>
        var next := Merged(st, nm[k]).ring;
        var rest := nm[..k] + nm[k + 1..];
        if rest == [] then [next.segs] else Drain(next, rest)
      case None =>
        assert !Merged(st, nm[0]).ok;
        [st.segs] + Drain(EmptyRing, nm)
  }

  /** Each emission follows at least one facet leaving the queue, so a plane yields at most as many rings as it has facets, and at least one. */
  lemma {:induction false} DrainCount(st: RingState, nm: seq<seq<Segment3>>)
    requires st.Valid()
    ensures |Drain(st, nm)| <= |nm| + (if st.segs == [] then 0 else 1)
    ensures nm != [] ==> |Drain(st, nm)| >= 1
    decreases |nm|, if st.segs == [] then 0 else 1
  {
    if nm != [] {
      match FirstMerge(st, nm, 0)
      case Some(k) =>
        var next := Merged(st, nm[k]).ring;
        var rest := nm[..k] + nm[k + 1..];
        if rest != [] {
          DrainCount(next, rest);
        }
      case None =>
        assert !Merged(st, nm[0]).ok;
        DrainCount(EmptyRing, nm);
    }
  }

  /** No segment of f is the reverse of a segment of g. */
  predicate NoSharedEdge(f: seq<Segment3>, g: seq<Segment3>)
  {
    forall k :: 0 <= k < |g| ==> g[k].Opposite() !in f
  }

  /** Facets no two of which share an edge. */
  predicate Separate(nm: seq<seq<Segment3>>)
  {
    forall k, l :: 0 <= k < |nm| && 0 <= l < |nm| && k != l ==> NoSharedEdge(nm[k], nm[l])
  }

  lemma SeparateTail(nm: seq<seq<Segment3>>)
    requires Separate(nm) && nm != []
    ensures Separate(nm[1..])
    ensures forall l :: 0 <= l < |nm| - 1 ==> NoSharedEdge(nm[0], nm[1..][l])
  {
    forall l | 0 <= l < |nm| - 1
      ensures NoSharedEdge(nm[0], nm[1..][l])
    {
      assert NoSharedEdge(nm[0], nm[l + 1]);
    }
    forall k, l | 0 <= k < |nm| - 1 && 0 <= l < |nm| - 1 && k != l
      ensures NoSharedEdge(nm[1..][k], nm[1..][l])
    {
      assert NoSharedEdge(nm[k + 1], nm[l + 1]);
    }
  }

  /** A ring holding one facet that shares no edge with the queue is emitted alone. */
  lemma {:induction false} LoneRingEmitted(f: seq<Segment3>, nm: seq<seq<Segment3>>)
    requires f != [] && nm != [] && forall l :: 0 <= l < |nm| ==> NoSharedEdge(f, nm[l])
    ensures Drain(RingState(f, |f|), nm) == [f] + Drain(EmptyRing, nm)
  {
    var st := RingState(f, |f|);
    forall l | 0 <= l < |nm|
      ensures !Merged(st, nm[l]).ok
    {
      MergeSucceedsIffShared(st, nm[l]);
    }
  }

  /** Facets of a plane that share no edge are not simplified: each comes out as its own ring. */
  lemma {:induction false} SeparateFacetsStayApart(nm: seq<seq<Segment3>>)
    requires Separate(nm) && forall k :: 0 <= k < |nm| ==> nm[k] != []
    ensures Drain(EmptyRing, nm) == nm
    decreases |nm|
  {
    if nm != [] {
      var rest := nm[1..];
      assert nm == [nm[0]] + rest;
      assert nm[..0] + nm[1..] == rest;
      assert Merged(EmptyRing, nm[0]).ok;
      assert FirstMerge(EmptyRing, nm, 0) == Some(0);
      if rest != [] {
        SeparateTail(nm);
        LoneRingEmitted(nm[0], rest);
        SeparateFacetsStayApart(rest);
      }
    }
  }

  /** Two facets sharing an edge come out as a single ring, the second grafted into the first. */
  lemma TwoFacetsMerge(f: seq<Segment3>, g: seq<Segment3>)
    requires f != [] && !NoSharedEdge(f, g)
    ensures Drain(EmptyRing, [f, g]) == [Merged(RingState(f, |f|), g).ring.segs]
  {
    var st := RingState(f, |f|);
    assert FirstMerge(EmptyRing, [f, g], 0) == Some(0);
    assert [f, g][..0] + [f, g][1..] == [g];
    var k :| 0 <= k < |g| && g[k].Opposite() in f;
    MergeSucceedsIffShared(st, g);
    assert FirstMerge(st, [g], 0) == Some(0);
    assert [g][..0] + [g][1..] == [];
  }

  /** The polygons of the emitted rings, in order; a ring without a corner gives none. */
  function PolygonsOf(rings: seq<seq<Segment3>>): (r: seq<Polygon3>)
    ensures |r| <= |rings|
  {
    if rings == [] then []
    else
      var init := PolygonsOf(rings[..|rings| - 1]);
      match PolygonOf(rings[|rings| - 1])
      case Some(p) => init + [p]
      case None => init
  }

  /** The rings emitted for every plane, plane after plane. */
  function SimplifiedRings(gs: seq<Group>): (r: seq<seq<Segment3>>)
  {
    if gs == [] then [] else SimplifiedRings(gs[..|gs| - 1]) + Drain(EmptyRing, gs[|gs| - 1].rings)
  }

  lemma {:induction false} SimplifiedRingsCount(gs: seq<Group>)
    ensures |SimplifiedRings(gs)| <= RingCount(gs)
  {
    if gs != [] {
      SimplifiedRingsCount(gs[..|gs| - 1]);
      DrainCount(EmptyRing, gs[|gs| - 1].rings);
    }
  }

  /** Simplification never yields more polygons than the polyhedron has facets. */
  lemma SimplifiedNoMoreThanFacets(planeOf: seq<Point3> -> Plane, facets: seq<seq<Point3>>)
    ensures |PolygonsOf(SimplifiedRings(Grouped(planeOf, facets)))| <= |facets|
  {
    GroupedFacts(planeOf, facets);
    SimplifiedRingsCount(Grouped(planeOf, facets));
  }

  lemma PolygonsOfAppend(rings: seq<seq<Segment3>>, more: seq<seq<Segment3>>)
    ensures PolygonsOf(rings + more) == PolygonsOf(rings) + PolygonsOf(more)
    decreases |more|
  {
    if more == [] {
      assert rings + more == rings;
    } else {
      var n := |more| - 1;
      assert (rings + more)[..|rings + more| - 1] == rings + more[..n];
      PolygonsOfAppend(rings, more[..n]);
    }
  }

  /** One turn of the while loop over not_merged, as Drain takes it. */
  lemma DrainStep(st: RingState, nm: seq<seq<Segment3>>, found: Option<nat>, next: RingState, rest: seq<seq<Segment3>>)
    requires st.Valid() && nm != [] && found == FirstMerge(st, nm, 0)
    requires next == if found.Some? then Merged(st, nm[found.value]).ring else st
    requires rest == if found.Some? then nm[..found.value] + nm[found.value + 1..] else nm
    ensures next.Valid()
    ensures found.None? ==> st.segs != []
    ensures Drain(st, nm) == if found.None? || rest == [] then [next.segs] + Drain(EmptyRing, rest) else Drain(next, rest)
  {
  }

  /** The for loop over not_merged: the first facet that merges into the ring is merged, and its position reported. */
  method MergeFirst(merged: Ring, nm: seq<seq<Segment3>>) returns (found: Option<nat>)
    requires merged.Valid()
    modifies merged
    ensures merged.Valid() && found == FirstMerge(old(merged.State()), nm, 0)
    ensures merged.State() == if found.Some? then Merged(old(merged.State()), nm[found.value]).ring else old(merged.State())
  {
    var k := 0;
    while k < |nm|
      invariant k <= |nm| && merged.Valid() && merged.State() == old(merged.State())
      invariant FirstMerge(old(merged.State()), nm, k) == FirstMerge(old(merged.State()), nm, 0)
    {
      var ok := merged.Merge(nm[k]);
      if ok {
        return Some(k);
      }
      k := k + 1;
    }
    return None;
  }

  // ---------------------------------------------------------------------
  // The surface
  // ---------------------------------------------------------------------

  class PolyhedralSurface {
    var polygons: seq<Polygon3>

    /** isEmpty */
    predicate IsEmpty()
      reads this
    {
      polygons == []
    }

    /** The surface of a polyhedron given by its facets, each the cycle of its vertices. */
    constructor FromFacets(facets: seq<seq<Point3>>, simplify: bool, planeOf: seq<Point3> -> Plane)
      requires forall k :: 0 <= k < |facets| ==> |facets[k]| >= 1
      ensures !simplify ==> polygons == seq(|facets|, k requires 0 <= k < |facets| => FacetPolygon(facets[k]))
      ensures simplify ==> polygons == PolygonsOf(SimplifiedRings(Grouped(planeOf, facets)))
    {
      polygons := [];
      new;
      if !simplify {
        for k := 0 to |facets|
          invariant polygons == seq(k, l requires 0 <= l < k => FacetPolygon(facets[l]))
        {
          AddPolygon(FacetPolygon(facets[k]));
        }
        return;
      }
      var gs := GroupFacets(planeOf, facets);
      for n := 0 to |gs|
        invariant polygons == PolygonsOf(SimplifiedRings(gs[..n]))
      {
        MergePlane(gs[n].rings);
        assert gs[..n + 1][..n] == gs[..n];
        PolygonsOfAppend(SimplifiedRings(gs[..n]), Drain(EmptyRing, gs[n].rings));
      }
      assert gs[..|gs|] == gs;
    }

    /** addPolygon: the polygon is appended. */
    method AddPolygon(p: Polygon3)
      modifies this
      ensures polygons == old(polygons) + [p] && !IsEmpty()
    {
      polygons := polygons + [p];
    }

    /** The emission step of the plane loop: the ring's polygon is added, if it has one. */
    method Emit(ring: Ring)
      requires ring.Valid()
      modifies this
      ensures polygons == old(polygons) + PolygonsOf([ring.segs])
    {
      var p := ring.ToPolygon();
      assert [ring.segs][..0] == [];
      if p.Some? {
        AddPolygon(p.value);
      }
    }

    /**
      One turn of the loop over a plane's queue: the first facet that
      merges leaves the queue; when none does, or the queue is then empty,
      the ring's polygon is added and the ring cleared. out is what the
      turn emitted.
    */
    method MergeTurn(merged: Ring, nm: seq<seq<Segment3>>) returns (rest: seq<seq<Segment3>>, ghost out: seq<seq<Segment3>>)
      requires merged.Valid() && nm != []
      modifies this, merged
      ensures merged.Valid() && Drain(old(merged.State()), nm) == out + Drain(merged.State(), rest)
      ensures polygons == old(polygons) + PolygonsOf(out)
      ensures rest == [] ==> merged.segs == []
      ensures |rest| < |nm| || (rest == nm && old(merged.segs) != [] && merged.segs == [])
    {
      ghost var st := merged.State();
      var found := MergeFirst(merged, nm);
      rest := nm;
      if found.Some? {
        rest := nm[..found.value] + nm[found.value + 1..];
      }
      ghost var next := merged.State();
      DrainStep(st, nm, found, next, rest);
      out := [];
      if found.None? || rest == [] {
        Emit(merged);
        out := [next.segs];
        merged.Clear();
      }
    }

    /** The loop over one plane's queue of facets to merge. */
    method MergePlane(notMerged: seq<seq<Segment3>>)
      modifies this
      ensures polygons == old(polygons) + PolygonsOf(Drain(EmptyRing, notMerged))
    {
      var merged := new Ring();
      var nm := notMerged;
      ghost var emitted: seq<seq<Segment3>> := [];
      while nm != []
        invariant merged.Valid() && fresh(merged)
        invariant emitted + Drain(merged.State(), nm) == Drain(EmptyRing, notMerged)
        invariant polygons == old(polygons) + PolygonsOf(emitted)
        invariant nm == [] ==> merged.segs == []
        decreases |nm|, if merged.segs == [] then 0 else 1
      {
        var rest, out := MergeTurn(merged, nm);
        AppendAssoc(emitted, out, Drain(merged.State(), rest));
        PolygonsOfAppend(emitted, out);
        AppendAssoc(old(polygons), PolygonsOf(emitted), PolygonsOf(out));
        emitted := emitted + out;
        nm := rest;
      }
      assert emitted + [] == emitted;
    }

    /**
      addPolygons, with the count of the other surface read once, so that
      adding a surface to itself doubles it.
    */
    method AddPolygons(other: PolyhedralSurface)
      modifies this
      ensures polygons == old(polygons) + old(other.polygons)
    {
      var n := |other.polygons|;
      for i := 0 to n
        invariant polygons == old(polygons) + old(other.polygons)[..i]
        invariant other == this || other.polygons == old(other.polygons)
      {
        AddPolygon(other.polygons[i]);
      }
      assert old(other.polygons)[..n] == old(other.polygons);
    }
  }

  // ---------------------------------------------------------------------
  // addPolygons as written
  // ---------------------------------------------------------------------

  /**
    The addPolygons loop as written, which compares the index with the
    other surface's count on every turn; aliased says the other surface is
    this one. None when fuel runs out.
  */
  function AddPolygonsAsWritten(mine: seq<Polygon3>, theirs: seq<Polygon3>, aliased: bool, i: nat, fuel: nat): (r: Option<seq<Polygon3>>)
    ensures r.Some? ==> |r.value| >= |mine|
    decreases fuel
  {
    var source := if aliased then mine else theirs;
    if i >= |source| then Some(mine)
    else if fuel == 0 then None
    else AddPolygonsAsWritten(mine + [source[i]], theirs, aliased, i + 1, fuel - 1)
  }

  /** For two distinct surfaces, the loop as written appends the other's polygons from i on. */
  lemma {:induction false} AddPolygonsDistinct(mine: seq<Polygon3>, theirs: seq<Polygon3>, i: nat, fuel: nat)
    requires i <= |theirs| && fuel >= |theirs| - i
    ensures AddPolygonsAsWritten(mine, theirs, false, i, fuel) == Some(mine + theirs[i..])
    decreases fuel
  {
    if i < |theirs| {
      AddPolygonsDistinct(mine + [theirs[i]], theirs, i + 1, fuel - 1);
      assert (mine + [theirs[i]]) + theirs[i + 1..] == mine + theirs[i..];
    } else {
      assert mine + theirs[i..] == mine;
    }
  }

  /** Adding a non-empty surface to itself never ends: each turn adds a polygon to the count it is compared with. */
  lemma {:induction false} AddPolygonsAliasedNeverEnds(mine: seq<Polygon3>, theirs: seq<Polygon3>, i: nat, fuel: nat)
    requires i < |mine|
    ensures AddPolygonsAsWritten(mine, theirs, true, i, fuel) == None
    decreases fuel
  {
    if fuel > 0 {
      AddPolygonsAliasedNeverEnds(mine + [mine[i]], theirs, i + 1, fuel - 1);
    }
  }
}
