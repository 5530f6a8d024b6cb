/**
  The typed primitives a geometry set stores (PrimitiveBase / Primitive<T>
  in the 2D instantiation): a wrapped point, segment, polygon with holes or
  volume, plus an integer of flags that plays no part in ordering.
*/
module Primitives {
  import opened Options
  import opened Kernel

  /** The kind of a primitive. Its tag is the dimension of the primitive. */
  datatype PrimitiveType = PrimitivePoint | PrimitiveSegment | PrimitiveSurface | PrimitiveVolume
  {
    function Tag(): (t: int)
      ensures 0 <= t <= 3
    {
      match this
      case PrimitivePoint => 0
      case PrimitiveSegment => 1
      case PrimitiveSurface => 2
      case PrimitiveVolume => 3
    }
  }

  /** The kind whose tag is t, if there is one. */
  function TypeOfTag(t: int): (r: Option<PrimitiveType>)
    ensures r.Some? <==> 0 <= t <= 3
    ensures r.Some? ==> r.value.Tag() == t
  {
    if t == 0 then Some(PrimitivePoint)
    else if t == 1 then Some(PrimitiveSegment)
    else if t == 2 then Some(PrimitiveSurface)
    else if t == 3 then Some(PrimitiveVolume)
    else None
  }

  /** Tags grow with dimension and tell the kinds apart. */
  lemma TagsOrdered()
    ensures PrimitivePoint.Tag() < PrimitiveSegment.Tag() < PrimitiveSurface.Tag() < PrimitiveVolume.Tag()
    ensures forall k: PrimitiveType, l: PrimitiveType :: k.Tag() == l.Tag() ==> k == l
  {
  }

  /** The one flag in use: a planar volume is rebuilt as a triangle or polygon. */
  const FlagIsPlanar: int := 1

  /** The volume type of the 2D set: nothing can be built from it. */
  datatype NoVolume = NoVolume

  /** The wrapped value of a primitive. */
  datatype Shape =
    | PointShape(point: Point2)
    | SegmentShape(segment: Segment)
    | SurfaceShape(polygon: Polygon)
    | VolumeShape(volume: NoVolume)
  {
    /** Dimension of the wrapped value. */
    function Dimension(): nat
    {
      match this
      case PointShape(_) => 0
      case SegmentShape(_) => 1
      case SurfaceShape(_) => 2
      case VolumeShape(_) => 3
    }
  }

  datatype Primitive = Primitive(shape: Shape, flags: int)
  {
    /** The kind of the primitive, read off the wrapped value. */
    function GetType(): (t: PrimitiveType)
      ensures t.Tag() == shape.Dimension()
    {
      match shape
      case PointShape(_) => PrimitivePoint
      case SegmentShape(_) => PrimitiveSegment
      case SurfaceShape(_) => PrimitiveSurface
      case VolumeShape(_) => PrimitiveVolume
    }

    /** The same primitive with its flags replaced. */
    function SetFlags(f: int): (r: Primitive)
      ensures r.flags == f && r.shape == shape
    {
      this.(flags := f)
    }
  }

  /** A primitive built from a bare value: its flags are 0. */
  function Make(s: Shape): (p: Primitive)
    ensures p.shape == s && p.flags == 0
    ensures p.GetType().Tag() == s.Dimension()
  {
    Primitive(s, 0)
  }

  /**
    The order of a primitive set: the order of the wrapped values (points
    lexicographically, segments by source then target). Flags are not looked
    at; surfaces and volumes are kept in lists and are never compared.
  */
  predicate Less(a: Primitive, b: Primitive)
  {
    match (a.shape, b.shape)
    case (PointShape(p), PointShape(q)) => PointLess(p, q)
    case (SegmentShape(s), SegmentShape(t)) => SegmentLess(s, t)
    case _ => false
  }

  /** Kinds that live in an ordered set. */
  predicate Ordered(k: PrimitiveType)
  {
    k == PrimitivePoint || k == PrimitiveSegment
  }

  lemma LessIgnoresFlags(a: Primitive, b: Primitive, f: int, g: int)
    ensures Less(a.SetFlags(f), b.SetFlags(g)) == Less(a, b)
  {
  }

  /** On points and on segments the order is a strict total order of the wrapped values. */
  lemma LessIsStrictTotal(a: Primitive, b: Primitive, c: Primitive)
    requires a.GetType() == b.GetType() == c.GetType() && Ordered(a.GetType())
    ensures !Less(a, a)
    ensures Less(a, b) ==> !Less(b, a)
    ensures Less(a, b) && Less(b, c) ==> Less(a, c)
    ensures a.shape != b.shape ==> Less(a, b) || Less(b, a)
  {
    match a.shape
    case PointShape(p) =>
      PointLessIsStrictTotal(p, b.shape.point, c.shape.point);
    case SegmentShape(s) =>
      SegmentLessIsStrictTotal(s, b.shape.segment, c.shape.segment);
  }

  /**
    A segment and its reverse are different members of a segment set: each is
    below the other in neither direction only when they are equal.
  */
  lemma ReverseIsDistinctMember(s: Segment, f: int, g: int)
    requires !s.IsDegenerate()
    ensures Less(Primitive(SegmentShape(s), f), Primitive(SegmentShape(s.Opposite()), g))
         || Less(Primitive(SegmentShape(s.Opposite()), g), Primitive(SegmentShape(s), f))
  {
    PointLessIsStrictTotal(s.source, s.target, s.target);
  }

  /**
    Bounding box of a primitive: the point, the segment's extent, the outer
    ring of a polygon. A 2D volume has no extent.
  */
  function BoxOf(p: Primitive): (r: Option<Box>)
    ensures p.shape.PointShape? || p.shape.SegmentShape? ==> r.Some?
    ensures p.shape.SurfaceShape? ==> (r.Some? <==> |p.shape.polygon.outer| > 0)
  {
    match p.shape
    case PointShape(q) => Some(PointBox(q))
    case SegmentShape(s) => Some(SegmentBox(s))
    case SurfaceShape(poly) => RingBox(poly.outer)
    case VolumeShape(_) => None
  }
}
