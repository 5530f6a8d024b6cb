/**
  The structured geometries a geometry set is built from and rebuilt into
  (Point, LineString, Triangle, Polygon, TriangulatedSurface,
  PolyhedralSurface, Solid and the collections), reduced to what
  decomposition and recomposition look at.
*/
module Geometries {
  import opened Options
  import opened Kernel

  datatype Triangle2 = Triangle2(a: Point2, b: Point2, c: Point2)

  datatype GeometryType =
    | TypePoint | TypeLineString | TypePolygon | TypeTriangle | TypeSolid
    | TypeTriangulatedSurface | TypePolyhedralSurface
    | TypeMultiPoint | TypeMultiLineString | TypeMultiPolygon | TypeMultiSolid
    | TypeGeometryCollection

  /** The collection classes; each derives from GeometryCollection. */
  datatype CollectionKind = MultiPoint | MultiLineString | MultiPolygon | MultiSolid | GeometryCollection

  /**
    A polygon is held in the kernel's form: rings without a repeated closing
    vertex. A solid is reduced to its exterior shell.
  */
  datatype Geometry =
    | PointGeom(coordinates: Option<Point2>)
    | LineStringGeom(points: seq<Point2>)
    | TriangleGeom(triangle: Option<Triangle2>)
    | PolygonGeom(polygon: Polygon)
    | TriangulatedSurfaceGeom(triangles: seq<Triangle2>)
    | PolyhedralSurfaceGeom(polygons: seq<Polygon>)
    | SolidGeom(shell: seq<Polygon>)
    | CollectionGeom(kind: CollectionKind, members: seq<Geometry>)
  {
    predicate IsEmpty()
    {
      match this
      case PointGeom(c) => c.None?
      case LineStringGeom(pts) => pts == []
      case TriangleGeom(t) => t.None?
      case PolygonGeom(p) => p.outer == []
      case TriangulatedSurfaceGeom(ts) => ts == []
      case PolyhedralSurfaceGeom(ps) => ps == []
      case SolidGeom(shell) => shell == []
      case CollectionGeom(_, ms) => ms == []
    }

    function TypeId(): GeometryType
    {
      match this
      case PointGeom(_) => TypePoint
      case LineStringGeom(_) => TypeLineString
      case TriangleGeom(_) => TypeTriangle
      case PolygonGeom(_) => TypePolygon
      case TriangulatedSurfaceGeom(_) => TypeTriangulatedSurface
      case PolyhedralSurfaceGeom(_) => TypePolyhedralSurface
      case SolidGeom(_) => TypeSolid
      case CollectionGeom(k, _) =>
        match k
        case MultiPoint => TypeMultiPoint
        case MultiLineString => TypeMultiLineString
        case MultiPolygon => TypeMultiPolygon
        case MultiSolid => TypeMultiSolid
        case GeometryCollection => TypeGeometryCollection
    }
  }
}
