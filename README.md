# SFCGAL set algebra: a Dafny model

This project models the core of SFCGAL's 2D set algebra over typed
geometric primitives, and proves properties of it.

- **`GeometrySet`.** A container with four collections, one per primitive kind:
  - points and segments are ordered sets without duplicates;
  - surfaces and volumes are lists that keep duplicates.

  The model covers the decomposition of geometries into primitives, typed insertion, the iterators, bounding-box export, point collection, the covered filter, and `recompose`, which turns a set back into a geometry.
- **The pairwise predicates.** `intersects` and `intersectionDimension` on primitives and on whole sets.
- **Boolean difference.** `point_position`, segment-minus-segment splitting, `difference_primitive`, the self-intersection filter, and the outer loop of `difference`.
- **Facet merging in `PolyhedralSurface`.** A `Ring` is a list of segments with an insertion cursor. The simplifying constructor grafts the facets of one plane together and emits one polygon per merged ring.

Coordinates are exact reals, as the code's `==` on coordinates and its
division of kernel numbers assume. Code that changes state is written as
classes and methods: `GeometrySet`, `Ring` and `PolyhedralSurface`, plus the
loops of `intersects`, `intersectionDimension`, `difference` and the filter.
Each method is proved against a function on values (`GSet`, `RingState`,
`Drain`, `DifferenceOf`, ...). The properties the code promises are lemmas
about those functions.

Modules:
- `Options`: the `Option` type.
- `Kernel`: points, segments and polygons; the exact orientation, point-on-segment and segment-intersection tests; bounded side; boxes.
- `Primitives`: primitive kinds, their tags, flags and order.
- `Geometries`: the geometry values handed to and built by the set.
- `GeometrySets`: the set as a value (`GSet`) and as a class (`GeometrySet`).
- `IntersectsAlgorithm`: `intersects`.
- `Dimensions`: `intersectionDimension`.
- `BoxFilter`: the box stage of the set-level predicates loses no hit.
- `Recomposition`: `recompose`.
- `Difference`: `difference`.
- `PolyhedralSurfaces`: `Ring` and the facet-merging constructor.

## Model

| member | source | states |
|---|---|---|
| Kernel.PointLessIsStrictTotal | include/SFCGAL/GeometrySet.h:181-184 | the key order of the point set is a strict total order: irreflexive, transitive, total on distinct points, asymmetric |
| Kernel.SegmentLessIsStrictTotal | src/SFCGAL/GeometrySet.cpp:44-50 | segment order (by source, then by target) is a strict total order |
| Kernel.DoIntersectOpposite | src/SFCGAL/algorithm/intersects.cpp:66-70 | the segment intersection test ignores the direction of either segment and the order of the arguments |
| Kernel.Edges | src/SFCGAL/algorithm/intersects.cpp:115-116 | a ring of n vertices has n edges, edge i running from vertex i to vertex i+1, the last one closing back to vertex 0 |
| Kernel.RingBox | src/SFCGAL/algorithm/intersects.cpp:173-177 | a ring has an envelope exactly when it has a vertex |
| Primitives.PrimitiveType.Tag | include/SFCGAL/GeometrySet.h:45-51 | the tag of a kind lies in 0..3 |
| Primitives.TypeOfTag | include/SFCGAL/GeometrySet.h:45-51 | exactly the tags 0..3 name a kind, and the kind named by t has tag t |
| Primitives.TagsOrdered | include/SFCGAL/GeometrySet.h:45-51 | Point < Segment < Surface < Volume, and different kinds have different tags |
| Primitives.Primitive.GetType | include/SFCGAL/GeometrySet.h:108-110 | the kind's tag is the dimension of the wrapped value |
| Primitives.Primitive.SetFlags | include/SFCGAL/GeometrySet.h:77-78 | after setFlags(f) the flags read f and the wrapped value is unchanged |
| Primitives.Make | include/SFCGAL/GeometrySet.h:100-102 | a primitive built from a bare value has flags 0 and the kind of its value |
| Primitives.LessIgnoresFlags | include/SFCGAL/GeometrySet.h:104-106 | primitive order does not depend on flags |
| Primitives.LessIsStrictTotal | include/SFCGAL/GeometrySet.h:104-106 | on points and on segments, primitive order is a strict total order of the wrapped values |
| Primitives.ReverseIsDistinctMember | src/SFCGAL/GeometrySet.cpp:44-50 | a segment and its reverse are different keys, ordered by their sources |
| Primitives.BoxOf | src/SFCGAL/GeometrySet.cpp:331-335 | points and segments always have a box; a surface has one exactly when its outer ring is non-empty |
| GeometrySets.SetInsert | include/SFCGAL/GeometrySet.h:181-184 | std::set insertion: the result is sorted and holds the old keys plus x's; if x's key is present, nothing changes; otherwise one element is added |
| GeometrySets.SetInsertSplit | include/SFCGAL/GeometrySet.h:181-184 | a new key is placed after the smaller keys and before the larger ones |
| GeometrySets.GSet.MaximumDimension | src/SFCGAL/algorithm/intersectionDimension.cpp:88-93 | -1 exactly for an empty set; otherwise the largest tag of any primitive, and some primitive has it |
| GeometrySets.Add | src/SFCGAL/GeometrySet.cpp:148-166 | adding p changes only p's collection: points and segments gain p's key, and a new key stores p itself, flags included; surfaces and volumes get p appended; nothing present is lost |
| GeometrySets.AddPresentKeyIsNoOp | include/SFCGAL/GeometrySet.h:181-184 | inserting a point or segment whose key is present leaves the set unchanged |
| GeometrySets.AddSurfaceTwiceKeepsBoth | include/SFCGAL/GeometrySet.h:185-186 | a surface added twice is stored twice |
| GeometrySets.AddAllAppend | include/SFCGAL/GeometrySet.h:235-274 | adding xs then ys is adding xs + ys |
| GeometrySets.AddAllContents | include/SFCGAL/GeometrySet.h:235-274 | after adding a range: the point and segment keys are old ∪ range; the surfaces and volumes are old + those of the range, in order |
| GeometrySets.AddAllOfOneKind | src/SFCGAL/GeometrySet.cpp:148-166 | a range of one kind leaves the other collections unchanged |
| GeometrySets.AddAllOwnPrimitives | src/SFCGAL/GeometrySet.cpp:148-166 | a valid set with flags 0 is rebuilt by adding its own primitives, in iteration order, to an empty set |
| GeometrySets.AddRunRebuilds | src/SFCGAL/GeometrySet.cpp:148-166 | adding a run of one kind (sorted, for points and segments) to a set with no primitive of that kind makes the run exactly that kind's collection |
| GeometrySets.TrianglePolygon | src/SFCGAL/GeometrySet.cpp:62-72 | a 2D triangle becomes a hole-free, three-vertex, not-clockwise polygon with the same first vertex and the same other two |
| GeometrySets.LineSegments | src/SFCGAL/GeometrySet.cpp:290-298 | a line string of n > 0 points gives n-1 segments |
| GeometrySets.Decomposition | src/SFCGAL/GeometrySet.cpp:273-329 | decomposition keeps the set valid and does not touch `complete` |
| GeometrySets.DecomposeAddsNothing | src/SFCGAL/GeometrySet.cpp:273-329 | an empty geometry, or a 2D solid, adds nothing |
| GeometrySets.DecomposeLineString | src/SFCGAL/GeometrySet.cpp:290-298 | a line string adds exactly the segment keys pointN(i)->pointN(i+1) and nothing else |
| GeometrySets.LineSegmentKeys | src/SFCGAL/GeometrySet.cpp:290-298 | the keys of a line string's segments are the steps between consecutive points |
| GeometrySets.DecomposeTriangle | src/SFCGAL/GeometrySet.cpp:62-72 | a 2D triangle appends one hole-free, not-clockwise surface with flags 0 |
| GeometrySets.Begin | src/SFCGAL/GeometrySet.cpp:782-814 | primitives_begin gives a position within the collections |
| GeometrySets.Increment | src/SFCGAL/GeometrySet.cpp:714-733 | increment keeps the position in range and, before the end, shortens the remaining walk by one |
| GeometrySets.WalkVisits | src/SFCGAL/GeometrySet.cpp:714-780 | from any position, the iterator visits the rest of the points, then the segments, surfaces and volumes |
| GeometrySets.BeginVisitsSelection | src/SFCGAL/GeometrySet.cpp:782-857 | primitives_begin(sel) up to primitives_end visits exactly the selection: -1 all, 0..2 one kind, anything else the volumes |
| GeometrySets.SelectionIsKind | src/SFCGAL/GeometrySet.cpp:782-814 | selecting kind k in a valid set yields its primitives of kind k, in order |
| GeometrySets.CollectedPoints | src/SFCGAL/GeometrySet.cpp:573-640 | collecting the points of p adds exactly one point key per vertex of p |
| GeometrySets.FilterFrom | src/SFCGAL/GeometrySet.cpp:642-670 | _filter_covered keeps the output valid |
| GeometrySets.FilterCoveredSpec | src/SFCGAL/GeometrySet.cpp:672-679 | filterCovered keeps the output valid |
| GeometrySets.FilterFromNothingCovered | src/SFCGAL/GeometrySet.cpp:642-670 | when nothing covers anything, every element is kept, in order |
| GeometrySets.FilterCoveredKeepsAllWhenNothingCovers | src/SFCGAL/GeometrySet.cpp:672-679 | when nothing covers anything, the output gains the volumes, then the surfaces, segments and points |
| GeometrySets.GeometrySet.constructor | src/SFCGAL/GeometrySet.cpp:107-110 | a new set is empty |
| GeometrySets.GeometrySet.FromGeometry | src/SFCGAL/GeometrySet.cpp:112-116 | the set of a geometry is its decomposition |
| GeometrySets.GeometrySet.FromPrimitive | src/SFCGAL/GeometrySet.cpp:118-140 | the set of one primitive holds just that primitive |
| GeometrySets.GeometrySet.AddGeometry | src/SFCGAL/GeometrySet.cpp:142-146 | addGeometry adds the decomposition of the geometry |
| GeometrySets.GeometrySet.AddPrimitive | src/SFCGAL/GeometrySet.cpp:249-271 | the typed overloads add the primitive with its flags |
| GeometrySets.GeometrySet.AddPrimitiveBase | src/SFCGAL/GeometrySet.cpp:148-166 | addPrimitive(PrimitiveBase) adds the wrapped value with its flags cleared |
| GeometrySets.GeometrySet.AddPoints | include/SFCGAL/GeometrySet.h:235-239 | the point keys become old ∪ range; the other collections are unchanged |
| GeometrySets.GeometrySet.AddSegments | include/SFCGAL/GeometrySet.h:250-254 | the segment keys become old ∪ range; the other collections are unchanged |
| GeometrySets.GeometrySet.AddSurfaces | include/SFCGAL/GeometrySet.h:260-264 | the surfaces become old + range, duplicates kept; the rest is unchanged |
| GeometrySets.GeometrySet.AddVolumes | include/SFCGAL/GeometrySet.h:270-274 | the volumes become old + range, duplicates kept; the rest is unchanged |
| GeometrySets.GeometrySet.AddRange | src/SFCGAL/GeometrySet.cpp:148-166 | adding a range one primitive at a time leaves the set that adding the whole range gives, each primitive going to its kind's collection |
| GeometrySets.GeometrySet.AddObject | src/SFCGAL/GeometrySet.cpp:205-247 | addPrimitive(Object, pointsAsRing) adds the primitives the object carries |
| GeometrySets.GeometrySet.Decompose | src/SFCGAL/GeometrySet.cpp:273-329 | _decompose leaves the set equal to the decomposition of the geometry |
| GeometrySets.GeometrySet.DecomposeTriangles | src/SFCGAL/GeometrySet.cpp:307-313 | a triangulated surface adds the polygon of each triangle, in order |
| GeometrySets.GeometrySet.DecomposePolygons | src/SFCGAL/GeometrySet.cpp:314-320 | a polyhedral surface adds each of its polygons, in order |
| GeometrySets.GeometrySet.ComputeBoundingBoxes | src/SFCGAL/GeometrySet.cpp:348-376 | the handles grow by every primitive in iteration order; the boxes are cleared and refilled with one box per primitive, each naming its handle |
| GeometrySets.GeometrySet.CollectPoints | src/SFCGAL/GeometrySet.cpp:612-640 | collectPoints adds every vertex of the primitive as a point with flags 0 |
| GeometrySets.GeometrySet.InsertVertices | src/SFCGAL/GeometrySet.cpp:621-633 | inserting vertices one by one adds their points to the point set, as adding the whole run would |
| GeometrySets.GeometrySet.InsertHoleVertices | src/SFCGAL/GeometrySet.cpp:631-633 | after the outer ring, the points of every hole are added, hole after hole |
| GeometrySets.GeometrySet.Insert | src/SFCGAL/GeometrySet.cpp:868-886 | insert adds value to its kind's collection and returns a position that still names the same elements |
| GeometrySets.GeometrySet.InsertKeyed | src/SFCGAL/GeometrySet.cpp:872-877 | a point or segment enters its sorted set as std::set insertion does, a present key changing nothing; the other collections are unchanged and the returned position still names the element it named |
| GeometrySets.GeometrySet.InsertListed | src/SFCGAL/GeometrySet.cpp:878-883 | a surface or volume is spliced into its list just before the given position; the other collections are unchanged and the returned position still names the element it named |
| GeometrySets.GeometrySet.FilterCovered | src/SFCGAL/GeometrySet.cpp:672-679 | filterCovered leaves the output equal to the filter's specification |
| GeometrySets.SetPosition | src/SFCGAL/GeometrySet.cpp:868-886 | after a set insertion, an element's new index still holds it, and the end stays the end |
| GeometrySets.GeometrySet.FilterRange | src/SFCGAL/GeometrySet.cpp:642-670 | the loop of _filter_covered computes its specification |
| GeometrySets.IsCoveredLater | src/SFCGAL/GeometrySet.cpp:646-660 | the inner scan answers true exactly when some primitive after position i covers the one at i |
| IntersectsAlgorithm.EdgePrimitives | src/SFCGAL/algorithm/intersects.cpp:110-116 | addSegments wraps each edge with flags 0, one primitive per edge |
| IntersectsAlgorithm.AllRings | src/SFCGAL/algorithm/intersects.cpp:151-165 | the rings of a polygon are the outer ring, then each hole |
| IntersectsAlgorithm.Intersects | src/SFCGAL/algorithm/intersects.cpp:290-308 | a pair involving a volume never meets in 2D |
| IntersectsAlgorithm.PointAndSegmentCases | src/SFCGAL/algorithm/intersects.cpp:47-60 | two points meet iff they are equal; a point and a segment meet iff the point is on the segment, in either order |
| IntersectsAlgorithm.PolygonPointCases | src/SFCGAL/algorithm/intersects.cpp:75-97 | polygon and point, in either order: on the outer boundary, true; outside it, false; inside it, true iff in no hole |
| IntersectsAlgorithm.VolumeMeetsNothing | src/SFCGAL/algorithm/intersects.cpp:209 | a volume meets nothing in 2D, in either order |
| IntersectsAlgorithm.SegmentSetsMeetEdges | src/SFCGAL/algorithm/intersects.cpp:110-121 | the set-level test on two fresh edge sets holds iff some pair of edges has overlapping boxes and intersects |
| IntersectsAlgorithm.SegmentSetsMeetIsAnyPair | src/SFCGAL/algorithm/intersects.cpp:324-342 | on sets of segments alone, the general set-level predicate is the edge-pair test |
| IntersectsAlgorithm.SegmentPairIntersects | src/SFCGAL/algorithm/intersects.cpp:66-70 | two segments meet iff do_intersect says so |
| IntersectsAlgorithm.PolygonSegmentByEdges | src/SFCGAL/algorithm/intersects.cpp:103-138 | polygon and segment meet iff an edge of some ring meets the segment, or else the polygon holds the segment's source |
| IntersectsAlgorithm.SegmentSetsMeetSymmetric | src/SFCGAL/algorithm/intersects.cpp:168 | whether two edge sets meet does not depend on their order |
| IntersectsAlgorithm.MutualContainment | src/SFCGAL/algorithm/intersects.cpp:180-194 | two envelopes that contain each other are equal |
| IntersectsAlgorithm.PolygonsMeetSymmetric | src/SFCGAL/algorithm/intersects.cpp:148-208 | polygon/polygon is symmetric whenever the outer envelopes differ |
| IntersectsAlgorithm.IntersectsSymmetric | src/SFCGAL/algorithm/intersects.cpp:290-300 | dispatch makes intersects symmetric, except for two surfaces with equal envelopes |
| IntersectsAlgorithm.BoxesOverlapOnPointHits | src/SFCGAL/algorithm/intersects.cpp:47-60 | the box stage loses no point hit: a point on a segment, or two equal points, have overlapping boxes |
| IntersectsAlgorithm.EmptySideMeetsNothing | src/SFCGAL/algorithm/intersects.cpp:324-342 | an empty side gives false |
| IntersectsAlgorithm.IntersectsSets | src/SFCGAL/algorithm/intersects.cpp:324-342 | the result is true iff some pair (pa in a, pb in b) has overlapping boxes and intersects |
| IntersectsAlgorithm.BoxPairsHit | src/SFCGAL/algorithm/intersects.cpp:332-341 | the pair loop with early exit answers whether some pair hits |
| IntersectsAlgorithm.RowHits | src/SFCGAL/algorithm/intersects.cpp:313-322 | one row of the loop finds a hit, or shows that no pair in the row hits |
| IntersectsAlgorithm.IntersectsGeometries | src/SFCGAL/algorithm/intersects.cpp:347-353 | intersects(ga, gb) is the set-level test on the two decompositions |
| BoxFilter.DoIntersectOverlap | src/SFCGAL/algorithm/intersects.cpp:66-70 | two segments that intersect have overlapping boxes, a proper crossing included |
| BoxFilter.PolygonHasPointInBox | src/SFCGAL/algorithm/intersects.cpp:74-96 | a point the polygon holds lies in the envelope of its outer ring: on an edge, or inside by an odd crossing count, which a closed ring cannot have from outside its box |
| BoxFilter.RingSignChangesEven | src/SFCGAL/algorithm/intersects.cpp:80 | the edges of a closed ring cross any horizontal line an even number of times |
| BoxFilter.PolygonSegmentOverlap | src/SFCGAL/algorithm/intersects.cpp:103-138 | a polygon with boxed holes that meets a segment has an envelope overlapping the segment's box |
| BoxFilter.PolygonsOverlap | src/SFCGAL/algorithm/intersects.cpp:144-210 | two polygons with boxed holes that meet have overlapping envelopes |
| BoxFilter.IntersectsOverlap | src/SFCGAL/algorithm/intersects.cpp:291-308 | two primitives that intersect have overlapping boxes, surfaces' holes lying within their outer envelopes |
| BoxFilter.AnyPairIsPairwise | src/SFCGAL/algorithm/intersects.cpp:325-342 | intersects on two sets holds exactly when some pair of their primitives intersects, boxes or not |
| BoxFilter.SetDimensionIsPairwise | src/SFCGAL/algorithm/intersectionDimension.cpp:88-104 | on sets that are not complete, intersectionDimension is the largest dimension over all pairs, and -1 when none meets |
| Dimensions.SegmentPairDimensionAsWritten | src/SFCGAL/algorithm/intersectionDimension.cpp:47-62 | the segment rule as written answers 0 or 1, and 1 only for intersecting segments |
| Dimensions.SegmentPairDimension | src/SFCGAL/algorithm/intersectionDimension.cpp:47-62 | the corrected rule answers 1 exactly when two different points lie on both segments, so partial overlaps give 1 and touching segments 0 |
| Dimensions.CorrectedNeverRaises | src/SFCGAL/algorithm/intersectionDimension.cpp:47-62 | the corrected rule never answers more than the rule as written |
| Dimensions.OverlapIsOneDimensional | src/SFCGAL/algorithm/intersectionDimension.cpp:47-62 | two segments sharing two different end points have dimension 1 under both rules |
| Dimensions.TouchingSegmentsCountAsOverlap | src/SFCGAL/algorithm/intersectionDimension.cpp:47-62 | a T-junction (one segment ends on the other's interior) gets 1 from the rule as written |
| Dimensions.TouchingSegmentsMeetOnce | src/SFCGAL/algorithm/intersectionDimension.cpp:47-62 | in that T-junction the segments share exactly one point |
| Dimensions.TouchingSegmentsCorrected | src/SFCGAL/algorithm/intersectionDimension.cpp:47-62 | the corrected rule gives the T-junction 0 |
| Dimensions.IntersectionDimension | src/SFCGAL/algorithm/intersectionDimension.cpp:31-68 | the result lies in -1..3; -1 for disjoint primitives; 0 when a point is involved; for two segments, the corrected segment rule of Findings (a T-junction gives 0 where the code gives 1) |
| Dimensions.IntersectionDimensionSymmetric | src/SFCGAL/algorithm/intersectionDimension.cpp:34-37 | swapping the arguments does not change the result |
| Dimensions.SegmentPairDimensionSymmetric | src/SFCGAL/algorithm/intersectionDimension.cpp:47-62 | the corrected segment rule is symmetric |
| Dimensions.MinusOneIffDisjoint | src/SFCGAL/algorithm/intersectionDimension.cpp:39-41 | the result is -1 iff the primitives do not intersect |
| Dimensions.IntersectsSymmetricAcrossKinds | src/SFCGAL/algorithm/intersectionDimension.cpp:34-37 | pairs of different kinds meet the same way in either order |
| Dimensions.RowMaxBounds | src/SFCGAL/algorithm/intersectionDimension.cpp:70-83 | the callback's maximum over a row bounds every box-overlapping pair of the row, and is reached by one of them or is the start value |
| Dimensions.PairsMaxIsMaximum | src/SFCGAL/algorithm/intersectionDimension.cpp:70-83 | the maximum over all pairs bounds every reported pair, and is -1 or reached by one of them |
| Dimensions.SetDimension | src/SFCGAL/algorithm/intersectionDimension.cpp:85-104 | a complete a gives b's maximum dimension; otherwise a complete b gives a's; otherwise the maximum of IntersectionDimension over the box-overlapping pairs, so segment pairs follow the corrected rule of Findings |
| Dimensions.NoOverlapGivesMinusOne | src/SFCGAL/algorithm/intersectionDimension.cpp:94-103 | without complete sets and without an overlapping pair of boxes, the result is -1 |
| Dimensions.MaxOverPairs | src/SFCGAL/algorithm/intersectionDimension.cpp:70-83 | the callback over every pair of boxes ends with the maximum over the pairs |
| Dimensions.IntersectionDimensionOfSets | src/SFCGAL/algorithm/intersectionDimension.cpp:85-104 | the set-level result is SetDimension, whose segment pairs follow the corrected rule of Findings |
| Dimensions.IntersectionDimensionOfGeometries | src/SFCGAL/algorithm/intersectionDimension.cpp:109-115 | intersectionDimension(ga, gb) is the set-level result on the two decompositions, with segment pairs under the corrected rule of Findings |
| Recomposition.PointParts | src/SFCGAL/GeometrySet.cpp:378-393 | one Point per point, in set order |
| Recomposition.RecomposePoints | src/SFCGAL/GeometrySet.cpp:378-393 | recompose_points produces PointParts |
| Recomposition.Chains | src/SFCGAL/GeometrySet.cpp:396-425 | there are runs iff there are segments; each run has at least two points; the first run starts at the first source and the last run ends at the last target |
| Recomposition.ChainsRoundTrip | src/SFCGAL/GeometrySet.cpp:396-425 | reading the runs back as segments gives the input, in order |
| Recomposition.ChainsAreMaximal | src/SFCGAL/GeometrySet.cpp:396-425 | a run of k segments has k+1 points, and consecutive runs never join |
| Recomposition.LineParts | src/SFCGAL/GeometrySet.cpp:396-425 | one LineString per run |
| Recomposition.RecomposeSegments | src/SFCGAL/GeometrySet.cpp:396-425 | recompose_segments produces the LineStrings of the runs |
| Recomposition.WalkSegment | src/SFCGAL/GeometrySet.cpp:412-422 | after each turn of the segment loop, the closed line strings are those of all chains of the segments seen but the last, the open run is the last chain, and lastSeg is the segment just walked |
| Recomposition.SurfaceParts | src/SFCGAL/GeometrySet.cpp:427-442 | one part per surface |
| Recomposition.RecomposeSurfaces | src/SFCGAL/GeometrySet.cpp:427-442 | recompose_surfaces produces SurfaceParts |
| Recomposition.SurfaceRoundTrip | src/SFCGAL/GeometrySet.cpp:427-442 | decomposing a rebuilt surface gives back the surface, with a clockwise triangle turned round |
| Recomposition.RecomposeAsWritten | src/SFCGAL/GeometrySet.cpp:524-571 | (see Findings) recompose as written |
| Recomposition.RecomposedAgreesWhereDefined | src/SFCGAL/GeometrySet.cpp:549-566 | the corrected recompose agrees with the code wherever the code sets a result; the code leaves it unset exactly for two or more parts that share a type without a Multi class |
| Recomposition.TwoTrianglesLeaveResultUnset | src/SFCGAL/GeometrySet.cpp:549-563 | two separate triangles leave the result unset |
| Recomposition.RecomposeEmpty | src/SFCGAL/GeometrySet.cpp:534-536 | an empty set gives an empty GeometryCollection |
| Recomposition.RecomposeMixed | src/SFCGAL/GeometrySet.cpp:564-569 | parts of different types give a GeometryCollection of the parts |
| Recomposition.RecomposePointsOnly | src/SFCGAL/GeometrySet.cpp:549-570 | several points and nothing else give a MultiPoint of the points in set order |
| Recomposition.DecomposeRecomposed | src/SFCGAL/GeometrySet.cpp:524-571 | decomposing a recomposed set decomposes its parts in turn, whatever collection holds them |
| Recomposition.LinePartsDecompose | src/SFCGAL/GeometrySet.cpp:290-298 | decomposing the line strings of the runs adds the runs' segments in order |
| Recomposition.SegmentsRoundTrip | src/SFCGAL/GeometrySet.cpp:396-425 | a segment-only set with flags 0 survives recompose then decompose |
| Recomposition.SegmentChainsRoundTrip | src/SFCGAL/GeometrySet.cpp:396-425 | decomposing the line strings recompose builds from a segment set gives back exactly that segment set |
| Recomposition.SegmentsRebuilt | src/SFCGAL/GeometrySet.cpp:396-425 | adding the segments of a segment set with flags 0, one by one, to an empty set gives back exactly that segment set |
| Recomposition.PointPartsDecompose | src/SFCGAL/GeometrySet.cpp:378-393 | decomposing the Points of a point set adds the points |
| Recomposition.PointsRoundTrip | src/SFCGAL/GeometrySet.cpp:378-393 | a point-only set with flags 0 survives recompose then decompose |
| Recomposition.HasCommonType | src/SFCGAL/GeometrySet.cpp:541-548 | the common-type scan answers true iff all parts share the first part's type |
| Recomposition.Recompose | src/SFCGAL/GeometrySet.cpp:524-571 | recompose produces the corrected Recomposed value |
| Recomposition.Gather | src/SFCGAL/GeometrySet.cpp:534-570 | no parts give an empty GeometryCollection, one part is returned as it is, parts of one type with a Multi class go in that Multi collection, anything else in a GeometryCollection |
| Lines.PointPosition | src/SFCGAL/algorithm/difference.cpp:37-48 | the position is 0 at the segment's source and 1 at its target |
| Lines.PositionOfPointAt | src/SFCGAL/algorithm/difference.cpp:37-48 | measuring the point at parameter t gives t back |
| Lines.PointAtPosition | src/SFCGAL/algorithm/difference.cpp:37-48 | a point on the segment's line is the point at its own position |
| Lines.SamePositionSamePoint | src/SFCGAL/algorithm/difference.cpp:37-48 | on the segment's line, the position tells points apart |
| Difference.SegmentPieces | src/SFCGAL/algorithm/difference.cpp:54-74 | at most two pieces; each keeps the source or the target of s |
| Difference.PiecesReversed | src/SFCGAL/algorithm/difference.cpp:63-66 | subtracting the reversed segment gives the same pieces |
| Difference.PiecesEmptyIffCovered | src/SFCGAL/algorithm/difference.cpp:68-73 | nothing is left iff t covers both ends of s |
| Difference.PiecesArePiecesAt | src/SFCGAL/algorithm/difference.cpp:61-73 | the pieces are those cut at the sorted positions of t's ends |
| Difference.PiecesCoverTheRest | src/SFCGAL/algorithm/difference.cpp:68-73 | every point of s that is not on t lies on some piece |
| Difference.PiecesAvoidT | src/SFCGAL/algorithm/difference.cpp:68-73 | no interior point of t lies on a piece |
| Difference.SegmentRemainder | src/SFCGAL/algorithm/difference.cpp:50-78 | substract_from_segment yields only segments with flags 0 |
| Difference.SurfaceRemainder | src/SFCGAL/algorithm/difference.cpp:80-91 | yields only surfaces with flags 0, and the surface itself against a non-surface |
| Difference.SegmentResultsOnLine | src/SFCGAL/algorithm/difference.cpp:124-131 | the segments of the intersection of a segment lie on that segment's line |
| Difference.Remainder | src/SFCGAL/algorithm/difference.cpp:116-140 | a point or a volume leaves nothing; a segment leaves segments, and itself when the intersection holds no segment; a surface leaves surfaces |
| Difference.RemainderOfOneSegment | src/SFCGAL/algorithm/difference.cpp:123-136 | an intersection of one segment splits pa by that segment alone |
| Difference.InnerSegmentLeavesTwoPieces | test/unit/SFCGAL/algorithm/DifferenceTest.cpp:77-89 | LINESTRING(0 0,1 0) minus (0.5 0,0.7 0), in either direction, leaves (0 0,0.5 0) and (0.7 0,1 0) |
| Difference.OverlapAtSourceLeavesTail | test/unit/SFCGAL/algorithm/DifferenceTest.cpp:97-103 | LINESTRING(0 0,1 0) minus (-1 0,0.7 0) leaves (0.7 0,1 0) |
| Difference.CoveredSegmentVanishes | test/unit/SFCGAL/algorithm/DifferenceTest.cpp:104-110 | a segment whose intersection is the whole segment leaves nothing |
| Difference.SubtractFromSegment | src/SFCGAL/algorithm/difference.cpp:50-78 | substract_from_segment adds SegmentRemainder to the output |
| Difference.SubtractSegment | src/SFCGAL/algorithm/difference.cpp:55-74 | a segment minus a segment on it adds exactly the pieces before and after the covered stretch, whichever way round the second segment runs |
| Difference.SubtractFromSegmentAll | src/SFCGAL/algorithm/difference.cpp:126-132 | subtracting each segment of the intersection in turn adds the remainders against each of them, in order |
| Difference.SubtractFromSurface | src/SFCGAL/algorithm/difference.cpp:80-91 | substract_from_surface adds SurfaceRemainder to the output |
| Difference.DifferencePrimitive | src/SFCGAL/algorithm/difference.cpp:116-140 | difference_primitive adds Remainder to the output |
| Difference.FirstHit | src/SFCGAL/algorithm/difference.cpp:161-178 | finds the first later live handle that passes the box-and-intersects test, and none before it passes |
| Difference.StepShrinks | src/SFCGAL/algorithm/difference.cpp:158-184 | with a fresh temp set, a turn that pushes at most one piece lowers (turns left + live handles) |
| Difference.PassTurn | src/SFCGAL/algorithm/difference.cpp:158-184 | a turn pushing at most one piece leaves the rest of the pass unchanged and lowers the measure; a turn pushing more spends one unit of fuel, and the pass fails when none is left |
| Difference.PassEnds | src/SFCGAL/algorithm/difference.cpp:146-184 | when every intersection of two primitives of kind k holds at most one primitive of kind k, the pass ends, whatever the fuel |
| Difference.FilterAsWritten | src/SFCGAL/algorithm/difference.cpp:142-186 | (see Findings) the pass as written, with a shared temp set |
| Difference.PassKeepsOtherKinds | src/SFCGAL/algorithm/difference.cpp:158-184 | a pass for kind k that ends changes only the output's kind-k collection |
| Difference.FilterKindsStayNone | src/SFCGAL/algorithm/difference.cpp:144-185 | once one kind's pass fails, the filter fails |
| Difference.FilterEnds | src/SFCGAL/algorithm/difference.cpp:142-186 | when each kind's intersections hold at most one piece of that kind, the filter ends, whatever the fuel |
| Difference.FilterKeepsVolumes | src/SFCGAL/algorithm/difference.cpp:145 | a filter that ends never emits a volume |
| Difference.PassWithoutHits | src/SFCGAL/algorithm/difference.cpp:158-184 | when no two handles meet, a pass emits every primitive, in order |
| Difference.FilteredWithoutHits | src/SFCGAL/algorithm/difference.cpp:142-186 | when no two primitives of a kind meet, the filter ends, whatever the fuel, and emits all of them: points, then segments, then surfaces |
| Difference.FindHit | src/SFCGAL/algorithm/difference.cpp:161-178 | the inner loop over j finds FirstHit |
| Difference.TurnKeepsPass | src/SFCGAL/algorithm/difference.cpp:158-184 | after one turn the rest of the pass still computes the same result, with one unit of fuel less exactly when the turn pushed more than one piece |
| Difference.FilterKind | src/SFCGAL/algorithm/difference.cpp:146-184 | one kind's pass reports whether FilterPass ends within the fuel, and when it does leaves the output equal to its result |
| Difference.FilterTurn | src/SFCGAL/algorithm/difference.cpp:158-184 | one turn of the filter clears a null or emitted handle, or replaces the first hit by the pair's pieces, exactly as one Step of the pass |
| Difference.PushPieces | src/SFCGAL/algorithm/difference.cpp:168-173 | the pieces of kind k are appended to the handle table in order |
| Difference.FilterSelfIntersection | src/SFCGAL/algorithm/difference.cpp:142-186 | the filter reports whether Filtered (three passes) ends within the fuel, and when it does leaves the output equal to its result |
| Difference.RowOut | src/SFCGAL/algorithm/difference.cpp:198-209 | tempOut is empty when nothing in b meets pa, and when pa is a point; a segment leaves only segments |
| Difference.RowOutSnoc | src/SFCGAL/algorithm/difference.cpp:199-208 | one more primitive of b that meets segment pa adds its remainder to tempOut |
| Difference.RowOutPair | src/SFCGAL/algorithm/difference.cpp:199-208 | a segment against two primitives that both meet it collects the two remainders in turn |
| Difference.Rows | src/SFCGAL/algorithm/difference.cpp:196-215 | an outer loop that ends never changes the output's volumes |
| Difference.RowsSnoc | src/SFCGAL/algorithm/difference.cpp:196-215 | one more row filters its tempOut into the output so far, and the loop fails once a row's filter fails |
| Difference.RowsAppend | src/SFCGAL/algorithm/difference.cpp:196-215 | the rows of xs + ys are those of ys started from the output of xs, and fail when those of xs fail |
| Difference.RowsEnd | src/SFCGAL/algorithm/difference.cpp:196-215 | under the one-piece condition the outer loop ends, whatever the fuel |
| Difference.DifferenceOfEnds | src/SFCGAL/algorithm/difference.cpp:188-216 | under the one-piece condition the difference ends, whatever the fuel |
| Difference.DifferenceOf | src/SFCGAL/algorithm/difference.cpp:188-216 | a difference that ends keeps the output valid and never adds a volume |
| Difference.RowWithoutHits | src/SFCGAL/algorithm/difference.cpp:210-214 | a primitive that meets nothing in b is output unchanged, flags cleared, whatever the fuel |
| Difference.RowsWithoutHits | src/SFCGAL/algorithm/difference.cpp:196-215 | when no row meets anything in b, the loop ends and every primitive is kept |
| Difference.VolumeRowsWithoutHits | src/SFCGAL/algorithm/difference.cpp:196-215 | volumes that meet nothing leave the output unchanged |
| Difference.DifferenceOfDisjoint | src/SFCGAL/algorithm/difference.cpp:188-216 | when nothing in a meets anything in b, the output gains the points, segments and surfaces of a |
| Difference.DifferenceWithEmpty | test/unit/SFCGAL/algorithm/DifferenceTest.cpp:111-117 | X minus the empty set is X, for a set without volumes or flags |
| Difference.CoveredPointVanishes | src/SFCGAL/algorithm/difference.cpp:120-122 | a point that meets something in b leaves nothing, and its row ends |
| Difference.DifferenceRow | src/SFCGAL/algorithm/difference.cpp:197-212 | the inner loop over b leaves tempOut equal to RowResult |
| Difference.DifferenceTurn | src/SFCGAL/algorithm/difference.cpp:196-215 | one turn reports whether the row's filter ends, and when it does adds the filtered row to the output |
| Difference.BoxesOf | src/SFCGAL/algorithm/difference.cpp:191-194 | computeBoundingBoxes into empty lists gives one box per primitive, in order |
| Difference.RowsStopAt | src/SFCGAL/algorithm/difference.cpp:196-215 | a row whose filter fails makes the whole loop fail |
| Difference.DifferenceSets | src/SFCGAL/algorithm/difference.cpp:188-216 | difference(a, b, output) reports whether DifferenceOf ends within the fuel, and when it does leaves output equal to it |
| Difference.DifferenceGeometries | src/SFCGAL/algorithm/difference.cpp:221-227 | difference(ga, gb) is the recomposed DifferenceOf of the two decompositions, and has a result exactly when that ends |
| Difference.AxisInnerRemainder | src/SFCGAL/algorithm/difference.cpp:123-136 | a segment of the x axis minus a segment strictly inside it leaves the piece before and the piece after |
| Difference.SegmentMinusInnerSegment | src/SFCGAL/algorithm/difference.cpp:188-216 | the whole difference of a segment of the x axis and a segment strictly inside it ends with exactly those two pieces |
| Difference.InnerSegmentDifference | test/unit/SFCGAL/algorithm/DifferenceTest.cpp:77-82 | LINESTRING(0 0,1 0) minus LINESTRING(0.5 0,0.7 0) is the two segments (0 0,0.5 0) and (0.7 0,1 0) |
| Difference.SharedTempNeverEnds | src/SFCGAL/algorithm/difference.cpp:146-184 | with a shared temp set, four segments in the cycle pattern make the pass never end, for any fuel |
| Difference.CycleNeverEnds | src/SFCGAL/algorithm/difference.cpp:158-184 | once the handle table has entered the four-turn cycle of self-hitting handles, the pass as written never reaches the end of the table, whatever the fuel |
| Difference.ExampleNeverEnds | src/SFCGAL/algorithm/difference.cpp:146-184 | the concrete run (see Findings) never ends |
| Difference.FreshTempEnds | src/SFCGAL/algorithm/difference.cpp:146-184 | with a fresh temp set per pair, the same run ends with the two pieces, whatever the fuel |
| Difference.ExampleRow | src/SFCGAL/algorithm/difference.cpp:196-214 | the tempOut of LINESTRING(0 0,10 0) against the cuts (2 0,3 0) and (5 0,6 0) holds the four overlapping pieces |
| Difference.ExampleFiltered | src/SFCGAL/algorithm/difference.cpp:142-186 | the corrected filter of that tempOut ends with (0 0,2 0) and (6 0,10 0) |
| Difference.ExampleDifference | src/SFCGAL/algorithm/difference.cpp:188-216 | the corrected difference of the example ends with those two segments |
| Difference.FreshTempLosesPiece | src/SFCGAL/algorithm/difference.cpp:188-216 | the corrected difference of the example still drops the point (4 0), which lies on the segment and on neither cut |
| PolyhedralSurfaces.IndexOf | src/SFCGAL/PolyhedralSurface.cpp:127-137 | std::find: the first index holding s, or the length iff s is absent |
| PolyhedralSurfaces.FirstShared | src/SFCGAL/PolyhedralSurface.cpp:127-137 | the first segment of other whose reverse is in the ring, and none before it |
| PolyhedralSurfaces.Spliced | src/SFCGAL/PolyhedralSurface.cpp:139-148 | the segments after the shared one, in cyclic order; a one-segment facet gives itself |
| PolyhedralSurfaces.SplicedAt | src/SFCGAL/PolyhedralSurface.cpp:139-148 | element t of the splice is element (i+1+t) mod n of other |
| PolyhedralSurfaces.Merged | src/SFCGAL/PolyhedralSurface.cpp:114-149 | the ring stays valid; merging into an empty ring gives other with the cursor at its end; a failed merge leaves the ring unchanged |
| PolyhedralSurfaces.MergeSucceedsIffShared | src/SFCGAL/PolyhedralSurface.cpp:127-137 | into a non-empty ring, merge succeeds iff some segment of other has its reverse in the ring |
| PolyhedralSurfaces.MergeLength | src/SFCGAL/PolyhedralSurface.cpp:127-148 | a successful merge makes the length |this| + |other| - 2 |
| PolyhedralSurfaces.MergeKeepsTheRest | src/SFCGAL/PolyhedralSurface.cpp:127-148 | a successful merge removes the shared edge and adds every other segment of other |
| PolyhedralSurfaces.InsertedCount | src/SFCGAL/PolyhedralSurface.cpp:91-94 | insertion at the cursor adds exactly the new segments |
| PolyhedralSurfaces.Corners | src/SFCGAL/PolyhedralSurface.cpp:155-176 | each kept vertex is the target of a segment that is not collinear with the next one |
| PolyhedralSurfaces.PolygonOf | src/SFCGAL/PolyhedralSurface.cpp:155-176 | the polygon is closed, and there is none iff no vertex is kept |
| PolyhedralSurfaces.CornersKept | src/SFCGAL/PolyhedralSurface.cpp:164-171 | the target of every non-straight segment is kept |
| PolyhedralSurfaces.NoStraightKeepsAll | src/SFCGAL/PolyhedralSurface.cpp:155-176 | without collinear vertices every target is kept, in order |
| PolyhedralSurfaces.Ring.constructor | src/SFCGAL/PolyhedralSurface.cpp:71-72 | a new ring is empty with the cursor at the end |
| PolyhedralSurfaces.Ring.Copy | src/SFCGAL/PolyhedralSurface.cpp:74-80 | a copy has the same segments and the same cursor offset |
| PolyhedralSurfaces.Ring.Push | src/SFCGAL/PolyhedralSurface.cpp:91-94 | push inserts at the cursor and leaves the cursor after the new segment |
| PolyhedralSurfaces.Ring.Erase | src/SFCGAL/PolyhedralSurface.cpp:96-99 | erase removes one segment and moves the cursor to its successor |
| PolyhedralSurfaces.Ring.Clear | src/SFCGAL/PolyhedralSurface.cpp:105-108 | clear empties the ring and puts the cursor at the end |
| PolyhedralSurfaces.Ring.PushAll | src/SFCGAL/PolyhedralSurface.cpp:91-94 | successive pushes keep their order |
| PolyhedralSurfaces.Ring.Merge | src/SFCGAL/PolyhedralSurface.cpp:114-149 | merge returns and leaves the ring as Merged says |
| PolyhedralSurfaces.Ring.SpliceFrom | src/SFCGAL/PolyhedralSurface.cpp:139-148 | the circulator loop inserts Spliced(other, i) at the cursor |
| PolyhedralSurfaces.Ring.ToPolygon | src/SFCGAL/PolyhedralSurface.cpp:155-176 | toPolygon builds PolygonOf(segments) |
| PolyhedralSurfaces.Find | src/SFCGAL/PolyhedralSurface.cpp:128 | the std::find loop returns IndexOf |
| PolyhedralSurfaces.FacetRing | src/SFCGAL/PolyhedralSurface.cpp:223-230 | a facet's ring has one segment per vertex, segment k ending at vertex k |
| PolyhedralSurfaces.FacetRingChained | src/SFCGAL/PolyhedralSurface.cpp:223-230 | each segment of a facet's ring starts where the previous one ends, cyclically |
| PolyhedralSurfaces.FacetPolygon | src/SFCGAL/PolyhedralSurface.cpp:197-211 | a facet's polygon is its vertices closed by repeating the first |
| PolyhedralSurfaces.FacetRingPolygon | src/SFCGAL/PolyhedralSurface.cpp:155-176 | without collinear vertices, the ring of a facet gives back the facet's polygon |
| PolyhedralSurfaces.FacetRingOf | src/SFCGAL/PolyhedralSurface.cpp:223-230 | the ring built by pushing the facet's half-edges |
| PolyhedralSurfaces.GroupIndex | src/SFCGAL/PolyhedralSurface.cpp:237-247 | the first group with an equal plane, or none has it |
| PolyhedralSurfaces.AddToGroupFacts | src/SFCGAL/PolyhedralSurface.cpp:237-251 | adding a ring keeps planes distinct, adds one ring, and leaves a group for its plane |
| PolyhedralSurfaces.GroupedFacts | src/SFCGAL/PolyhedralSurface.cpp:220-252 | grouping gives distinct planes, one ring per facet, and a group for every facet's plane |
| PolyhedralSurfaces.GroupPlaneStays | src/SFCGAL/PolyhedralSurface.cpp:237-251 | groups keep their first-seen order |
| PolyhedralSurfaces.GroupFacets | src/SFCGAL/PolyhedralSurface.cpp:220-252 | the grouping loop computes Grouped |
| PolyhedralSurfaces.FirstMerge | src/SFCGAL/PolyhedralSurface.cpp:260-269 | the first facet left that merges, and none before it merges |
| PolyhedralSurfaces.DrainCount | src/SFCGAL/PolyhedralSurface.cpp:254-275 | the loop emits at most one ring per facet (plus the ring in progress), and at least one when facets remain |
| PolyhedralSurfaces.LoneRingEmitted | src/SFCGAL/PolyhedralSurface.cpp:270-273 | a ring that shares no edge with the facets left is emitted, and the loop restarts |
| PolyhedralSurfaces.SeparateFacetsStayApart | src/SFCGAL/PolyhedralSurface.cpp:254-275 | facets that share no edge come out one ring each, in order |
| PolyhedralSurfaces.TwoFacetsMerge | src/SFCGAL/PolyhedralSurface.cpp:254-275 | two facets that share an edge come out as their one merged ring |
| PolyhedralSurfaces.SimplifiedNoMoreThanFacets | src/SFCGAL/PolyhedralSurface.cpp:214-275 | simplification never yields more polygons than facets |
| PolyhedralSurfaces.MergeFirst | src/SFCGAL/PolyhedralSurface.cpp:260-269 | the inner loop merges the first facet that fits |
| PolyhedralSurfaces.PolyhedralSurface.FromFacets | src/SFCGAL/PolyhedralSurface.cpp:194-276 | without simplification, one closed polygon per facet; with it, the polygons of the merged rings of each plane group |
| PolyhedralSurfaces.PolyhedralSurface.AddPolygon | src/SFCGAL/PolyhedralSurface.cpp:387-399 | addPolygon appends exactly one polygon, after which the surface is not empty |
| PolyhedralSurfaces.PolyhedralSurface.Emit | src/SFCGAL/PolyhedralSurface.cpp:270-273 | emitting a ring appends its polygon, if it has one |
| PolyhedralSurfaces.PolyhedralSurface.MergeTurn | src/SFCGAL/PolyhedralSurface.cpp:258-274 | one turn of the merge loop advances Drain and appends the emitted polygons; each turn removes a facet or empties the ring |
| PolyhedralSurfaces.PolyhedralSurface.MergePlane | src/SFCGAL/PolyhedralSurface.cpp:254-275 | the merge loop of one plane ends, appending the polygons of Drain |
| PolyhedralSurfaces.PolyhedralSurface.AddPolygons | src/SFCGAL/PolyhedralSurface.cpp:404-409 | (corrected) appends the other surface's polygons, as they were before the call |
| PolyhedralSurfaces.AddPolygonsAsWritten | src/SFCGAL/PolyhedralSurface.cpp:404-409 | (see Findings) the loop as written, re-reading the size of the other surface each turn |
| PolyhedralSurfaces.AddPolygonsDistinct | src/SFCGAL/PolyhedralSurface.cpp:404-409 | with a different surface, the loop as written appends the other's polygons |
| PolyhedralSurfaces.AddPolygonsAliasedNeverEnds | src/SFCGAL/PolyhedralSurface.cpp:404-409 | adding a non-empty surface to itself never ends, for any fuel |

## Left out

- Three-dimensional code is not modelled:
  - `GeometrySet<3>`;
  - the 3D `_intersects` cases and `intersects_volume_x`;
  - the 3D `substract_from_surface` stub;
  - `difference<3>`, which is never instantiated;
  - triangulation of 3D polygons.

  Each needs 3D CGAL kernels or triangulation. Facet merging is modelled in 3D, with its geometry reduced to equality and a collinearity test.
- Some collaborators are not shown in the source. They are parameters with stated contracts:
  - `algorithm::intersection` is the `Intersection` parameter, assumed to meet `SubSegmentResults`: for a segment, the segments of the intersection lie on its line.
  - `algorithm::covers` is the `Covers` parameter.
  - CGAL's polygon difference is the `PolygonDifference` parameter.
  - The plane of a facet is the `planeOf` parameter; `normal3D` and `Plane_3` are not part of this model.
  - CGAL_poly_difference.cpp is not part of this model.
- `CGAL::box_intersection_d` is modelled as a loop over all pairs of boxes. The sweep reports the same overlapping pairs in some order, and the results are order-independent (an early exit, a maximum).
- BoxFilter.IntersectsOverlap, BoxFilter.AnyPairIsPairwise and BoxFilter.SetDimensionIsPairwise require every hole vertex of a polygon to lie in the envelope of its outer ring, as in a valid polygon. The source does not check this, and a hole outside the outer envelope can meet a segment whose box misses that envelope, so the box stage then drops the hit.
- Boxes use exact reals instead of `Bbox_2` doubles.
- An empty polygon, and the `NoVolume` placeholder of the 2D volume list, have no box: it overlaps nothing.
- `bounded_side` is given a concrete exact definition (on an edge, else crossing parity). It stands in for CGAL's implementation.
- `Envelope::contains` is taken as closed containment of boxes.
- Printing (`operator<<`), `auto_ptr` ownership, and the empty `typeNames` test loops are left out.
- The flag `FLAG_IS_PLANAR` and the planar-volume boundary walk of `recompose_volumes` in 3D are left out. In 2D, volumes recompose to nothing.
- Facets are given as vertex sequences, not as halfedge circulators of a `MarkedPolyhedron`.
- The merged ring's polygon is computed with `Corners`.
- PolyhedralSurfaces.Ring.ToPolygon returns no polygon for a ring with no corner, and PolyhedralSurfaces.PolyhedralSurface.Emit then appends nothing. The source reads `pointN(0)` of an empty line string there, which is undefined.
- PolyhedralSurfaces.Ring.Merge takes the other facet's segment list instead of a `Ring` object, because only its segments are read.
- Difference.FilterPass is the corrected filter: each pair gets a fresh temp set. It carries a `fuel` bound: a turn that pushes more than one piece spends one unit, and the pass returns `None` when none is left. Termination for any fuel is proved under the one-piece condition (Difference.PassEnds): an intersection of two primitives of kind k holds at most one primitive of kind k, which holds for points and segments. Intersections of surfaces can hold several polygons, and then the pass is only modelled up to the fuel. The pass of the code as written is Difference.FilterAsWritten (see Findings).
- Difference.FilterPass, even with the fresh temp set, still loses area on the example of Findings row 2: it ends, but with (0 0,2 0) and (6 0,10 0) only, and the point (4 0) of LINESTRING(0 0,10 0) minus the two cuts is in neither (Difference.FreshTempLosesPiece). The filter replaces two overlapping pieces by their intersection, which is the rule the source follows; a filter that computes the true union of the pieces is not part of this model.
- Difference.DifferenceOf, Difference.Rows, Difference.Filtered and the methods that compute them return `None`, or `false`, when a row's filter runs out of fuel. Difference.DifferenceOfEnds proves they end for any fuel under the one-piece condition.
- Difference.FilterAsWritten and PolyhedralSurfaces.AddPolygonsAsWritten take a `fuel` bound and return `None` when it runs out. They model loops that need not end.
- Lines.PointPosition requires a segment of positive length, as the division in the code does. Difference.SegmentRemainder requires it only when it subtracts a segment, because `difference_primitive` only subtracts sub-segments of a segment that meets pb.
- Difference.DifferenceWithEmpty is stated for sets without volumes and without flags. Volumes are dropped by the filter, and `addPrimitive(PrimitiveBase)` clears flags.
- Dimensions.IntersectionDimension uses the corrected segment rule (Findings, row 3), not the end-point rule of intersectionDimension.cpp:47-62. (0 0,2 0) and (1 0,1 1) get 0 here and 1 in the code. The rule as written is Dimensions.SegmentPairDimensionAsWritten.
- Dimensions.SetDimension inherits that rule for segment pairs, through Dimensions.IntersectionDimension.
- Dimensions.IntersectionDimensionOfSets inherits that rule for segment pairs, through Dimensions.SetDimension.
- Dimensions.IntersectionDimensionOfGeometries inherits that rule for segment pairs, through Dimensions.SetDimension.
- Dimensions.IntersectionDimension states the result for pairs of surfaces and volumes only as -1..3. In that case it is the largest dimension in what the `Intersection` parameter returns, as in the code's fallback.
- GeometrySets.GSet.MaximumDimension is the largest tag present. The shown header does not declare `maximumDimension`, `complete` or `size(sel)`.
- The 3D overloads of `addPrimitive(CGAL::Object)` are left out.

## Findings

| source | as written | input that shows it | evidently intended | confidence | as-written member | corrected member |
|---|---|---|---|---|---|---|
| src/SFCGAL/GeometrySet.cpp:549-563 | `ret` stays unset when two or more parts share a type other than Point, LineString, Polygon and Solid | a set holding two separate triangles | gather such parts in a GeometryCollection | not executed | Recomposition.TwoTrianglesLeaveResultUnset | Recomposition.Recompose |
| src/SFCGAL/algorithm/difference.cpp:146-184 | `temp` is shared by every pair of one kind, and after each hit all of its primitives are pushed back into `idx` | segments (0 0,2 0), (0 0,5 0), (3 0,10 0), (6 0,10 0), the tempOut of LINESTRING(0 0,10 0) minus MULTILINESTRING((2 0,3 0),(5 0,6 0)) | push only the intersection of the current pair: the pass then ends (it still loses area, see Left out) | not executed | Difference.ExampleNeverEnds | Difference.FreshTempEnds |
| src/SFCGAL/algorithm/intersectionDimension.cpp:47-62 | two intersecting segments get 1 as soon as one end point lies on the other segment | (0 0,2 0) and (1 0,1 1), which touch at one point | 1 only when the segments share more than one point | not executed | Dimensions.TouchingSegmentsCountAsOverlap | Dimensions.TouchingSegmentsCorrected |
| src/SFCGAL/PolyhedralSurface.cpp:404-409 | the loop re-reads `other.numPolygons()` while appending to `this` | `s.addPolygons(s)` on a non-empty surface | append the polygons `other` had when the call began | not executed | PolyhedralSurfaces.AddPolygonsAliasedNeverEnds | PolyhedralSurfaces.PolyhedralSurface.AddPolygons |
