# Unity-delaunay in Dafny

This project models the core of Unity-delaunay, a C# port of the as3delaunay library. The library builds a Voronoi diagram of 2D sites with Fortune's sweepline algorithm, then derives regions, neighbours, hulls and Delaunay and spanning-tree segments from it. Each piece is a pure Dafny function, method or lemma, with a contract stating what the C# code promises.

The modules follow the source's classes:

| module | file | models |
|---|---|---|
| `Wrappers` | `wrappers.dfy` | `Option` |
| `LR` | `lr.dfy` | the `Side` enum (`LR.cs`) |
| `Geom` | `geometry.dfy` | points, `Rect`, `Polygon`, `Winding`, `LineSegment`, the `(y, x)` order |
| `Sorting` | `sorting.dfy` | `List.Sort` under a comparison |
| `Triangles` | `triangle.dfy` | `Triangle` |
| `Edges` | `edge.dfy` | `Vertex` numbering, `Edge` (bisector, vertices, clipping) |
| `Halfedges` | `halfedge.dfy` | `Halfedge`, `IsLeftOf`, `Vertex.Intersect` |
| `EdgeLists` | `edgelist.dfy` | the doubly linked beach line with its bucket hash (`EdgeList`) |
| `PriorityQueues` | `pqueue.dfy` | `HalfedgePriorityQueue` |
| `Reorderer` | `reorderer.dfy` | `EdgeReorderer` |
| `Sites` | `site.dfy` | `Site`: sorting, neighbours, region clipping |
| `SiteLists` | `sitelist.dfy` | `SiteList` |
| `Helpers` | `helpers.dfy` | `DelaunayHelpers`: segment selection and Kruskal with union-find |
| `Voronoi` | `voronoi.dfy` | `Voronoi`: site registration, the sweep, clipping, the hull |

Object references become values:

- The halfedges of `EdgeList` and `HalfedgePriorityQueue` live in a store `map<HId, Halfedge>`. Links are ids, and a walk along links takes a `fuel` bound.
- In the sweep (`Voronoi.Run`), the beach line is the sequence of its halfedges from end to end. The event queue is the beach halfedges that carry a vertex, keyed `(ystar, x)` as `HalfedgePriorityQueue` keys them. `EdgeList` and `HalfedgePriorityQueue` are proved correct on their own against these views: `EdgeLists.LeftNeighborCorrect` proves that the hashed walk answers a halfedge meeting the condition `Voronoi.LeftNeighbor` meets (left of the site, or the left end, with a right neighbour that is not). `PriorityQueues.MinIsLeast` proves that the heap reports a least key, as `Voronoi.MinQueued` does. Where several halfedges qualify, the two levels may pick different ones; on a beach line ordered as the sweep keeps it, the left-neighbour condition has one answer, but the model does not prove that ordering.
- A site is identified by its coordinate. The source makes one site per distinct coordinate (`Voronoi.AddSite`), so this loses nothing.
- Coordinates are exact reals. `Vector2.Distance` is a parameter `dist` wherever the source needs a square root (the event key `ystar` and circle radii); comparisons of distances use squared lengths.
- The running vertex counter `Vertex._nvertices` and the per-vertex index are explicit state (`Edges.VertexNumbering`).

Source paths below are relative to the repository root. `Delaunay/...` files lie under `unity2DDestruction/Assets/2D_Destruction/Unity-delaunay/Delaunay/`, and `geom/...` files under `unity2DDestruction/Assets/2D_Destruction/Unity-delaunay/geom/`.

## Model

| member | source | states |
|---|---|---|
| LR.Ordinal | unity2DDestruction/Assets/2D_Destruction/Unity-delaunay/Delaunay/LR.cs:5-9 | The ordinal is 0 or 1, and it is 0 exactly for `LEFT`. |
| LR.Other | unity2DDestruction/Assets/2D_Destruction/Unity-delaunay/Delaunay/LR.cs:13-16 | `Other` never returns the side it was given. |
| LR.OtherInvolution | unity2DDestruction/Assets/2D_Destruction/Unity-delaunay/Delaunay/LR.cs:13-16 | Taking `Other` twice gives back the side, and it swaps `LEFT` and `RIGHT`. |
| LR.OrdinalBijective | unity2DDestruction/Assets/2D_Destruction/Unity-delaunay/Delaunay/LR.cs:5-16 | Two sides are equal exactly when their ordinals are, and `Other` flips the ordinal. |
| Geom.CompareByYThenX | unity2DDestruction/Assets/2D_Destruction/Unity-delaunay/Delaunay/Voronoi.cs:398-422 | The result is -1 exactly when the first point is lower (smaller y, then smaller x), 1 exactly when it is higher, and 0 exactly when the points coincide. |
| Geom.CompareByYThenXAntisymmetric | unity2DDestruction/Assets/2D_Destruction/Unity-delaunay/Delaunay/Voronoi.cs:398-409 | Swapping the arguments negates the comparison. |
| Geom.CompareByYThenXTransitive | unity2DDestruction/Assets/2D_Destruction/Unity-delaunay/Delaunay/Voronoi.cs:398-409 | The `(y, x)` order is transitive, so it can drive a sort. |
| Geom.WindingOf | unity2DDestruction/Assets/2D_Destruction/Unity-delaunay/geom/Polygon.cs:22-32 | The polygon is clockwise exactly when its signed double area is negative, counter-clockwise exactly when it is positive, and `NONE` exactly when it is zero. |
| Geom.Area | unity2DDestruction/Assets/2D_Destruction/Unity-delaunay/geom/Polygon.cs:17-20 | The area is non-negative, half the absolute signed double area, and zero exactly when the winding is `NONE`. |
| Geom.SignedDoubleAreaLoop | unity2DDestruction/Assets/2D_Destruction/Unity-delaunay/geom/Polygon.cs:34-47 | The index loop with wrap-around at the last vertex computes the shoelace sum over all edges of the closed polygon. |
| Geom.Reverse | unity2DDestruction/Assets/2D_Destruction/Unity-delaunay/Delaunay/Site.cs:206-208 | `List.Reverse`: element `i` of the result is element `n - 1 - i` of the input. |
| Geom.ReverseNegatesArea | unity2DDestruction/Assets/2D_Destruction/Unity-delaunay/geom/Polygon.cs:34-47 | Reversing the vertex order negates the signed area. |
| Geom.ReverseFlipsWinding | unity2DDestruction/Assets/2D_Destruction/Unity-delaunay/geom/Polygon.cs:22-32 | Reversing a clockwise polygon makes it counter-clockwise and the other way round; a degenerate polygon stays degenerate. |
| Geom.RotateByKeepsArea | unity2DDestruction/Assets/2D_Destruction/Unity-delaunay/geom/Polygon.cs:34-47 | The signed area does not depend on which vertex the polygon starts from. |
| Geom.CompareLengthsMax | unity2DDestruction/Assets/2D_Destruction/Unity-delaunay/geom/LineSegment.cs:10-21 | Returns 1 exactly when the first segment is shorter, -1 exactly when it is longer, and 0 on equal length. Lengths are compared squared. |
| Geom.CompareLengths | unity2DDestruction/Assets/2D_Destruction/Unity-delaunay/geom/LineSegment.cs:23-26 | The negation of `CompareLengthsMax`: -1 exactly when the first segment is shorter. |
| Geom.CompareLengthsAntisymmetric | unity2DDestruction/Assets/2D_Destruction/Unity-delaunay/geom/LineSegment.cs:10-26 | Both comparisons are antisymmetric. |
| Sorting.Sort | unity2DDestruction/Assets/2D_Destruction/Unity-delaunay/Delaunay/Site.cs:22-26 | `List.Sort` under a total preorder returns a sorted permutation of its input. |
| Triangles.NewTriangle | unity2DDestruction/Assets/2D_Destruction/Unity-delaunay/Delaunay/Triangle.cs:14-17 | A triangle holds its three sites in the order given. |
| Triangles.Dispose | unity2DDestruction/Assets/2D_Destruction/Unity-delaunay/Delaunay/Triangle.cs:19-23 | A disposed triangle holds no sites. |
| Edges.CreateVertex | unity2DDestruction/Assets/2D_Destruction/Unity-delaunay/Delaunay/Vertex.cs:14-24 | A NaN coordinate gives the shared vertex at infinity; otherwise the result is a finite vertex at the given coordinates. |
| Edges.SetIndex | unity2DDestruction/Assets/2D_Destruction/Unity-delaunay/Delaunay/Vertex.cs:54-57 | The vertex's number is the counter's current value, and the counter moves on by one. No other vertex gains a number. Every vertex numbered before keeps its number, and that number is smaller than the new one. |
| Edges.BisectorLine | unity2DDestruction/Assets/2D_Destruction/Unity-delaunay/Delaunay/Edge.cs:42-55 | The line through two sites is scaled by the larger of the site offsets dx and dy. When the slope is mostly horizontal, a is 1 and b, c are scaled by dx; otherwise b is 1 and a, c are scaled by dy. |
| Edges.CreateBisectingEdge | unity2DDestruction/Assets/2D_Destruction/Unity-delaunay/Delaunay/Edge.cs:37-73 | A new edge has the first site on its left and the second on its right, no vertices, and no clipped ends. Exactly one of `a` and `b` is normalised to 1. |
| Edges.NormalisedCoefficients | unity2DDestruction/Assets/2D_Destruction/Unity-delaunay/Delaunay/Edge.cs:47-55 | A normalised bisector has `a == 1` or `b == 1`. With `a == 1` its sites differ in x, so the slope test of `IsLeftOf` is defined. |
| Edges.OnBisectorIff | unity2DDestruction/Assets/2D_Destruction/Unity-delaunay/Delaunay/Edge.cs:42-55 | A point lies on the line exactly when it satisfies the unscaled equation `x dx + y dy = c0`. |
| Edges.BisectorEquidistant | unity2DDestruction/Assets/2D_Destruction/Unity-delaunay/Delaunay/Edge.cs:37-73 | A point lies on the edge's line exactly when it is equally far from the two sites, so the line is their perpendicular bisector. |
| Edges.MidpointOnBisector | unity2DDestruction/Assets/2D_Destruction/Unity-delaunay/Delaunay/Edge.cs:42-55 | The midpoint of the two sites lies on the line. |
| Edges.BisectorPerpendicular | unity2DDestruction/Assets/2D_Destruction/Unity-delaunay/Delaunay/Edge.cs:42-55 | The line's normal `(a, b)` is parallel to the offset between the sites. |
| Edges.SetVertex | unity2DDestruction/Assets/2D_Destruction/Unity-delaunay/Delaunay/Edge.cs:162-169 | Setting the vertex on one side changes that side only; the other side, the line and the clipped ends are kept. |
| Edges.HullUntilBothEndsSet | unity2DDestruction/Assets/2D_Destruction/Unity-delaunay/Delaunay/Edge.cs:171-174 | After one end is set, the edge stops being a hull edge exactly when its other end was already set. |
| Edges.DelaunayLine | unity2DDestruction/Assets/2D_Destruction/Unity-delaunay/Delaunay/Edge.cs:127-131 | The Delaunay segment of an edge runs from its left site to its right site. |
| Edges.CompareSitesDistancesMax | unity2DDestruction/Assets/2D_Destruction/Unity-delaunay/Delaunay/Edge.cs:181-192 | Returns 1 exactly when the first edge's sites are closer together, -1 exactly when they are farther apart, and 0 on a tie. |
| Edges.CompareSitesDistances | unity2DDestruction/Assets/2D_Destruction/Unity-delaunay/Delaunay/Edge.cs:194-197 | The negation of the `_MAX` comparison: negative exactly when the first edge's sites are closer together. |
| Edges.CompareSitesDistancesPreorder | unity2DDestruction/Assets/2D_Destruction/Unity-delaunay/Delaunay/Edge.cs:176-197 | Ordering edges by site distance is a total preorder, so `List.Sort` by it is well defined. |
| Edges.ClipAlongY | unity2DDestruction/Assets/2D_Destruction/Unity-delaunay/Delaunay/Edge.cs:297-334 | When a is 1, the clipped ends lie on the edge's line and, for a non-degenerate rectangle, inside the bounds. |
| Edges.ClipSpanY | unity2DDestruction/Assets/2D_Destruction/Unity-delaunay/Delaunay/Edge.cs:305-334 | A y-span inside the bounds is clipped to points of the line in the bounds. An end whose x is already inside is kept unchanged. The first end stays between the span's two levels. |
| Edges.PullToX | unity2DDestruction/Assets/2D_Destruction/Unity-delaunay/Delaunay/Edge.cs:320-334 | An end outside in x is moved along the line to the crossed border. The new point lies between the two ends' y values, and an end already inside stays put. |
| Edges.AtLevelX | unity2DDestruction/Assets/2D_Destruction/Unity-delaunay/Delaunay/Edge.cs:320-326 | Where the line crosses the vertical border `x = t`, the crossing lies on the line at that x and between the two ends' y values. |
| Edges.ClipAlongX | unity2DDestruction/Assets/2D_Destruction/Unity-delaunay/Delaunay/Edge.cs:335-373 | When b is 1, the clipped ends lie on the edge's line and, for a non-degenerate rectangle, inside the bounds. |
| Edges.ClipSpanX | unity2DDestruction/Assets/2D_Destruction/Unity-delaunay/Delaunay/Edge.cs:343-372 | An x-span inside the bounds is clipped to points of the line in the bounds. An end whose y is already inside is kept unchanged. The first end stays between the span's two abscissas. |
| Edges.PullToY | unity2DDestruction/Assets/2D_Destruction/Unity-delaunay/Delaunay/Edge.cs:358-372 | An end outside in y is moved along the line to the crossed border. The new point lies between the two ends' x values, and an end already inside stays put. |
| Edges.AtLevelY | unity2DDestruction/Assets/2D_Destruction/Unity-delaunay/Delaunay/Edge.cs:358-364 | Where the line crosses the horizontal border `y = t`, the crossing lies on the line at that y and between the two ends' x values. |
| Edges.ClipEnds | unity2DDestruction/Assets/2D_Destruction/Unity-delaunay/Delaunay/Edge.cs:279-373 | The two clipped ends, or none when the edge misses the bounds. They lie on the edge's line and, for a non-degenerate rectangle, inside the bounds. |
| Edges.ClipVertices | unity2DDestruction/Assets/2D_Destruction/Unity-delaunay/Delaunay/Edge.cs:279-384 | Clipping keeps the edge's line and vertices. The edge becomes visible exactly when `ClipEnds` finds ends, and then its clipped ends lie on the line and in the bounds. `Edges.ClipSeesEdge` says when that means the edge meets the bounds. |
| Edges.ClipKeepsInsideVertices | unity2DDestruction/Assets/2D_Destruction/Unity-delaunay/Delaunay/Edge.cs:279-384 | A vertex that lies inside the bounds is its own clipped end. An edge with both vertices inside the bounds is always visible. |
| Edges.ClipAlongYKeeps | unity2DDestruction/Assets/2D_Destruction/Unity-delaunay/Delaunay/Edge.cs:297-334 | For the a == 1 branch, an end vertex inside the bounds survives clipping unchanged, and two inside vertices always give a result. |
| Edges.ClipAlongXKeeps | unity2DDestruction/Assets/2D_Destruction/Unity-delaunay/Delaunay/Edge.cs:335-373 | For the b == 1 branch, an end vertex inside the bounds survives clipping unchanged, and two inside vertices always give a result. |
| Edges.SpanYKeepsStart | unity2DDestruction/Assets/2D_Destruction/Unity-delaunay/Delaunay/Edge.cs:298-305 | A point of the line inside the bounds at the start level of the span is the span's first clipped end. |
| Edges.SpanYKeepsEnd | unity2DDestruction/Assets/2D_Destruction/Unity-delaunay/Delaunay/Edge.cs:307-314 | A point of the line inside the bounds at the end level of the span is the span's second clipped end. |
| Edges.SpanXKeepsStart | unity2DDestruction/Assets/2D_Destruction/Unity-delaunay/Delaunay/Edge.cs:336-343 | A point of the line inside the bounds at the start abscissa of the span is the span's first clipped end. |
| Edges.SpanXKeepsEnd | unity2DDestruction/Assets/2D_Destruction/Unity-delaunay/Delaunay/Edge.cs:345-352 | A point of the line inside the bounds at the end abscissa of the span is the span's second clipped end. |
| Edges.ClipSeesEdge | unity2DDestruction/Assets/2D_Destruction/Unity-delaunay/Delaunay/Edge.cs:279-373 | Take non-degenerate bounds and an edge whose `vertex0` comes no later than its `vertex1` along the walk. The edge becomes visible exactly when some point of it, on its line from `vertex0` to `vertex1`, lies in the bounds. |
| Edges.ClipAlongYMeets | unity2DDestruction/Assets/2D_Destruction/Unity-delaunay/Delaunay/Edge.cs:297-334 | When a is 1 and the vertices come in walk order, the branch finds ends exactly when some point of the line between the vertices lies in the bounds. |
| Edges.ClipAlongYFinds | unity2DDestruction/Assets/2D_Destruction/Unity-delaunay/Delaunay/Edge.cs:297-334 | When a is 1 and the branch finds ends, the first end lies on the line between the vertices. |
| Edges.ClipAlongYReaches | unity2DDestruction/Assets/2D_Destruction/Unity-delaunay/Delaunay/Edge.cs:297-317 | When a is 1, a point of the line between the vertices inside the bounds gets past all three give-up tests. |
| Edges.SpanYReaches | unity2DDestruction/Assets/2D_Destruction/Unity-delaunay/Delaunay/Edge.cs:305-317 | A point of the line inside the bounds between the span's levels keeps the x test from giving up. |
| Edges.ClipAlongXMeets | unity2DDestruction/Assets/2D_Destruction/Unity-delaunay/Delaunay/Edge.cs:335-373 | When b is 1 and the vertices come in walk order, the branch finds ends exactly when some point of the line between the vertices lies in the bounds. |
| Edges.ClipAlongXFinds | unity2DDestruction/Assets/2D_Destruction/Unity-delaunay/Delaunay/Edge.cs:335-373 | When b is 1 and the branch finds ends, the first end lies on the line between the vertices. |
| Edges.ClipAlongXReaches | unity2DDestruction/Assets/2D_Destruction/Unity-delaunay/Delaunay/Edge.cs:335-356 | When b is 1, a point of the line between the vertices inside the bounds gets past all three give-up tests. |
| Edges.SpanXReaches | unity2DDestruction/Assets/2D_Destruction/Unity-delaunay/Delaunay/Edge.cs:343-356 | A point of the line inside the bounds between the span's abscissas keeps the y test from giving up. |
| Halfedges.Create | unity2DDestruction/Assets/2D_Destruction/Unity-delaunay/Delaunay/Halfedge.cs:15-22 | A new halfedge has the given edge and side, no vertex, and no list or queue links. |
| Halfedges.CreateDummy | unity2DDestruction/Assets/2D_Destruction/Unity-delaunay/Delaunay/Halfedge.cs:24-27 | A dummy has no edge, side, vertex or links. |
| Halfedges.Dispose | unity2DDestruction/Assets/2D_Destruction/Unity-delaunay/Delaunay/Halfedge.cs:58-72 | A halfedge still linked into the edge list or the queue is left alone. Otherwise its edge, side and vertex are cleared. |
| Halfedges.ReallyDispose | unity2DDestruction/Assets/2D_Destruction/Unity-delaunay/Delaunay/Halfedge.cs:74-83 | After `ReallyDispose` the halfedge has no links, edge, side or vertex. |
| Halfedges.IsLeftOf | unity2DDestruction/Assets/2D_Destruction/Unity-delaunay/Delaunay/Halfedge.cs:85-132 | A `LEFT` halfedge is left of every point right of its top site. A `RIGHT` halfedge is left of no point at or left of its top site. Otherwise, when `a` is not 1, the flat-line test decides: as is for `LEFT`, negated for `RIGHT`. |
| Halfedges.AboveFlatLineGeometric | unity2DDestruction/Assets/2D_Destruction/Unity-delaunay/Delaunay/Halfedge.cs:124-130 | The b == 1 test reads geometrically: take the bisector point straight above or below p. p counts as above when its vertical distance to that point exceeds the distance from that point to either site. |
| Halfedges.Solve | unity2DDestruction/Assets/2D_Destruction/Unity-delaunay/Delaunay/Vertex.cs:88-95 | When the determinant is not near zero, Cramer's rule gives a point on both lines. |
| Halfedges.Intersect | unity2DDestruction/Assets/2D_Destruction/Unity-delaunay/Delaunay/Vertex.cs:72-111 | A vertex exists exactly when both halfedges have edges with different top sites, those edges are not nearly parallel, and their crossing lies on the facing side of the lower halfedge. The vertex lies on both lines. |
| Halfedges.IntersectEquidistant | unity2DDestruction/Assets/2D_Destruction/Unity-delaunay/Delaunay/Vertex.cs:72-111 | A vertex found by `Intersect` is equally far from both sites of each of the two edges, so it is a Voronoi vertex candidate. |
| EdgeLists.NewEdgeList | unity2DDestruction/Assets/2D_Destruction/Unity-delaunay/Delaunay/EdgeList.cs:43-60 | The new list links the left end to the right end. The hash has `2 sqrt_nsites` buckets, with the ends in its outer buckets and nothing in between. No other halfedge changes. |
| EdgeLists.Insert | unity2DDestruction/Assets/2D_Destruction/Unity-delaunay/Delaunay/EdgeList.cs:68-74 | The new halfedge goes between `lb` and its old right neighbour, with both links updated. No other halfedge changes. |
| EdgeLists.InsertKeepsLinked | unity2DDestruction/Assets/2D_Destruction/Unity-delaunay/Delaunay/EdgeList.cs:68-74 | Inserting right of position i of a doubly linked list gives the doubly linked list of the sequence with the new id spliced in after i. |
| EdgeLists.InsertKeepsHash | unity2DDestruction/Assets/2D_Destruction/Unity-delaunay/Delaunay/EdgeList.cs:68-74 | Insertion keeps every hash entry pointing into the list or at a deleted halfedge, and keeps the dummy ends. |
| EdgeLists.Remove | unity2DDestruction/Assets/2D_Destruction/Unity-delaunay/Delaunay/EdgeList.cs:82-88 | The halfedge's neighbours are linked to each other. The halfedge itself is marked `DELETED` and unlinked, and no other halfedge changes. |
| EdgeLists.RemoveKeepsLinked | unity2DDestruction/Assets/2D_Destruction/Unity-delaunay/Delaunay/EdgeList.cs:82-88 | Removing an inner position gives the doubly linked list of the sequence without it. |
| EdgeLists.RemoveKeepsHash | unity2DDestruction/Assets/2D_Destruction/Unity-delaunay/Delaunay/EdgeList.cs:82-88 | Removal keeps the hash invariant: a stale entry points at a `DELETED` halfedge, which `GetHash` prunes. |
| EdgeLists.Trunc | unity2DDestruction/Assets/2D_Destruction/Unity-delaunay/Delaunay/EdgeList.cs:102 | The `(int)` cast truncates toward zero for negative values too. |
| EdgeLists.Clamp | unity2DDestruction/Assets/2D_Destruction/Unity-delaunay/Delaunay/EdgeList.cs:103-108 | A bucket number below 0 becomes 0 and one past the end becomes the last; numbers in range are kept. |
| EdgeLists.GetHash | unity2DDestruction/Assets/2D_Destruction/Unity-delaunay/Delaunay/EdgeList.cs:138-154 | Out-of-range buckets give null. A bucket pointing at a `DELETED` halfedge is cleared and gives null. Any other entry is returned as is. |
| EdgeLists.GetHashKeepsHash | unity2DDestruction/Assets/2D_Destruction/Unity-delaunay/Delaunay/EdgeList.cs:138-154 | Pruning keeps the hash invariant, and the two outer buckets always answer. |
| EdgeLists.ScanFinds | unity2DDestruction/Assets/2D_Destruction/Unity-delaunay/Delaunay/EdgeList.cs:109-117 | Scanning outward from an inner bucket always finds a halfedge of the list and leaves the hash valid. |
| EdgeLists.StartFound | unity2DDestruction/Assets/2D_Destruction/Unity-delaunay/Delaunay/EdgeList.cs:101-117 | The hash lookup and scan always produce a halfedge that is in the list. |
| EdgeLists.WalkRightFinds | unity2DDestruction/Assets/2D_Destruction/Unity-delaunay/Delaunay/EdgeList.cs:119-123 | Walking right from a halfedge left of p (or from the left end) stops at a left neighbour of p at or right of the start. |
| EdgeLists.WalkLeftFinds | unity2DDestruction/Assets/2D_Destruction/Unity-delaunay/Delaunay/EdgeList.cs:124-128 | Walking left from a halfedge not left of p (or from the right end) stops at a left neighbour of p left of the start. |
| EdgeLists.WalkFinds | unity2DDestruction/Assets/2D_Destruction/Unity-delaunay/Delaunay/EdgeList.cs:119-128 | Whichever way the walk goes, it ends at a left neighbour of p. |
| EdgeLists.LeftNeighborCorrect | unity2DDestruction/Assets/2D_Destruction/Unity-delaunay/Delaunay/EdgeList.cs:96-135 | `EdgeListLeftNeighbor` returns a halfedge of the list that is left of p (or the left end) and whose right neighbour is not (or is the right end). The hash stays valid and its outer buckets unchanged. |
| PriorityQueues.KeyLeTransitive | unity2DDestruction/Assets/2D_Destruction/Unity-delaunay/Delaunay/HalfedgePriorityQueue.cs:58-59 | The queue's order (ystar, then vertex x) is transitive. |
| PriorityQueues.GoesAfter | unity2DDestruction/Assets/2D_Destruction/Unity-delaunay/Delaunay/HalfedgePriorityQueue.cs:58-59 | The insertion walk passes a queued halfedge exactly when the new key is strictly greater. |
| PriorityQueues.NewQueue | unity2DDestruction/Assets/2D_Destruction/Unity-delaunay/Delaunay/HalfedgePriorityQueue.cs:18-48 | A new queue has `4 sqrt_nsites` empty buckets headed by dummies, count 0 and minimum bucket 0. |
| PriorityQueues.EmptyIff | unity2DDestruction/Assets/2D_Destruction/Unity-delaunay/Delaunay/HalfedgePriorityQueue.cs:111-114 | `Empty` (the count is 0) holds exactly when every bucket chain is empty. |
| PriorityQueues.QueueBucket | unity2DDestruction/Assets/2D_Destruction/Unity-delaunay/Delaunay/HalfedgePriorityQueue.cs:85-93 | The bucket of a key is always a valid bucket index. |
| PriorityQueues.QueueBucketMonotone | unity2DDestruction/Assets/2D_Destruction/Unity-delaunay/Delaunay/HalfedgePriorityQueue.cs:85-93 | With a non-negative bucket height, a larger ystar never goes into an earlier bucket. |
| PriorityQueues.FirstBucketLeast | unity2DDestruction/Assets/2D_Destruction/Unity-delaunay/Delaunay/HalfedgePriorityQueue.cs:85-125 | The head of the first non-empty bucket has a key no greater than that of any queued halfedge in any bucket. |
| PriorityQueues.InsertByKeySorted | unity2DDestruction/Assets/2D_Destruction/Unity-delaunay/Delaunay/HalfedgePriorityQueue.cs:57-63 | Inserting by key into a sorted bucket chain keeps it sorted. |
| PriorityQueues.InsertFromCorrect | unity2DDestruction/Assets/2D_Destruction/Unity-delaunay/Delaunay/HalfedgePriorityQueue.cs:57-63 | The walk along a chain ends, and the halfedge is linked in at its key's place. Only links change, and only along that chain. |
| PriorityQueues.Insert | unity2DDestruction/Assets/2D_Destruction/Unity-delaunay/Delaunay/HalfedgePriorityQueue.cs:50-65 | Insertion raises the count by one and lowers the minimum bucket to the new key's bucket when that comes earlier. |
| PriorityQueues.InsertCorrect | unity2DDestruction/Assets/2D_Destruction/Unity-delaunay/Delaunay/HalfedgePriorityQueue.cs:50-65 | For a halfedge not in the queue, insertion always succeeds and adds it to its bucket's chain in key order. The queue invariant is kept. |
| PriorityQueues.FindPrevious | unity2DDestruction/Assets/2D_Destruction/Unity-delaunay/Delaunay/HalfedgePriorityQueue.cs:73-76 | A predecessor found by the removal walk links to the halfedge. |
| PriorityQueues.FindPreviousCorrect | unity2DDestruction/Assets/2D_Destruction/Unity-delaunay/Delaunay/HalfedgePriorityQueue.cs:73-77 | In a chain that holds the halfedge, the walk always finds its predecessor. Unlinking there leaves the chain without it. |
| PriorityQueues.Remove | unity2DDestruction/Assets/2D_Destruction/Unity-delaunay/Delaunay/HalfedgePriorityQueue.cs:67-83 | A halfedge without a vertex is not in the queue and nothing changes. Otherwise the count drops by one, the halfedge loses its vertex and link and is disposed, and no other halfedge changes beyond a link. |
| PriorityQueues.RemoveCorrect | unity2DDestruction/Assets/2D_Destruction/Unity-delaunay/Delaunay/HalfedgePriorityQueue.cs:67-83 | Removing a queued halfedge always succeeds, takes it out of its bucket and out of the queue, and keeps the queue invariant. |
| PriorityQueues.AdjustMinBucket | unity2DDestruction/Assets/2D_Destruction/Unity-delaunay/Delaunay/HalfedgePriorityQueue.cs:104-109 | The minimum bucket only moves forward, past empty buckets only. It stops at a non-empty bucket or at the last one. |
| PriorityQueues.MinIsLeast | unity2DDestruction/Assets/2D_Destruction/Unity-delaunay/Delaunay/HalfedgePriorityQueue.cs:120-125 | On a non-empty queue `Min` reports the key `(vertex x, ystar)` of a queued halfedge whose key is least among all queued halfedges. |
| PriorityQueues.ExtractMin | unity2DDestruction/Assets/2D_Destruction/Unity-delaunay/Delaunay/HalfedgePriorityQueue.cs:132-144 | The first halfedge of the minimum bucket is unlinked and returned, and the count drops by one. |
| PriorityQueues.ExtractMinCorrect | unity2DDestruction/Assets/2D_Destruction/Unity-delaunay/Delaunay/HalfedgePriorityQueue.cs:132-144 | On a queue whose minimum bucket holds something, the result is that bucket's first (least) halfedge. The rest stays a valid queue without it. |
| Reorderer.PassFrom | unity2DDestruction/Assets/2D_Destruction/Unity-delaunay/Delaunay/EdgeReorderer.cs:84-118 | One pass over the unplaced edges keeps the partial chain valid and never un-places an edge. The valid chain is: consecutive edges meet, the placed edges are a sub-multiset of the input, and no placed edge is unbounded. A pass that stops early has met an unbounded edge. |
| Reorderer.PlaceOk | unity2DDestruction/Assets/2D_Destruction/Unity-delaunay/Delaunay/EdgeReorderer.cs:94-114 | Placing an edge by whichever of the four end matches applies (or none) keeps the chain valid. |
| Reorderer.AppendOk | unity2DDestruction/Assets/2D_Destruction/Unity-delaunay/Delaunay/EdgeReorderer.cs:94-98 | Appending an edge whose entry meets the chain's last point keeps the chain valid. |
| Reorderer.PrependOk | unity2DDestruction/Assets/2D_Destruction/Unity-delaunay/Delaunay/EdgeReorderer.cs:99-108 | Prepending an edge whose exit meets the chain's first point keeps the chain valid. |
| Reorderer.Start | unity2DDestruction/Assets/2D_Destruction/Unity-delaunay/Delaunay/EdgeReorderer.cs:69-81 | The first edge, walked `LEFT`, is a valid chain on its own. |
| Reorderer.ReorderEdges | unity2DDestruction/Assets/2D_Destruction/Unity-delaunay/Delaunay/EdgeReorderer.cs:56-122 | An unbounded first edge abandons at once, with no edges and the single orientation `LEFT`. |
| Reorderer.NewReorderer | unity2DDestruction/Assets/2D_Destruction/Unity-delaunay/Delaunay/EdgeReorderer.cs:41-48 | No edges give two empty lists. |
| Reorderer.PassesCorrect | unity2DDestruction/Assets/2D_Destruction/Unity-delaunay/Delaunay/EdgeReorderer.cs:83-121 | The outer loop ends in one of two ways. It returns a permutation of the input, chained end to end, when no edge is unbounded. Or it abandons with no edges, having met an unbounded one. |
| Reorderer.ReorderCorrect | unity2DDestruction/Assets/2D_Destruction/Unity-delaunay/Delaunay/EdgeReorderer.cs:41-122 | The reordered edges are empty exactly when some edge is unbounded. Otherwise they are a permutation of the input, one orientation per edge, and consecutive edges meet at the criterion's ends. |
| Sites.NewSite | unity2DDestruction/Assets/2D_Destruction/Unity-delaunay/Delaunay/Site.cs:13-20 | A new site has the given coordinate, index and colour, no edges, and no cached orientations or region. |
| Sites.CompareTo | unity2DDestruction/Assets/2D_Destruction/Unity-delaunay/Delaunay/Site.cs:36-60 | The comparison is `CompareByYThenX`, and the two site indices are exchanged so that the lower site holds the smaller index. Nothing else changes. |
| Sites.CompareToSymmetric | unity2DDestruction/Assets/2D_Destruction/Unity-delaunay/Delaunay/Site.cs:36-60 | Comparing the other way round gives the negated result with the same index exchange. |
| Sites.SortSitesCorrect | unity2DDestruction/Assets/2D_Destruction/Unity-delaunay/Delaunay/Site.cs:22-60 | Sorting gives the sites in `(y, x)` order, as a permutation of coordinates and of indices. |
| Sites.CloseEnoughProperties | unity2DDestruction/Assets/2D_Destruction/Unity-delaunay/Delaunay/Site.cs:63-73 | `CloseEnough` is reflexive and symmetric, and close points differ by less than the epsilon in each coordinate. |
| Sites.NeighborSite | unity2DDestruction/Assets/2D_Destruction/Unity-delaunay/Delaunay/Site.cs:188-197 | A neighbour exists exactly when the site is one of the edge's two sites, and then the pair is the edge's two sites. |
| Sites.NeighborSiteInvolution | unity2DDestruction/Assets/2D_Destruction/Unity-delaunay/Delaunay/Site.cs:188-197 | The neighbour's neighbour across the same edge is the site itself. |
| Sites.ReorderSite | unity2DDestruction/Assets/2D_Destruction/Unity-delaunay/Delaunay/Site.cs:214-222 | Reordering a site's edges changes only its edges and orientations. When some edges remain, they are a permutation of the old ones. |
| Sites.NeighborSites | unity2DDestruction/Assets/2D_Destruction/Unity-delaunay/Delaunay/Site.cs:171-186 | One neighbour per edge, in the reordered edge order. The cached region is untouched. A site without edges has no neighbours. |
| Sites.NearestEdge | unity2DDestruction/Assets/2D_Destruction/Unity-delaunay/Delaunay/Site.cs:163-169 | With edges present, the result is one of the site's edges whose sites are closest together, and the edges are only permuted. Without edges the source indexes an empty list, which is `None` here. |
| Sites.Check | unity2DDestruction/Assets/2D_Destruction/Unity-delaunay/Delaunay/Site.cs:405-421 | Each of the four flags is set exactly when the point lies on the corresponding border. |
| Sites.Corners | unity2DDestruction/Assets/2D_Destruction/Unity-delaunay/Delaunay/Site.cs:283-354 | At most two points are inserted, each a corner of the bounds. |
| Sites.CornersFollowBorders | unity2DDestruction/Assets/2D_Destruction/Unity-delaunay/Delaunay/Site.cs:283-354 | Between two border points that share neither x nor y, the inserted corners make an axis-aligned path from one to the other. |
| Sites.CloseWith | unity2DDestruction/Assets/2D_Destruction/Unity-delaunay/Delaunay/Site.cs:365-368 | The far end is appended exactly when it is not close to the polygon's first point. |
| Sites.Connect | unity2DDestruction/Assets/2D_Destruction/Unity-delaunay/Delaunay/Site.cs:263-369 | `Connect` only appends. Each new point is the edge's near or far clipped end or a corner of the bounds, and no corner is added when the previous point meets the near end or shares a border line with it. Unless corners were walked while closing up, the far end comes last, or is left out when it meets the first point. |
| Sites.FirstVisible | unity2DDestruction/Assets/2D_Destruction/Unity-delaunay/Delaunay/Site.cs:230-232 | The first visible edge from a position, or the end of the list. |
| Sites.ConnectTraced | unity2DDestruction/Assets/2D_Destruction/Unity-delaunay/Delaunay/Site.cs:263-369 | Every point `Connect` appends is a clipped end of a visible edge or a corner of the bounds. |
| Sites.ClipToBounds | unity2DDestruction/Assets/2D_Destruction/Unity-delaunay/Delaunay/Site.cs:224-261 | The polygon is empty exactly when no edge is visible. Otherwise it starts with the first visible edge's two clipped ends, and every point is a clipped end or a corner. |
| Sites.TracedInside | unity2DDestruction/Assets/2D_Destruction/Unity-delaunay/Delaunay/Site.cs:224-261 | When every clipped end is in the bounds, every polygon point is. |
| Sites.Oriented | unity2DDestruction/Assets/2D_Destruction/Unity-delaunay/Delaunay/Site.cs:204-208 | A clockwise polygon is reversed, so the result is never clockwise and has the same points. |
| Sites.Region | unity2DDestruction/Assets/2D_Destruction/Unity-delaunay/Delaunay/Site.cs:199-212 | As written: a site without edges has the empty region. Any region computed is not clockwise, and the site stays well formed. |
| Sites.RegionCached | unity2DDestruction/Assets/2D_Destruction/Unity-delaunay/Delaunay/Site.cs:199-212 | As written, asking again returns the cached region. |
| Sites.RegionNullAfterNeighborSites | unity2DDestruction/Assets/2D_Destruction/Unity-delaunay/Delaunay/Site.cs:171-212 | A one-edge site whose neighbours were asked for first gets a null region. |
| Sites.RegionFixed | unity2DDestruction/Assets/2D_Destruction/Unity-delaunay/Delaunay/Site.cs:199-212 | Corrected: every result carries a region, which is never clockwise, and a cached region is returned as is. |
| Sites.RegionFixedAgrees | unity2DDestruction/Assets/2D_Destruction/Unity-delaunay/Delaunay/Site.cs:199-212 | On a fresh site the corrected region equals the one as written. After `NeighborSites` it still yields a region. |
| Sites.RegionFixedCached | unity2DDestruction/Assets/2D_Destruction/Unity-delaunay/Delaunay/Site.cs:199-212 | Asking the corrected `Region` again returns the same region. |
| SiteLists.NewSiteList | unity2DDestruction/Assets/2D_Destruction/Unity-delaunay/Delaunay/SiteList.cs:17-21 | A new list is empty and unsorted. |
| SiteLists.Add | unity2DDestruction/Assets/2D_Destruction/Unity-delaunay/Delaunay/SiteList.cs:35-40 | `Add` appends, marks the list unsorted and returns the new count. |
| SiteLists.Next | unity2DDestruction/Assets/2D_Destruction/Unity-delaunay/Delaunay/SiteList.cs:46-56 | `Next` hands out the site at the cursor and advances, or returns null past the end. |
| SiteLists.DrainCorrect | unity2DDestruction/Assets/2D_Destruction/Unity-delaunay/Delaunay/SiteList.cs:46-56 | Calling `Next` until null yields exactly the sites from the cursor on, in order. |
| SiteLists.SortOnce | unity2DDestruction/Assets/2D_Destruction/Unity-delaunay/Delaunay/SiteList.cs:58-64 | An unsorted list is sorted and its cursor reset. A sorted list is left as it is. The coordinates are only permuted. |
| SiteLists.BoundsSortOnce | unity2DDestruction/Assets/2D_Destruction/Unity-delaunay/Delaunay/SiteList.cs:58-64 | Sorting is idempotent: a second `GetSitesBounds` does not reorder. |
| SiteLists.GetSitesBounds | unity2DDestruction/Assets/2D_Destruction/Unity-delaunay/Delaunay/SiteList.cs:58-85 | No sites give the zero rectangle. Otherwise the rectangle contains every site, its y range is the first and last sorted sites' y, and its x range is attained by sites. |
| SiteLists.XRange | unity2DDestruction/Assets/2D_Destruction/Unity-delaunay/Delaunay/SiteList.cs:69-79 | The loop finds the least and greatest x among the sites, both attained. |
| SiteLists.SortedYBetween | unity2DDestruction/Assets/2D_Destruction/Unity-delaunay/Delaunay/SiteList.cs:80-82 | In `(y, x)` order the first site has the least y and the last the greatest. |
| SiteLists.SiteColors | unity2DDestruction/Assets/2D_Destruction/Unity-delaunay/Delaunay/SiteList.cs:87-96 | One colour per site, in list order. |
| SiteLists.SiteCoords | unity2DDestruction/Assets/2D_Destruction/Unity-delaunay/Delaunay/SiteList.cs:98-107 | One coordinate per site, in list order. |
| SiteLists.SiteCircle | unity2DDestruction/Assets/2D_Destruction/Unity-delaunay/Delaunay/SiteList.cs:119-127 | The circle is centred on the site. Its radius is 0 when the nearest edge is a hull edge and half that edge's site distance otherwise. |
| SiteLists.Circles | unity2DDestruction/Assets/2D_Destruction/Unity-delaunay/Delaunay/SiteList.cs:115-130 | Circles exist exactly when every site has an edge; otherwise `NearestEdge` faults. There is one circle per site. |
| SiteLists.CirclesCorrect | unity2DDestruction/Assets/2D_Destruction/Unity-delaunay/Delaunay/SiteList.cs:115-130 | Circle i is centred on site i. Its radius is 0, or half the site distance of a nearest non-hull edge. The site's edges are only permuted. |
| SiteLists.Regions | unity2DDestruction/Assets/2D_Destruction/Unity-delaunay/Delaunay/SiteList.cs:132-141 | As written: entry i is `Sites.Region` of site i, with site i updated by its cache. The list fails only when some site's reorderer fails. |
| SiteLists.RegionsNullEntry | unity2DDestruction/Assets/2D_Destruction/Unity-delaunay/Delaunay/SiteList.cs:132-141 | As written: a list holding one site whose neighbours were asked for first gets a null entry. |
| SiteLists.RegionsAgree | unity2DDestruction/Assets/2D_Destruction/Unity-delaunay/Delaunay/SiteList.cs:132-141 | On sites not yet reordered, as the constructor leaves them, the as-written and the corrected lists are equal. |
| SiteLists.RegionsFixed | unity2DDestruction/Assets/2D_Destruction/Unity-delaunay/Delaunay/SiteList.cs:132-141 | Corrected: entry i is `Sites.RegionFixed` of site i, with site i updated by its cache. |
| SiteLists.RegionsCached | unity2DDestruction/Assets/2D_Destruction/Unity-delaunay/Delaunay/SiteList.cs:132-141 | Corrected: every region is present and not clockwise. Asking for the regions again gives the same result. |
| SiteLists.RegionsFixpoint | unity2DDestruction/Assets/2D_Destruction/Unity-delaunay/Delaunay/SiteList.cs:132-141 | Corrected: sites whose regions are cached give back exactly those regions. |
| Helpers.VisibleLineSegments | unity2DDestruction/Assets/2D_Destruction/Unity-delaunay/Delaunay/DelaunayHelpers.cs:26-40 | No more segments than edges, each with both ends. |
| Helpers.VisibleLineSegmentsSound | unity2DDestruction/Assets/2D_Destruction/Unity-delaunay/Delaunay/DelaunayHelpers.cs:26-40 | Every segment is the clipped segment of a visible edge. |
| Helpers.VisibleLineSegmentsComplete | unity2DDestruction/Assets/2D_Destruction/Unity-delaunay/Delaunay/DelaunayHelpers.cs:26-40 | Every visible edge contributes its clipped segment. |
| Helpers.VisibleLineSegmentsAppend | unity2DDestruction/Assets/2D_Destruction/Unity-delaunay/Delaunay/DelaunayHelpers.cs:26-40 | The selection distributes over concatenation, so order is kept. |
| Helpers.SelectEdgesForSitePoint | unity2DDestruction/Assets/2D_Destruction/Unity-delaunay/Delaunay/DelaunayHelpers.cs:42-48 | An edge is selected exactly when one of its sites is at the given point. |
| Helpers.SelectIdempotent | unity2DDestruction/Assets/2D_Destruction/Unity-delaunay/Delaunay/DelaunayHelpers.cs:42-48 | Selecting twice selects the same edges. |
| Helpers.SelectAppend | unity2DDestruction/Assets/2D_Destruction/Unity-delaunay/Delaunay/DelaunayHelpers.cs:42-48 | Selection distributes over concatenation, so list order is kept. |
| Helpers.SelectNonIntersectingEdges | unity2DDestruction/Assets/2D_Destruction/Unity-delaunay/Delaunay/DelaunayHelpers.cs:50-55 | The keep-out mask is commented out, so every edge is returned unchanged. |
| Helpers.DelaunayLinesForEdges | unity2DDestruction/Assets/2D_Destruction/Unity-delaunay/Delaunay/DelaunayHelpers.cs:69-78 | Segment i joins the left and right sites of edge i. |
| Helpers.Root | unity2DDestruction/Assets/2D_Destruction/Unity-delaunay/Delaunay/DelaunayHelpers.cs:161-171 | Following parents from a node ends at a node that is its own parent. |
| Helpers.Find | unity2DDestruction/Assets/2D_Destruction/Unity-delaunay/Delaunay/DelaunayHelpers.cs:161-171 | `Find` returns the root. Path compression keeps every node's root and the forest's well-foundedness. |
| Helpers.CompressKeepsRoot | unity2DDestruction/Assets/2D_Destruction/Unity-delaunay/Delaunay/DelaunayHelpers.cs:166-168 | Pointing a node straight at its root changes no node's root. |
| Helpers.FindKeepsRoots | unity2DDestruction/Assets/2D_Destruction/Unity-delaunay/Delaunay/DelaunayHelpers.cs:161-171 | `Find` keeps the set of roots, and so the partition. |
| Helpers.MakeSet | unity2DDestruction/Assets/2D_Destruction/Unity-delaunay/Delaunay/DelaunayHelpers.cs:111-117 | A new node is its own root, and the old nodes' roots are kept. |
| Helpers.Union | unity2DDestruction/Assets/2D_Destruction/Unity-delaunay/Delaunay/DelaunayHelpers.cs:141-151 | The larger tree absorbs the smaller, the first on a tie, and the winner's size is the sum. |
| Helpers.LinkCorrect | unity2DDestruction/Assets/2D_Destruction/Unity-delaunay/Delaunay/DelaunayHelpers.cs:141-151 | After linking one root under another the forest stays well-founded. The loser is no longer a root, and every node of the loser's tree now has the winner as root. |
| Helpers.LinkCount | unity2DDestruction/Assets/2D_Destruction/Unity-delaunay/Delaunay/DelaunayHelpers.cs:141-151 | A union reduces the number of sets by one. |
| Helpers.Touch | unity2DDestruction/Assets/2D_Destruction/Unity-delaunay/Delaunay/DelaunayHelpers.cs:109-121 | A new endpoint gets a fresh set; a known one yields its root. |
| Helpers.TouchCount | unity2DDestruction/Assets/2D_Destruction/Unity-delaunay/Delaunay/DelaunayHelpers.cs:109-135 | Registering endpoints keeps nodes minus sets unchanged. |
| Helpers.TouchBoth | unity2DDestruction/Assets/2D_Destruction/Unity-delaunay/Delaunay/DelaunayHelpers.cs:109-135 | Both endpoints become nodes, and the roots of their sets are returned. |
| Helpers.KruskalStep | unity2DDestruction/Assets/2D_Destruction/Unity-delaunay/Delaunay/DelaunayHelpers.cs:107-152 | A segment is taken exactly when its endpoints lie in different sets. Taking it increases nodes minus sets by one. |
| Helpers.KruskalFromKeys | unity2DDestruction/Assets/2D_Destruction/Unity-delaunay/Delaunay/DelaunayHelpers.cs:106-153 | After the loop the nodes are exactly the segment endpoints. |
| Helpers.KruskalFromSubset | unity2DDestruction/Assets/2D_Destruction/Unity-delaunay/Delaunay/DelaunayHelpers.cs:106-153 | The chosen segments are a sub-multiset of the input. |
| Helpers.KruskalFromCount | unity2DDestruction/Assets/2D_Destruction/Unity-delaunay/Delaunay/DelaunayHelpers.cs:106-153 | Every chosen segment merges two sets, so the number chosen equals nodes minus sets. |
| Helpers.LengthOrdersArePreorders | unity2DDestruction/Assets/2D_Destruction/Unity-delaunay/geom/LineSegment.cs:10-26 | Both length comparisons are total preorders on complete segments. |
| Helpers.VisitOrder | unity2DDestruction/Assets/2D_Destruction/Unity-delaunay/Delaunay/DelaunayHelpers.cs:91-106 | On complete segments, traversing the sorted list backwards visits them by squared length, shortest first for `MINIMUM` and longest first for `MAXIMUM`, as a permutation of the input. |
| Helpers.Kruskal | unity2DDestruction/Assets/2D_Destruction/Unity-delaunay/Delaunay/DelaunayHelpers.cs:85-159 | On complete segments, the tree uses only given segments, and has at most one segment fewer than there are distinct endpoints. |
| Voronoi.AddSite | unity2DDestruction/Assets/2D_Destruction/Unity-delaunay/Delaunay/Voronoi.cs:85-93 | A point already registered is ignored. A new point becomes a new site with its index and colour, appended and indexed by its coordinate. |
| Voronoi.AddSiteRegistered | unity2DDestruction/Assets/2D_Destruction/Unity-delaunay/Delaunay/Voronoi.cs:85-93 | Registration keeps the list and the location index in step, one site per coordinate. |
| Voronoi.AddSites | unity2DDestruction/Assets/2D_Destruction/Unity-delaunay/Delaunay/Voronoi.cs:77-83 | A colour list shorter than the points faults (`None`). Otherwise a consistent registry results. |
| Voronoi.AddSitesCorrect | unity2DDestruction/Assets/2D_Destruction/Unity-delaunay/Delaunay/Voronoi.cs:77-93 | There is one site per distinct point, made from its first occurrence with that position as index and colour. Sites come in order of first occurrence, and the location index holds exactly the given points. |
| Voronoi.LeftRegion | unity2DDestruction/Assets/2D_Destruction/Unity-delaunay/Delaunay/Voronoi.cs:380-387 | A beach end borders the bottom-most site. A live halfedge borders one of its edge's sites. |
| Voronoi.RightRegion | unity2DDestruction/Assets/2D_Destruction/Unity-delaunay/Delaunay/Voronoi.cs:389-396 | A beach end borders the bottom-most site. A live halfedge borders one of its edge's sites. |
| Voronoi.RegionsOfLiveHalfedge | unity2DDestruction/Assets/2D_Destruction/Unity-delaunay/Delaunay/Voronoi.cs:380-396 | The left region of a `LEFT` halfedge is its edge's left site, and its right region the right site. A `RIGHT` halfedge has them swapped. The two differ, and the right region is the left region of the opposite halfedge. |
| Voronoi.NextEvent | unity2DDestruction/Assets/2D_Destruction/Unity-delaunay/Delaunay/Voronoi.cs:252-258 | A site event happens exactly when a site waits and comes before the queue minimum (or the queue is empty). A circle event happens exactly when the queue is non-empty and no earlier site waits. The loop stops exactly when neither is left. |
| Voronoi.NextEventInSweepOrder | unity2DDestruction/Assets/2D_Destruction/Unity-delaunay/Delaunay/Voronoi.cs:252-258 | The event handled first is never above the other in `(y, x)` order. |
| Voronoi.KeyLeIsYThenX | unity2DDestruction/Assets/2D_Destruction/Unity-delaunay/Delaunay/Voronoi.cs:253-258 | The queue's key order is the `(y, x)` order on the points `Min` reports. |
| Voronoi.MinQueued | unity2DDestruction/Assets/2D_Destruction/Unity-delaunay/Delaunay/Voronoi.cs:253-255 | The result is the position of a queued halfedge with the least key, the leftmost on ties, or none when nothing is queued. |
| Voronoi.QueueMin | unity2DDestruction/Assets/2D_Destruction/Unity-delaunay/Delaunay/Voronoi.cs:253-255 | The queue is empty exactly when no beach halfedge has a vertex. |
| Voronoi.Start | unity2DDestruction/Assets/2D_Destruction/Unity-delaunay/Delaunay/Voronoi.cs:241-251 | The sweep begins with the two beach ends and no edges or triangles. The first sorted site is the bottom-most site, and the rest are still to come. |
| Voronoi.LeftNeighbor | unity2DDestruction/Assets/2D_Destruction/Unity-delaunay/Delaunay/Voronoi.cs:263-265 | The left neighbour of a new site is left of it (or is the left end), and the next halfedge is not (or is the right end). |
| Voronoi.Resolve | unity2DDestruction/Assets/2D_Destruction/Unity-delaunay/Delaunay/Voronoi.cs:283-288 | A found vertex becomes the halfedge's vertex with key `(x, y + dist)`. Without one, the halfedge is unchanged. |
| Voronoi.BottomSite | unity2DDestruction/Assets/2D_Destruction/Unity-delaunay/Delaunay/Voronoi.cs:267 | The region a new site falls into belongs to a site no longer waiting. |
| Voronoi.SiteStep | unity2DDestruction/Assets/2D_Destruction/Unity-delaunay/Delaunay/Voronoi.cs:259-306 | A site event hands out one site and adds one edge bisecting the bottom site and the new site, with no vertices yet. It adds two halfedges and no triangle. |
| Voronoi.SiteStepBeach | unity2DDestruction/Assets/2D_Destruction/Unity-delaunay/Delaunay/Voronoi.cs:276-296 | The new edge's `LEFT` and `RIGHT` halfedges go in right of the left neighbour, and nothing else on the beach moves. |
| Voronoi.SiteStepVertices | unity2DDestruction/Assets/2D_Destruction/Unity-delaunay/Delaunay/Voronoi.cs:283-304 | The new `LEFT` halfedge has no vertex. The left neighbour and the new `RIGHT` halfedge gain only finite vertices, and the new `RIGHT` halfedge gains none when it is next to the right end. |
| Voronoi.SiteStepOk | unity2DDestruction/Assets/2D_Destruction/Unity-delaunay/Delaunay/Voronoi.cs:259-306 | A site event keeps the sweep invariant. The invariant: beach ends in place, every inner halfedge on a recorded well-formed bisector of swept sites, waiting sites distinct and unswept. |
| Voronoi.CirclePosition | unity2DDestruction/Assets/2D_Destruction/Unity-delaunay/Delaunay/Voronoi.cs:309-312 | The least queued halfedge has a left neighbour and two right neighbours on the beach. |
| Voronoi.CloseEdge | unity2DDestruction/Assets/2D_Destruction/Unity-delaunay/Delaunay/Voronoi.cs:321-322 | Setting a vertex on the edge under a halfedge changes that edge's vertex at that side only. |
| Voronoi.CircleStep | unity2DDestruction/Assets/2D_Destruction/Unity-delaunay/Delaunay/Voronoi.cs:308-351 | A circle event adds one triangle of the three regions, one edge and one halfedge, and shortens the beach by one. It is `None` exactly when the outer regions coincide. |
| Voronoi.CircleStepCloses | unity2DDestruction/Assets/2D_Destruction/Unity-delaunay/Delaunay/Voronoi.cs:319-322 | The vertex is numbered, and it ends the edges of `lbnd` and `rbnd` at their sides. No other edge changes. |
| Voronoi.CircleStepNewEdge | unity2DDestruction/Assets/2D_Destruction/Unity-delaunay/Delaunay/Voronoi.cs:326-338 | The new edge bisects the two outer regions, lower site first. Its end on the side opposite `CircleSide` (`RIGHT` exactly when the regions were swapped) is the event's vertex, and its end at `CircleSide` is open. |
| Voronoi.CircleStepBeach | unity2DDestruction/Assets/2D_Destruction/Unity-delaunay/Delaunay/Voronoi.cs:323-337 | `lbnd` and `rbnd` leave the beach and one halfedge takes their place. Everything else stays. |
| Voronoi.CircleStepJoin | unity2DDestruction/Assets/2D_Destruction/Unity-delaunay/Delaunay/Voronoi.cs:326-337 | The new halfedge runs along the new edge, right of `llbnd`. Its side is `CircleSide`, so the vertex sits at the other end of its edge. |
| Voronoi.CircleStepLeftEnd | unity2DDestruction/Assets/2D_Destruction/Unity-delaunay/Delaunay/Voronoi.cs:337-345 | When the event is next to the left end, the left end stays as it is. |
| Voronoi.CircleStepRightEnd | unity2DDestruction/Assets/2D_Destruction/Unity-delaunay/Delaunay/Voronoi.cs:346-351 | When the event is next to the right end, the new halfedge gets no vertex. |
| Voronoi.CircleStepVertices | unity2DDestruction/Assets/2D_Destruction/Unity-delaunay/Delaunay/Voronoi.cs:339-351 | Any vertex found for `llbnd` or the new halfedge is finite. |
| Voronoi.CircleStepOk | unity2DDestruction/Assets/2D_Destruction/Unity-delaunay/Delaunay/Voronoi.cs:308-351 | A circle event keeps the sweep invariant. |
| Voronoi.Run | unity2DDestruction/Assets/2D_Destruction/Unity-delaunay/Delaunay/Voronoi.cs:252-355 | When the loop ends, no site is waiting, the queue is empty, the sweep invariant holds, and every edge line made before is kept. |
| Voronoi.RunCounts | unity2DDestruction/Assets/2D_Destruction/Unity-delaunay/Delaunay/Voronoi.cs:249-355 | The counts invariant is kept. After h sites are handed out, there are `h - 1 + t` edges and `2(h - 1) + t` halfedges for t triangles, and the beach has `2h - t` halfedges. |
| Voronoi.RegionsFrom | unity2DDestruction/Assets/2D_Destruction/Unity-delaunay/Delaunay/Voronoi.cs:313-317 | The regions on either side of every beach halfedge are given sites. |
| Voronoi.RunFrom | unity2DDestruction/Assets/2D_Destruction/Unity-delaunay/Delaunay/Voronoi.cs:252-355 | Every edge of the finished sweep bisects two given sites, and every triangle joins three. |
| Voronoi.ClipAll | unity2DDestruction/Assets/2D_Destruction/Unity-delaunay/Delaunay/Voronoi.cs:367-371 | Every edge is clipped in place, keeping its line and vertices. For non-degenerate bounds, a visible edge's clipped ends are in the bounds. An edge whose vertices come in walk order is visible exactly when some point of it lies in the bounds. |
| Voronoi.SortedSites | unity2DDestruction/Assets/2D_Destruction/Unity-delaunay/Delaunay/SiteList.cs:58-64 | The sorted registry coordinates are distinct and registered, one per site. |
| Voronoi.SweepSites | unity2DDestruction/Assets/2D_Destruction/Unity-delaunay/Delaunay/Voronoi.cs:241-355 | When the sweep over the sorted sites finishes, none are waiting. The counts invariant holds, and every edge is a well-formed bisector of registered sites. |
| Voronoi.FortunesAlgorithm | unity2DDestruction/Assets/2D_Destruction/Unity-delaunay/Delaunay/Voronoi.cs:232-378 | The sites end sorted in `(y, x)` order and all handed out. With n sites there are `n - 1 + t` edges for t triangles, and `t <= 2(n - 1)`. Every edge bisects two distinct registered sites, every triangle joins registered sites, and every visible edge is clipped to the plot bounds. |
| Voronoi.NewVoronoi | unity2DDestruction/Assets/2D_Destruction/Unity-delaunay/Delaunay/Voronoi.cs:66-74 | Construction faults on a short colour list. Otherwise the counts hold with n the number of distinct points, and every edge and triangle is made of given points. |
| Voronoi.HullEdges | unity2DDestruction/Assets/2D_Destruction/Unity-delaunay/Delaunay/Voronoi.cs:164-169 | An edge is a hull edge exactly when it has an unbounded end. |
| Voronoi.HullPointsInOrder | unity2DDestruction/Assets/2D_Destruction/Unity-delaunay/Delaunay/Voronoi.cs:171-194 | No hull edges give no points. |
| Voronoi.SitesAlong | unity2DDestruction/Assets/2D_Destruction/Unity-delaunay/Delaunay/Voronoi.cs:188-192 | Point k is the site of hull edge k on its orientation's side. |
| Voronoi.HullPointsCorrect | unity2DDestruction/Assets/2D_Destruction/Unity-delaunay/Delaunay/Voronoi.cs:171-194 | There is one point per hull edge, and consecutive hull points are joined by a hull edge. |

## Left out

- The thin public accessors of `Voronoi` (`Voronoi.cs` 95-230: `Region`, `NeighborSitesForSite`, `Circles`, `VoronoiBoundaryForSite`, `DelaunayLinesForSite`, `VoronoiDiagram`, `DelaunayTriangulation`, `SpanningTree`, `Regions`, `SiteColors`, `SiteCoords`, `NearestSitePoint`, `Edges`, `Hull`): each is a one-line composition of modelled members. The exceptions are `HullEdges` and `HullPointsInOrder`, which are modelled.
- `NearestSitePoint` (`Voronoi.cs` 221-224) always returns null, so there is nothing to model.
- Object pools, `Dispose` cascades and the `_vertices` list: memory management with no effect on results. The model keeps the per-object `Dispose` functions (`Halfedges.Dispose`, `Triangles.Dispose`) but not the teardown at `Voronoi.cs` 357-366 and 372-377.
- `Site.AddEdge` calls made from `Edge.CreateBisectingEdge`: the sweep records edges in its own edge list, and a site's edge list is an input to `Sites` and `SiteLists`.
- Floating-point rounding and `float` width: coordinates are reals. `NaN` is handled only where the source tests for it (`Edges.CreateVertex`). `Vector2 ==` is exact equality.
- The random `weight` each site gets (`Voronoi.cs` line 89), which nothing in the core reads, and the Unity colour type: a colour is a `nat`.
- `Circle.cs` is a plain record (`Geom.Circle`).
- The bucket widths `deltax` and `deltay` of `EdgeList` and `HalfedgePriorityQueue` are parameters, and the ordering lemmas assume they are not negative. In the source they come from the sites' bounds.
- `List.Sort` is an insertion sort. The result is fixed only up to the order the comparison defines; where equal keys are possible, the exact indices after sorting are stated as a multiset (`Sites.SortSitesCorrect`).
- Halfedges.IsLeftOf: for `a == 1` only the two early exits are stated; the slope branch of `Halfedge.cs` 100-123 is computed but has no contract.
- Voronoi.MinQueued: among halfedges with equal keys it picks the leftmost on the beach line. The heap instead puts a new halfedge in front of the first equal key in its bucket chain, so it returns the most recently inserted one (`HalfedgePriorityQueue.cs` 58-63). The proved properties hold for any least key.
- Voronoi.LeftNeighbor: walks right from a given start to the first halfedge whose right neighbour is not left of the site, as `EdgeList` does after its hash lookup. The hash lookup and the leftward walk are modelled in `EdgeLists` only.
- Voronoi.CircleStep: is `None` when the two outer regions of an event coincide. The source would then build an edge from a site to itself and divide by zero in `Edge.CreateBisectingEdge`.
- Voronoi.Run: passes `None` through from `CircleStep`, so `SweepSites`, `FortunesAlgorithm` and `NewVoronoi` state their properties for the `Some` case.
- Voronoi.NewVoronoi: a colour list shorter than the points is `None`, standing for the source's index-out-of-range fault.
- EdgeLists.LeftNeighbor: the walk along links takes fuel; with fuel at least the list length it always succeeds (`EdgeLists.LeftNeighborCorrect`).
- PriorityQueues.Insert: the walk along a bucket chain takes fuel; with fuel above the queue size it always succeeds (`PriorityQueues.InsertCorrect`).
- PriorityQueues.Remove: the predecessor search takes fuel; with fuel at least the queue size it always succeeds (`PriorityQueues.RemoveCorrect`).
- Reorderer.ReorderEdges: the outer loop takes fuel and returns `None` where the source would loop forever on edges that never chain.
- Voronoi.HullPointsInOrder: returns `None` where the reorderer would loop forever. Its properties are stated in `Voronoi.HullPointsCorrect`.
- Sites.NearestEdge: a site without edges gives `None`, where the source indexes an empty list.
- Edges.ClipSeesEdge: the geometric reading of visibility is proved only for edges whose `vertex0` comes no later than `vertex1` along the walk. The model does not prove that the sweep builds only such edges. With the vertices the other way round, the source's tests compare the wrong levels; `Voronoi.ClipAll` carries the same hypothesis.
- Edges.ClipVertices: the choice of which clipped end is `LEFT` (`Edge.cs` 376-383) is stated only through `Edges.ClipKeepsInsideVertices`, which says an inside vertex is its own clipped end.
- Helpers.Kruskal: a segment with a missing end makes the source throw, through a null dictionary key and the nullable-point casts in the comparators (DelaunayHelpers.cs:110, LineSegment.cs:12-13). `Kruskal` and `VisitOrder` require complete segments instead of modelling that exception.
- Helpers.Kruskal: shortest-first and longest-first visiting is stated on `Helpers.VisitOrder`. The result is stated as a sub-multiset forest bound, not as minimum weight.
- EdgeLists.Trunc: C#'s `(int)` of a float beyond the 32-bit range, or of NaN, gives a platform-dependent value (`int.MinValue` on common x86 runtimes), so a far-out site could fall into the first bucket instead of the last. The model truncates an unbounded real and then clamps (`EdgeList.cs` 102).
- PriorityQueues.QueueBucket: the same out-of-range `(int)` cast is not modelled for a far-out `ystar` (`HalfedgePriorityQueue.cs` 87); the model's bucket is the truncated real, clamped.
- Halfedges.Intersect: a halfedge on `Edge.DELETED` gets no vertex, where the source would throw reading that edge's missing right site (`Edge.cs` 143, 218-221; `Vertex.cs` 84). The sweep never intersects such a halfedge.

## Findings

| source | as written | input that shows it | evidently intended | confidence | as-written member | corrected member |
|---|---|---|---|---|---|---|
| unity2DDestruction/Assets/2D_Destruction/Unity-delaunay/Delaunay/Site.cs:199-212 | `Region` computes and caches `_region` only when `_edgeOrientations` is null. `NeighborSites` (lines 176-178) sets the orientations without computing `_region`, so a later `Region` returns null. `Voronoi.cs` line 117 carries a TODO about this. | A site with one bounded edge: call `NeighborSites`, then `Region`. | Compute and cache the region whenever none is cached. | high, not executed | Sites.Region (shown by Sites.RegionNullAfterNeighborSites; in a list by SiteLists.Regions and SiteLists.RegionsNullEntry) | Sites.RegionFixed (with Sites.RegionFixedAgrees and Sites.RegionFixedCached; used by SiteLists.RegionsFixed, with SiteLists.RegionsCached and SiteLists.RegionsAgree) |
