/**
 * Voronoi edges and vertices (Delaunay/Edge.cs, Delaunay/Vertex.cs).
 *
 * An edge is the perpendicular bisector `a*x + b*y = c` of two sites, normalised so
 * that `a = 1` or `b = 1`, with two optional end vertices and, after clipping to a
 * rectangle, two clipped end points. The immutable part (sites and coefficients) is a
 * `Bisector`; halfedges of the sweep refer to it, while the vertex endpoints, which the
 * sweep sets later, live in the `Edge` record of the sweep's edge table.
 */
module Edges {
  import opened Wrappers
  import opened LR
  import opened Geom
  import opened Sorting

  // ----------------------------------------------------------------- Vertex

  /**
   * A Voronoi vertex. `AtInfinity` is the `VERTEX_AT_INFINITY` singleton; a finite
   * vertex's identity (C# reference identity) is its `id`.
   */
  datatype Vertex = AtInfinity | Finite(id: nat, coord: Point)

  /** A float coordinate as `Vertex.Create` receives it: a real number or NaN. */
  datatype Float = NaN | Num(value: real)

  /** `Vertex.Create`: any NaN coordinate yields the vertex at infinity. */
  function CreateVertex(x: Float, y: Float, id: nat): (v: Vertex)
    ensures v == AtInfinity <==> x.NaN? || y.NaN?
    ensures v.Finite? ==> v.id == id && v.coord == Point(x.value, y.value)
  {
    if x.NaN? || y.NaN? then AtInfinity else Finite(id, Point(x.value, y.value))
  }

  /**
   * The vertex numbering of `Vertex.SetIndex`: a shared counter (`_nvertices`) and the
   * index each numbered vertex received, keyed by vertex id.
   */
  datatype VertexNumbering = VertexNumbering(counter: nat, index: map<nat, nat>)

  /** Every index handed out so far is below the counter. */
  predicate NumberingBelowCounter(n: VertexNumbering) {
    forall id :: id in n.index ==> n.index[id] < n.counter
  }

  /**
   * `Vertex.SetIndex`: the vertex gets the current counter, which then moves on, so its
   * index is strictly greater than every index handed out before.
   */
  function SetIndex(n: VertexNumbering, id: nat): (r: VertexNumbering)
    requires NumberingBelowCounter(n)
    ensures NumberingBelowCounter(r)
    ensures id in r.index && r.index[id] == n.counter && r.counter == n.counter + 1
    ensures r.index.Keys == n.index.Keys + {id}
    ensures forall other :: other in n.index && other != id ==>
      other in r.index && r.index[other] == n.index[other] && r.index[other] < r.index[id]
  {
    VertexNumbering(n.counter + 1, n.index[id := n.counter])
  }

  // ------------------------------------------------------------------- Edge

  /** The sites an edge bisects and its line coefficients. */
  datatype Bisector = Bisector(id: nat, leftSite: Point, rightSite: Point, a: real, b: real, c: real)
  {
    /** `Edge.Site(side)`. */
    function Site(s: Side): Point {
      if s == LEFT then leftSite else rightSite
    }
  }

  /** `p` lies on the line `a*x + b*y = c`. */
  predicate OnLine(l: Bisector, p: Point) {
    l.a * p.x + l.b * p.y == l.c
  }

  /** The two clipped end points, keyed by side (`Edge.clippedEnds`). */
  datatype ClippedEnds = ClippedEnds(left: Point, right: Point)
  {
    function End(s: Side): Point {
      if s == LEFT then left else right
    }
  }

  datatype Edge = Edge(
    line: Bisector,
    leftVertex: Option<Vertex>,
    rightVertex: Option<Vertex>,
    clippedEnds: Option<ClippedEnds>)
  {
    /** `Edge.visible`: clipping left some part of the edge inside the bounds. */
    predicate Visible() { clippedEnds.Some? }
  }

  function Abs(r: real): real { if r > 0.0 then r else -r }

  /**
   * The right-hand side of the bisector equation `x*dx + y*dy = RawC` before it is
   * normalised, with `(dx, dy)` the direction from `site0` to `site1`.
   */
  function RawC(site0: Point, site1: Point): real {
    var dx := site1.x - site0.x;
    var dy := site1.y - site0.y;
    site0.x * dx + site0.y * dy + (dx * dx + dy * dy) * 0.5
  }

  /**
   * The line coefficients `CreateBisectingEdge` computes for `site0` and `site1`: the raw
   * equation divided by whichever of `dx`, `dy` is larger in magnitude.
   */
  function BisectorLine(site0: Point, site1: Point, id: nat): (l: Bisector)
    requires site0 != site1
    ensures l.leftSite == site0 && l.rightSite == site1 && l.id == id
    ensures Abs(site1.x - site0.x) > Abs(site1.y - site0.y) ==>
      l.a == 1.0 && l.b * (site1.x - site0.x) == site1.y - site0.y && l.c * (site1.x - site0.x) == RawC(site0, site1)
    ensures Abs(site1.x - site0.x) <= Abs(site1.y - site0.y) ==>
      l.b == 1.0 && l.a * (site1.y - site0.y) == site1.x - site0.x && l.c * (site1.y - site0.y) == RawC(site0, site1)
  {
    var dx := site1.x - site0.x;
    var dy := site1.y - site0.y;
    var c := RawC(site0, site1);
    if Abs(dx) > Abs(dy) then
      Bisector(id, site0, site1, 1.0, dy / dx, c / dx)
    else
      assert dy != 0.0;
      Bisector(id, site0, site1, dx / dy, 1.0, c / dy)
  }

  /**
   * `Edge.CreateBisectingEdge`: a new edge from `site0` (left) to `site1` (right) with
   * no vertices and no clipped ends.
   */
  function CreateBisectingEdge(site0: Point, site1: Point, id: nat): (e: Edge)
    requires site0 != site1
    ensures e.line.leftSite == site0 && e.line.rightSite == site1 && e.line.id == id
    ensures e.leftVertex.None? && e.rightVertex.None? && !e.Visible()
    ensures Abs(site1.x - site0.x) > Abs(site1.y - site0.y) ==> e.line.a == 1.0
    ensures Abs(site1.x - site0.x) <= Abs(site1.y - site0.y) ==> e.line.b == 1.0
    ensures Normalised(e.line)
  {
    Edge(BisectorLine(site0, site1, id), None, None, None)
  }

  /** The line is the normalised bisector of its two (distinct) sites. */
  predicate Normalised(l: Bisector) {
    l.leftSite != l.rightSite && l == BisectorLine(l.leftSite, l.rightSite, l.id)
  }

  /** A normalised line has `a = 1` or `b = 1`, and `a = 1` leaves the sites' x apart. */
  lemma NormalisedCoefficients(l: Bisector)
    requires Normalised(l)
    ensures l.a == 1.0 || l.b == 1.0
    ensures l.a == 1.0 ==> l.rightSite.x != l.leftSite.x
  {
    var dx := l.rightSite.x - l.leftSite.x;
    var dy := l.rightSite.y - l.leftSite.y;
    if Abs(dx) <= Abs(dy) && l.a == 1.0 {
      assert dx / dy == 1.0;
      assert dx == dy;
    }
  }

  /**
   * A point lies on the normalised line exactly when it satisfies the raw equation
   * `x*dx + y*dy = RawC` computed from the sites, before the division by `dx` or `dy`.
   */
  lemma OnBisectorIff(site0: Point, site1: Point, id: nat, p: Point)
    requires site0 != site1
    ensures OnLine(BisectorLine(site0, site1, id), p)
      <==> p.x * (site1.x - site0.x) + p.y * (site1.y - site0.y) == RawC(site0, site1)
  {
    if Abs(site1.x - site0.x) > Abs(site1.y - site0.y) {
      OnBisectorIffByX(site0, site1, id, p);
    } else {
      OnBisectorIffByY(site0, site1, id, p);
    }
  }

  lemma OnBisectorIffByX(site0: Point, site1: Point, id: nat, p: Point)
    requires site0 != site1 && Abs(site1.x - site0.x) > Abs(site1.y - site0.y)
    ensures OnLine(BisectorLine(site0, site1, id), p)
      <==> p.x * (site1.x - site0.x) + p.y * (site1.y - site0.y) == RawC(site0, site1)
  {
    ScaledByX(BisectorLine(site0, site1, id), p, site1.x - site0.x, site1.y - site0.y, RawC(site0, site1));
  }

  lemma OnBisectorIffByY(site0: Point, site1: Point, id: nat, p: Point)
    requires site0 != site1 && Abs(site1.x - site0.x) <= Abs(site1.y - site0.y)
    ensures OnLine(BisectorLine(site0, site1, id), p)
      <==> p.x * (site1.x - site0.x) + p.y * (site1.y - site0.y) == RawC(site0, site1)
  {
    ScaledByY(BisectorLine(site0, site1, id), p, site1.x - site0.x, site1.y - site0.y, RawC(site0, site1));
  }

  /** A line `x + b*y = c` with `b = dy/dx` and `c = c0/dx` is the line `x*dx + y*dy = c0`. */
  lemma ScaledByX(l: Bisector, p: Point, dx: real, dy: real, c0: real)
    requires dx != 0.0 && l.a == 1.0 && l.b * dx == dy && l.c * dx == c0
    ensures OnLine(l, p) <==> p.x * dx + p.y * dy == c0
  {
    assert (p.x + l.b * p.y) * dx == p.x * dx + p.y * dy;
    if p.x * dx + p.y * dy == c0 {
      MulCancel(p.x + l.b * p.y, l.c, dx);
    }
  }

  /** A line `a*x + y = c` with `a = dx/dy` and `c = c0/dy` is the line `x*dx + y*dy = c0`. */
  lemma ScaledByY(l: Bisector, p: Point, dx: real, dy: real, c0: real)
    requires dy != 0.0 && l.b == 1.0 && l.a * dy == dx && l.c * dy == c0
    ensures OnLine(l, p) <==> p.x * dx + p.y * dy == c0
  {
    assert (l.a * p.x + p.y) * dy == p.x * dx + p.y * dy;
    if p.x * dx + p.y * dy == c0 {
      MulCancel(l.a * p.x + p.y, l.c, dy);
    }
  }

  lemma MulCancel(x: real, y: real, d: real)
    requires d != 0.0 && x * d == y * d
    ensures x == y
  {
    assert (x - y) * d == 0.0;
  }

  /** The midpoint of the two sites lies on the bisector line. */
  lemma MidpointOnBisector(site0: Point, site1: Point, id: nat)
    requires site0 != site1
    ensures OnLine(BisectorLine(site0, site1, id), Point((site0.x + site1.x) / 2.0, (site0.y + site1.y) / 2.0))
  {
    var dx := site1.x - site0.x;
    var dy := site1.y - site0.y;
    var m := Point((site0.x + site1.x) / 2.0, (site0.y + site1.y) / 2.0);
    assert m.x == site0.x + dx / 2.0 && m.y == site0.y + dy / 2.0;
    MidpointDot(site0.x, site0.y, dx, dy);
    OnBisectorIff(site0, site1, id, m);
  }

  /** The bisector is the set of points equally far from both sites. */
  lemma BisectorEquidistant(site0: Point, site1: Point, id: nat, p: Point)
    requires site0 != site1
    ensures OnLine(BisectorLine(site0, site1, id), p) <==> SqDist(p, site0) == SqDist(p, site1)
  {
    OnBisectorIff(site0, site1, id, p);
    SqDistDifference(p, site0, site1);
  }

  /** How much farther `p` is from `site0` than from `site1`, against the raw bisector equation. */
  lemma SqDistDifference(p: Point, site0: Point, site1: Point)
    ensures SqDist(p, site0) - SqDist(p, site1)
      == 2.0 * (p.x * (site1.x - site0.x) + p.y * (site1.y - site0.y) - RawC(site0, site1))
  {
    var dx := site1.x - site0.x;
    var dy := site1.y - site0.y;
    SquareDifference(p.x, site0.x, site1.x);
    SquareDifference(p.y, site0.y, site1.y);
    RawCDouble(site0.x, site0.y, dx, dy);
    assert site0.x + site1.x == 2.0 * site0.x + dx;
    assert site0.y + site1.y == 2.0 * site0.y + dy;
  }

  lemma RawCDouble(x: real, y: real, dx: real, dy: real)
    ensures 2.0 * (x * dx + y * dy + (dx * dx + dy * dy) * 0.5) == dx * (2.0 * x + dx) + dy * (2.0 * y + dy)
  {
  }

  lemma SquareDifference(u: real, a: real, b: real)
    ensures (u - a) * (u - a) - (u - b) * (u - b) == 2.0 * u * (b - a) - (b - a) * (a + b)
  {
    assert (u - a) * (u - a) == u * u - 2.0 * u * a + a * a;
    assert (u - b) * (u - b) == u * u - 2.0 * u * b + b * b;
    assert (b - a) * (a + b) == b * b - a * a;
    assert 2.0 * u * (b - a) == 2.0 * u * b - 2.0 * u * a;
  }

  lemma MidpointDot(x: real, y: real, dx: real, dy: real)
    ensures (x + dx / 2.0) * dx + (y + dy / 2.0) * dy == x * dx + y * dy + (dx * dx + dy * dy) * 0.5
  {
    assert (x + dx / 2.0) * dx == x * dx + (dx * dx) * 0.5;
    assert (y + dy / 2.0) * dy == y * dy + (dy * dy) * 0.5;
  }

  /** The normal `(a, b)` of the bisector is parallel to the direction between the sites. */
  lemma BisectorPerpendicular(site0: Point, site1: Point, id: nat)
    requires site0 != site1
    ensures var l := BisectorLine(site0, site1, id);
      l.a * (site1.y - site0.y) == l.b * (site1.x - site0.x)
  {
  }

  /** `Edge.Vertex(side)`. */
  function VertexAt(e: Edge, s: Side): Option<Vertex> {
    if s == LEFT then e.leftVertex else e.rightVertex
  }

  /** `Edge.SetVertex(side, v)`: sets one end and leaves everything else as it was. */
  function SetVertex(e: Edge, s: Side, v: Option<Vertex>): (r: Edge)
    ensures VertexAt(r, s) == v
    ensures VertexAt(r, Other(s)) == VertexAt(e, Other(s))
    ensures r.line == e.line && r.clippedEnds == e.clippedEnds
  {
    if s == LEFT then e.(leftVertex := v) else e.(rightVertex := v)
  }

  /** `Edge.IsPartOfConvexHull`: some end of the edge is still unbounded. */
  predicate IsPartOfConvexHull(e: Edge) {
    e.leftVertex.None? || e.rightVertex.None?
  }

  /** An edge becomes interior exactly when both of its ends have been set. */
  lemma HullUntilBothEndsSet(e: Edge, s: Side, v: Vertex)
    ensures !IsPartOfConvexHull(SetVertex(e, s, Some(v))) <==> VertexAt(e, Other(s)).Some?
  {
  }

  /** `Edge.DelaunayLine`: the segment between the two sites. */
  function DelaunayLine(e: Edge): (s: LineSegment)
    ensures s.Complete()
    ensures s.p0 == Some(e.line.leftSite) && s.p1 == Some(e.line.rightSite)
  {
    LineSegment(Some(e.line.leftSite), Some(e.line.rightSite))
  }

  /** The squared distance between the edge's two sites (`Edge.SitesDistance` squared). */
  function SqSitesDistance(e: Edge): real {
    SqDist(e.line.leftSite, e.line.rightSite)
  }

  /**
   * `Edge.CompareSitesDistances_MAX` on squared distances (the square root is monotone):
   * 1 when the first edge's sites are closer together.
   */
  function CompareSitesDistancesMax(e0: Edge, e1: Edge): (r: int)
    ensures r == 1 <==> SqSitesDistance(e0) < SqSitesDistance(e1)
    ensures r == -1 <==> SqSitesDistance(e0) > SqSitesDistance(e1)
    ensures r == 0 <==> SqSitesDistance(e0) == SqSitesDistance(e1)
  {
    var l0 := SqSitesDistance(e0);
    var l1 := SqSitesDistance(e1);
    if l0 < l1 then 1 else if l0 > l1 then -1 else 0
  }

  /** `Edge.CompareSitesDistances`: closest sites first. */
  function CompareSitesDistances(e0: Edge, e1: Edge): (r: int)
    ensures r == -CompareSitesDistancesMax(e0, e1)
    ensures r < 0 <==> SqSitesDistance(e0) < SqSitesDistance(e1)
  {
    -CompareSitesDistancesMax(e0, e1)
  }

  /** `CompareSitesDistances` orders edges by a total preorder, so sorting by it is defined. */
  lemma CompareSitesDistancesPreorder()
    ensures TotalPreorder(CompareSitesDistances)
  {
  }

  // --------------------------------------------------------------- Clipping

  /**
   * The vertex is set, finite, and its y lies above `bound` (resp. below it); the vertex
   * at infinity has NaN coordinates, for which every comparison is false.
   */
  predicate FiniteAbove(v: Option<Vertex>, bound: real) {
    v.Some? && v.value.Finite? && v.value.coord.y > bound
  }

  predicate FiniteBelow(v: Option<Vertex>, bound: real) {
    v.Some? && v.value.Finite? && v.value.coord.y < bound
  }

  /** The end vertices in the order `ClipVertices` walks them (`vertex0`, `vertex1`). */
  function ClipOrder(e: Edge): (Option<Vertex>, Option<Vertex>) {
    if e.line.a == 1.0 && e.line.b >= 0.0 then (e.rightVertex, e.leftVertex)
    else (e.leftVertex, e.rightVertex)
  }

  /**
   * The `a = 1` branch of `ClipVertices`: the line is `x = c - b*y`; walk up from
   * `vertex0` (or the bottom of the bounds) to `vertex1` (or the top), then pull the
   * ends that fall outside `[xMin, xMax]` back onto the vertical borders.
   */
  function ClipAlongY(l: Bisector, v0: Option<Vertex>, v1: Option<Vertex>, bounds: Rect): (r: Option<(Point, Point)>)
    requires l.a == 1.0
    ensures r.Some? ==> OnLine(l, r.value.0) && OnLine(l, r.value.1)
    ensures r.Some? && bounds.width >= 0.0 ==> bounds.Contains(r.value.0) && bounds.Contains(r.value.1)
  {
    var y0 := if FiniteAbove(v0, bounds.yMin()) then v0.value.coord.y else bounds.yMin();
    var y1 := if FiniteBelow(v1, bounds.yMax()) then v1.value.coord.y else bounds.yMax();
    if y0 > bounds.yMax() || y1 < bounds.yMin() then None
    else ClipSpanY(l, y0, y1, bounds)
  }

  /** The `a = 1` branch once the walk's start `y0` and end `y1` are fixed inside `[yMin, yMax]`. */
  function ClipSpanY(l: Bisector, y0: real, y1: real, bounds: Rect): (r: Option<(Point, Point)>)
    requires l.a == 1.0
    requires bounds.yMin() <= y0 <= bounds.yMax() && bounds.yMin() <= y1 <= bounds.yMax()
    ensures r.Some? ==> OnLine(l, r.value.0) && OnLine(l, r.value.1)
    ensures r.Some? && bounds.width >= 0.0 ==> bounds.Contains(r.value.0) && bounds.Contains(r.value.1)
    ensures bounds.xMin() <= l.c - l.b * y0 <= bounds.xMax() ==> r.Some? && r.value.0 == Point(l.c - l.b * y0, y0)
    ensures bounds.xMin() <= l.c - l.b * y1 <= bounds.xMax() ==> r.Some? && r.value.1 == Point(l.c - l.b * y1, y1)
    ensures r.Some? ==> (y0 <= r.value.0.y <= y1 || y1 <= r.value.0.y <= y0)
  {
    var xmin, xmax := bounds.xMin(), bounds.xMax();
    var x0 := l.c - l.b * y0;
    var x1 := l.c - l.b * y1;
    if (x0 > xmax && x1 > xmax) || (x0 < xmin && x1 < xmin) then None
    else
      var p0 := PullToX(l, x0, y0, x1, y1, xmin, xmax);
      var p1 := PullToX(l, x1, y1, x0, y0, xmin, xmax);
      Some((p0, p1))
  }

  /**
   * One end of the `a = 1` branch: an `x` beyond a vertical border is replaced by the
   * border and `y` is recomputed from the line. The other end `(ox, oy)` is not beyond the
   * same border, so the crossing lies between the two ends.
   */
  function PullToX(l: Bisector, x: real, y: real, ox: real, oy: real, xmin: real, xmax: real): (p: Point)
    requires l.a == 1.0 && x == l.c - l.b * y && ox == l.c - l.b * oy
    requires !(x > xmax && ox > xmax) && !(x < xmin && ox < xmin)
    ensures OnLine(l, p)
    ensures xmin <= xmax ==> xmin <= p.x <= xmax
    ensures (y <= p.y <= oy) || (oy <= p.y <= y)
    ensures xmin <= x <= xmax ==> p == Point(x, y)
  {
    if x > xmax then
      AtLevelX(l, y, oy, xmax)
    else if x < xmin then
      AtLevelX(l, y, oy, xmin)
    else Point(x, y)
  }

  /**
   * The other branch of `ClipVertices` (the normalisation made `b = 1`): the line is
   * `y = c - a*x`; walk right from `vertex0` (or the left border) to `vertex1` (or the
   * right border), then pull the ends outside `[yMin, yMax]` back onto the horizontal borders.
   */
  function ClipAlongX(l: Bisector, v0: Option<Vertex>, v1: Option<Vertex>, bounds: Rect): (r: Option<(Point, Point)>)
    requires l.b == 1.0
    ensures r.Some? ==> OnLine(l, r.value.0) && OnLine(l, r.value.1)
    ensures r.Some? && bounds.height >= 0.0 ==> bounds.Contains(r.value.0) && bounds.Contains(r.value.1)
  {
    var x0 := if FiniteRightOf(v0, bounds.xMin()) then v0.value.coord.x else bounds.xMin();
    var x1 := if FiniteLeftOf(v1, bounds.xMax()) then v1.value.coord.x else bounds.xMax();
    if x0 > bounds.xMax() || x1 < bounds.xMin() then None
    else ClipSpanX(l, x0, x1, bounds)
  }

  /** The `b = 1` branch once the walk's start `x0` and end `x1` are fixed inside `[xMin, xMax]`. */
  function ClipSpanX(l: Bisector, x0: real, x1: real, bounds: Rect): (r: Option<(Point, Point)>)
    requires l.b == 1.0
    requires bounds.xMin() <= x0 <= bounds.xMax() && bounds.xMin() <= x1 <= bounds.xMax()
    ensures r.Some? ==> OnLine(l, r.value.0) && OnLine(l, r.value.1)
    ensures r.Some? && bounds.height >= 0.0 ==> bounds.Contains(r.value.0) && bounds.Contains(r.value.1)
    ensures bounds.yMin() <= l.c - l.a * x0 <= bounds.yMax() ==> r.Some? && r.value.0 == Point(x0, l.c - l.a * x0)
    ensures bounds.yMin() <= l.c - l.a * x1 <= bounds.yMax() ==> r.Some? && r.value.1 == Point(x1, l.c - l.a * x1)
    ensures r.Some? ==> (x0 <= r.value.0.x <= x1 || x1 <= r.value.0.x <= x0)
  {
    var ymin, ymax := bounds.yMin(), bounds.yMax();
    var y0 := l.c - l.a * x0;
    var y1 := l.c - l.a * x1;
    if (y0 > ymax && y1 > ymax) || (y0 < ymin && y1 < ymin) then None
    else
      var p0 := PullToY(l, x0, y0, x1, y1, ymin, ymax);
      var p1 := PullToY(l, x1, y1, x0, y0, ymin, ymax);
      Some((p0, p1))
  }

  predicate FiniteRightOf(v: Option<Vertex>, bound: real) {
    v.Some? && v.value.Finite? && v.value.coord.x > bound
  }

  predicate FiniteLeftOf(v: Option<Vertex>, bound: real) {
    v.Some? && v.value.Finite? && v.value.coord.x < bound
  }

  /** One end of the `b = 1` branch, the mirror image of `PullToX`. */
  function PullToY(l: Bisector, x: real, y: real, ox: real, oy: real, ymin: real, ymax: real): (p: Point)
    requires l.b == 1.0 && y == l.c - l.a * x && oy == l.c - l.a * ox
    requires !(y > ymax && oy > ymax) && !(y < ymin && oy < ymin)
    ensures OnLine(l, p)
    ensures ymin <= ymax ==> ymin <= p.y <= ymax
    ensures (x <= p.x <= ox) || (ox <= p.x <= x)
    ensures ymin <= y <= ymax ==> p == Point(x, y)
  {
    if y > ymax then
      AtLevelY(l, x, ox, ymax)
    else if y < ymin then
      AtLevelY(l, x, ox, ymin)
    else Point(x, y)
  }

  /** The clipped ends `(x0, y0)` and `(x1, y1)`, or `None` when nothing is visible. */
  function ClipEnds(e: Edge, bounds: Rect): (r: Option<(Point, Point)>)
    requires e.line.a == 1.0 || e.line.b == 1.0
    ensures r.Some? ==> OnLine(e.line, r.value.0) && OnLine(e.line, r.value.1)
    ensures r.Some? && bounds.width >= 0.0 && bounds.height >= 0.0 ==>
      bounds.Contains(r.value.0) && bounds.Contains(r.value.1)
  {
    var (v0, v1) := ClipOrder(e);
    if e.line.a == 1.0 then ClipAlongY(e.line, v0, v1, bounds)
    else ClipAlongX(e.line, v0, v1, bounds)
  }

  /**
   * `Edge.ClipVertices`: records the visible part of the edge inside `bounds`, keyed so
   * that the end computed from `vertex0` goes to `vertex0`'s side.
   */
  function ClipVertices(e: Edge, bounds: Rect): (r: Edge)
    requires e.line.a == 1.0 || e.line.b == 1.0
    ensures r.line == e.line && r.leftVertex == e.leftVertex && r.rightVertex == e.rightVertex
    ensures r.Visible() <==> ClipEnds(e, bounds).Some?
    ensures r.Visible() ==> OnLine(e.line, r.clippedEnds.value.left) && OnLine(e.line, r.clippedEnds.value.right)
    ensures r.Visible() && bounds.width >= 0.0 && bounds.height >= 0.0 ==>
      bounds.Contains(r.clippedEnds.value.left) && bounds.Contains(r.clippedEnds.value.right)
  {
    match ClipEnds(e, bounds)
    case None => e.(clippedEnds := None)
    case Some((p0, p1)) =>
      if ClipOrder(e).0 == e.leftVertex then e.(clippedEnds := Some(ClippedEnds(p0, p1)))
      else e.(clippedEnds := Some(ClippedEnds(p1, p0)))
  }

  /** A vertex that lies on the line and inside the bounds. */
  predicate InsideOnLine(v: Option<Vertex>, l: Bisector, bounds: Rect) {
    v.Some? && v.value.Finite? && OnLine(l, v.value.coord) && bounds.Contains(v.value.coord)
  }

  /**
   * Clipping keeps an end vertex that is already inside the bounds: its clipped end is
   * the vertex itself, on whichever side it sits; and an edge with both ends inside stays visible.
   */
  lemma ClipKeepsInsideVertices(e: Edge, bounds: Rect)
    requires e.line.a == 1.0 || e.line.b == 1.0
    ensures var r := ClipVertices(e, bounds);
      && (InsideOnLine(e.leftVertex, e.line, bounds) && r.Visible() ==> r.clippedEnds.value.left == e.leftVertex.value.coord)
      && (InsideOnLine(e.rightVertex, e.line, bounds) && r.Visible() ==> r.clippedEnds.value.right == e.rightVertex.value.coord)
      && (InsideOnLine(e.leftVertex, e.line, bounds) && InsideOnLine(e.rightVertex, e.line, bounds) ==> r.Visible())
  {
    var (v0, v1) := ClipOrder(e);
    var ends := ClipEnds(e, bounds);
    if e.line.a == 1.0 {
      ClipAlongYKeeps(e.line, v0, v1, bounds);
    } else {
      ClipAlongXKeeps(e.line, v0, v1, bounds);
    }
  }

  lemma ClipAlongYKeeps(l: Bisector, v0: Option<Vertex>, v1: Option<Vertex>, bounds: Rect)
    requires l.a == 1.0
    ensures var r := ClipAlongY(l, v0, v1, bounds);
      && (InsideOnLine(v0, l, bounds) && r.Some? ==> r.value.0 == v0.value.coord)
      && (InsideOnLine(v1, l, bounds) && r.Some? ==> r.value.1 == v1.value.coord)
      && (InsideOnLine(v0, l, bounds) && InsideOnLine(v1, l, bounds) ==> r.Some?)
  {
    var y0 := if FiniteAbove(v0, bounds.yMin()) then v0.value.coord.y else bounds.yMin();
    var y1 := if FiniteBelow(v1, bounds.yMax()) then v1.value.coord.y else bounds.yMax();
    if y0 <= bounds.yMax() && y1 >= bounds.yMin() {
      assert ClipAlongY(l, v0, v1, bounds) == ClipSpanY(l, y0, y1, bounds);
      if InsideOnLine(v0, l, bounds) {
        SpanYKeepsStart(l, y0, y1, bounds, v0.value.coord);
      }
      if InsideOnLine(v1, l, bounds) {
        SpanYKeepsEnd(l, y0, y1, bounds, v1.value.coord);
      }
    }
  }

  /** A walk that starts at a point of the line inside the bounds starts the clipped edge there. */
  lemma SpanYKeepsStart(l: Bisector, y0: real, y1: real, bounds: Rect, p: Point)
    requires l.a == 1.0
    requires bounds.yMin() <= y0 <= bounds.yMax() && bounds.yMin() <= y1 <= bounds.yMax()
    requires OnLine(l, p) && bounds.Contains(p) && p.y == y0
    ensures ClipSpanY(l, y0, y1, bounds).Some? && ClipSpanY(l, y0, y1, bounds).value.0 == p
  {
    SolveAtLevelY(l, p, y0);
    assert p == Point(l.c - l.b * y0, y0);
  }

  /** A walk that ends at a point of the line inside the bounds ends the clipped edge there. */
  lemma SpanYKeepsEnd(l: Bisector, y0: real, y1: real, bounds: Rect, p: Point)
    requires l.a == 1.0
    requires bounds.yMin() <= y0 <= bounds.yMax() && bounds.yMin() <= y1 <= bounds.yMax()
    requires OnLine(l, p) && bounds.Contains(p) && p.y == y1
    ensures ClipSpanY(l, y0, y1, bounds).Some? && ClipSpanY(l, y0, y1, bounds).value.1 == p
  {
    SolveAtLevelY(l, p, y1);
    assert p == Point(l.c - l.b * y1, y1);
  }

  /** On a line with `a = 1`, a point's x is the line's x at the point's own level. */
  lemma SolveAtLevelY(l: Bisector, p: Point, y: real)
    requires l.a == 1.0 && OnLine(l, p) && p.y == y
    ensures l.c - l.b * y == p.x
  {
    assert l.b * y == l.b * p.y;
  }

  lemma ClipAlongXKeeps(l: Bisector, v0: Option<Vertex>, v1: Option<Vertex>, bounds: Rect)
    requires l.b == 1.0
    ensures var r := ClipAlongX(l, v0, v1, bounds);
      && (InsideOnLine(v0, l, bounds) && r.Some? ==> r.value.0 == v0.value.coord)
      && (InsideOnLine(v1, l, bounds) && r.Some? ==> r.value.1 == v1.value.coord)
      && (InsideOnLine(v0, l, bounds) && InsideOnLine(v1, l, bounds) ==> r.Some?)
  {
    var x0 := if FiniteRightOf(v0, bounds.xMin()) then v0.value.coord.x else bounds.xMin();
    var x1 := if FiniteLeftOf(v1, bounds.xMax()) then v1.value.coord.x else bounds.xMax();
    if x0 <= bounds.xMax() && x1 >= bounds.xMin() {
      assert ClipAlongX(l, v0, v1, bounds) == ClipSpanX(l, x0, x1, bounds);
      if InsideOnLine(v0, l, bounds) {
        SpanXKeepsStart(l, x0, x1, bounds, v0.value.coord);
      }
      if InsideOnLine(v1, l, bounds) {
        SpanXKeepsEnd(l, x0, x1, bounds, v1.value.coord);
      }
    }
  }

  /** The mirror image of `SpanYKeepsStart` for the `b = 1` branch. */
  lemma SpanXKeepsStart(l: Bisector, x0: real, x1: real, bounds: Rect, p: Point)
    requires l.b == 1.0
    requires bounds.xMin() <= x0 <= bounds.xMax() && bounds.xMin() <= x1 <= bounds.xMax()
    requires OnLine(l, p) && bounds.Contains(p) && p.x == x0
    ensures ClipSpanX(l, x0, x1, bounds).Some? && ClipSpanX(l, x0, x1, bounds).value.0 == p
  {
    SolveAtLevelX(l, p, x0);
    assert p == Point(x0, l.c - l.a * x0);
  }

  /** The mirror image of `SpanYKeepsEnd` for the `b = 1` branch. */
  lemma SpanXKeepsEnd(l: Bisector, x0: real, x1: real, bounds: Rect, p: Point)
    requires l.b == 1.0
    requires bounds.xMin() <= x0 <= bounds.xMax() && bounds.xMin() <= x1 <= bounds.xMax()
    requires OnLine(l, p) && bounds.Contains(p) && p.x == x1
    ensures ClipSpanX(l, x0, x1, bounds).Some? && ClipSpanX(l, x0, x1, bounds).value.1 == p
  {
    SolveAtLevelX(l, p, x1);
    assert p == Point(x1, l.c - l.a * x1);
  }

  /** On a line with `b = 1`, a point's y is the line's y at the point's own x. */
  lemma SolveAtLevelX(l: Bisector, p: Point, x: real)
    requires l.b == 1.0 && OnLine(l, p) && p.x == x
    ensures l.c - l.a * x == p.y
  {
    assert l.a * x == l.a * p.x;
  }

  // ------------------------------------------------------- what clipping decides

  /** The coordinate `ClipVertices` walks along: `y` on a line with `a = 1`, `x` otherwise. */
  function WalkCoord(l: Bisector, p: Point): real {
    if l.a == 1.0 then p.y else p.x
  }

  /**
   * `p` lies on the line between `v0` and `v1`: not before `v0` and not after `v1` along
   * the walk. A missing vertex, or the vertex at infinity, leaves that direction open.
   */
  predicate OnWalk(l: Bisector, v0: Option<Vertex>, v1: Option<Vertex>, p: Point) {
    && OnLine(l, p)
    && (v0.Some? && v0.value.Finite? ==> WalkCoord(l, v0.value.coord) <= WalkCoord(l, p))
    && (v1.Some? && v1.value.Finite? ==> WalkCoord(l, p) <= WalkCoord(l, v1.value.coord))
  }

  /** `v0` comes no later than `v1` along the walk, when both are finite. */
  predicate WalkOrdered(l: Bisector, v0: Option<Vertex>, v1: Option<Vertex>) {
    v0.Some? && v0.value.Finite? && v1.Some? && v1.value.Finite? ==>
      WalkCoord(l, v0.value.coord) <= WalkCoord(l, v1.value.coord)
  }

  /** The edge's `vertex0` comes no later than its `vertex1` along the walk. */
  predicate InWalkOrder(e: Edge) {
    WalkOrdered(e.line, ClipOrder(e).0, ClipOrder(e).1)
  }

  /** `p` is a point of the edge: on its line, from `vertex0` to `vertex1`. */
  predicate OnEdge(e: Edge, p: Point) {
    OnWalk(e.line, ClipOrder(e).0, ClipOrder(e).1, p)
  }

  /** Some point of the edge lies inside `bounds`. */
  ghost predicate MeetsBounds(e: Edge, bounds: Rect) {
    exists p :: OnEdge(e, p) && bounds.Contains(p)
  }

  /** Between two levels, the line `u = c - k*w` stays between its values at those levels. */
  lemma LineBetween(c: real, k: real, w0: real, w: real, w1: real, u0: real, u: real, u1: real)
    requires w0 <= w <= w1
    requires u0 == c - k * w0 && u == c - k * w && u1 == c - k * w1
    ensures (u0 <= u <= u1) || (u1 <= u <= u0)
  {
    if k >= 0.0 {
      assert k * (w - w0) >= 0.0 && k * (w1 - w) >= 0.0;
    } else {
      assert k * (w - w0) <= 0.0 && k * (w1 - w) <= 0.0;
    }
  }

  /** Where the `a = 1` branch starts and ends its walk: `y0` and `y1`. */
  function WalkStartY(v0: Option<Vertex>, bounds: Rect): real {
    if FiniteAbove(v0, bounds.yMin()) then v0.value.coord.y else bounds.yMin()
  }

  function WalkEndY(v1: Option<Vertex>, bounds: Rect): real {
    if FiniteBelow(v1, bounds.yMax()) then v1.value.coord.y else bounds.yMax()
  }

  /** The `b = 1` branch's `x0` and `x1`. */
  function WalkStartX(v0: Option<Vertex>, bounds: Rect): real {
    if FiniteRightOf(v0, bounds.xMin()) then v0.value.coord.x else bounds.xMin()
  }

  function WalkEndX(v1: Option<Vertex>, bounds: Rect): real {
    if FiniteLeftOf(v1, bounds.xMax()) then v1.value.coord.x else bounds.xMax()
  }

  /**
   * On a line with `a = 1` whose vertices come in walk order, the `a = 1` branch finds
   * ends exactly when some point of the line between the vertices lies in the bounds.
   */
  lemma ClipAlongYMeets(l: Bisector, v0: Option<Vertex>, v1: Option<Vertex>, bounds: Rect)
    requires l.a == 1.0 && bounds.width >= 0.0 && bounds.height >= 0.0 && WalkOrdered(l, v0, v1)
    ensures ClipAlongY(l, v0, v1, bounds).Some? <==> exists p :: OnWalk(l, v0, v1, p) && bounds.Contains(p)
  {
    if ClipAlongY(l, v0, v1, bounds).Some? {
      var p := ClipAlongY(l, v0, v1, bounds).value.0;
      ClipAlongYFinds(l, v0, v1, bounds);
      assert OnWalk(l, v0, v1, p) && bounds.Contains(p);
    }
    if exists p :: OnWalk(l, v0, v1, p) && bounds.Contains(p) {
      var p :| OnWalk(l, v0, v1, p) && bounds.Contains(p);
      ClipAlongYReaches(l, v0, v1, bounds, p);
    }
  }

  /** The first end the `a = 1` branch finds is a point of the line between the vertices. */
  lemma ClipAlongYFinds(l: Bisector, v0: Option<Vertex>, v1: Option<Vertex>, bounds: Rect)
    requires l.a == 1.0 && bounds.height >= 0.0 && WalkOrdered(l, v0, v1)
    requires ClipAlongY(l, v0, v1, bounds).Some?
    ensures OnWalk(l, v0, v1, ClipAlongY(l, v0, v1, bounds).value.0)
  {
    var y0, y1 := WalkStartY(v0, bounds), WalkEndY(v1, bounds);
    assert y0 <= bounds.yMax() && y1 >= bounds.yMin();
    assert y0 <= y1;
    var p := ClipSpanY(l, y0, y1, bounds).value.0;
    assert ClipAlongY(l, v0, v1, bounds).value.0 == p;
    assert y0 <= p.y <= y1;
  }

  /** A point of the line between the vertices inside the bounds makes the `a = 1` branch find ends. */
  lemma ClipAlongYReaches(l: Bisector, v0: Option<Vertex>, v1: Option<Vertex>, bounds: Rect, p: Point)
    requires l.a == 1.0 && OnWalk(l, v0, v1, p) && bounds.Contains(p)
    ensures ClipAlongY(l, v0, v1, bounds).Some?
  {
    var y0, y1 := WalkStartY(v0, bounds), WalkEndY(v1, bounds);
    assert y0 <= p.y <= y1;
    SpanYReaches(l, y0, y1, bounds, p);
  }

  /** A point of the line inside the bounds, between levels `y0` and `y1`, keeps `ClipSpanY` from giving up. */
  lemma SpanYReaches(l: Bisector, y0: real, y1: real, bounds: Rect, p: Point)
    requires l.a == 1.0
    requires bounds.yMin() <= y0 <= bounds.yMax() && bounds.yMin() <= y1 <= bounds.yMax()
    requires OnLine(l, p) && bounds.Contains(p) && y0 <= p.y <= y1
    ensures ClipSpanY(l, y0, y1, bounds).Some?
  {
    var xmin, xmax := bounds.xMin(), bounds.xMax();
    var x0, x1 := l.c - l.b * y0, l.c - l.b * y1;
    assert p.x == l.c - l.b * p.y;
    LineBetween(l.c, l.b, y0, p.y, y1, x0, p.x, x1);
    assert xmin <= p.x <= xmax;
    assert !((x0 > xmax && x1 > xmax) || (x0 < xmin && x1 < xmin));
  }

  /** The mirror image of `ClipAlongYMeets` for the `b = 1` branch. */
  lemma ClipAlongXMeets(l: Bisector, v0: Option<Vertex>, v1: Option<Vertex>, bounds: Rect)
    requires l.b == 1.0 && l.a != 1.0 && bounds.width >= 0.0 && bounds.height >= 0.0 && WalkOrdered(l, v0, v1)
    ensures ClipAlongX(l, v0, v1, bounds).Some? <==> exists p :: OnWalk(l, v0, v1, p) && bounds.Contains(p)
  {
    if ClipAlongX(l, v0, v1, bounds).Some? {
      var p := ClipAlongX(l, v0, v1, bounds).value.0;
      ClipAlongXFinds(l, v0, v1, bounds);
      assert OnWalk(l, v0, v1, p) && bounds.Contains(p);
    }
    if exists p :: OnWalk(l, v0, v1, p) && bounds.Contains(p) {
      var p :| OnWalk(l, v0, v1, p) && bounds.Contains(p);
      ClipAlongXReaches(l, v0, v1, bounds, p);
    }
  }

  /** The mirror image of `ClipAlongYFinds`. */
  lemma ClipAlongXFinds(l: Bisector, v0: Option<Vertex>, v1: Option<Vertex>, bounds: Rect)
    requires l.b == 1.0 && l.a != 1.0 && bounds.width >= 0.0 && WalkOrdered(l, v0, v1)
    requires ClipAlongX(l, v0, v1, bounds).Some?
    ensures OnWalk(l, v0, v1, ClipAlongX(l, v0, v1, bounds).value.0)
  {
    var x0, x1 := WalkStartX(v0, bounds), WalkEndX(v1, bounds);
    assert x0 <= bounds.xMax() && x1 >= bounds.xMin();
    assert x0 <= x1;
    var p := ClipSpanX(l, x0, x1, bounds).value.0;
    assert ClipAlongX(l, v0, v1, bounds).value.0 == p;
    assert x0 <= p.x <= x1;
  }

  /** The mirror image of `ClipAlongYReaches`. */
  lemma ClipAlongXReaches(l: Bisector, v0: Option<Vertex>, v1: Option<Vertex>, bounds: Rect, p: Point)
    requires l.b == 1.0 && l.a != 1.0 && OnWalk(l, v0, v1, p) && bounds.Contains(p)
    ensures ClipAlongX(l, v0, v1, bounds).Some?
  {
    var x0, x1 := WalkStartX(v0, bounds), WalkEndX(v1, bounds);
    assert x0 <= p.x <= x1;
    SpanXReaches(l, x0, x1, bounds, p);
  }

  /** The mirror image of `SpanYReaches`. */
  lemma SpanXReaches(l: Bisector, x0: real, x1: real, bounds: Rect, p: Point)
    requires l.b == 1.0
    requires bounds.xMin() <= x0 <= bounds.xMax() && bounds.xMin() <= x1 <= bounds.xMax()
    requires OnLine(l, p) && bounds.Contains(p) && x0 <= p.x <= x1
    ensures ClipSpanX(l, x0, x1, bounds).Some?
  {
    var ymin, ymax := bounds.yMin(), bounds.yMax();
    var y0, y1 := l.c - l.a * x0, l.c - l.a * x1;
    assert p.y == l.c - l.a * p.x;
    LineBetween(l.c, l.a, x0, p.x, x1, y0, p.y, y1);
    assert ymin <= p.y <= ymax;
    assert !((y0 > ymax && y1 > ymax) || (y0 < ymin && y1 < ymin));
  }

  /**
   * For an edge whose vertices come in walk order, `ClipVertices` makes it visible exactly
   * when some point of the edge lies inside (non-empty) bounds.
   */
  lemma ClipSeesEdge(e: Edge, bounds: Rect)
    requires e.line.a == 1.0 || e.line.b == 1.0
    requires bounds.width >= 0.0 && bounds.height >= 0.0 && InWalkOrder(e)
    ensures ClipVertices(e, bounds).Visible() <==> MeetsBounds(e, bounds)
  {
    var (v0, v1) := ClipOrder(e);
    if e.line.a == 1.0 {
      ClipAlongYMeets(e.line, v0, v1, bounds);
    } else {
      ClipAlongXMeets(e.line, v0, v1, bounds);
    }
  }

  /** The point of a line with `a = 1` at level `x = t`, between a point beyond the level and one not beyond it. */
  function AtLevelX(l: Bisector, y: real, oy: real, t: real): (p: Point)
    requires l.a == 1.0
    requires (l.c - l.b * y > t && l.c - l.b * oy <= t) || (l.c - l.b * y < t && l.c - l.b * oy >= t)
    ensures OnLine(l, p) && p.x == t
    ensures (y <= p.y <= oy) || (oy <= p.y <= y)
  {
    CrossingAt(l.c, l.b, y, oy, t);
    Point(t, (l.c - t) / l.b)
  }

  /** The point of a line with `b = 1` at level `y = t`, between a point beyond the level and one not beyond it. */
  function AtLevelY(l: Bisector, x: real, ox: real, t: real): (p: Point)
    requires l.b == 1.0
    requires (l.c - l.a * x > t && l.c - l.a * ox <= t) || (l.c - l.a * x < t && l.c - l.a * ox >= t)
    ensures OnLine(l, p) && p.y == t
    ensures (x <= p.x <= ox) || (ox <= p.x <= x)
  {
    CrossingAt(l.c, l.a, x, ox, t);
    Point((l.c - t) / l.a, t)
  }

  /**
   * Where the line `u = c - k*w` meets the level `u = t`, given one point `w` beyond the
   * level and one point `ow` not beyond it: the crossing lies between the two.
   */
  lemma CrossingAt(c: real, k: real, w: real, ow: real, t: real)
    requires (c - k * w > t && c - k * ow <= t) || (c - k * w < t && c - k * ow >= t)
    ensures k != 0.0 && k * ((c - t) / k) == c - t
    ensures (w <= (c - t) / k <= ow) || (ow <= (c - t) / k <= w)
  {
    SlopeNonZero(c, k, w, ow, t);
    var m := (c - t) / k;
    Between(c, k, w, ow, t, m);
  }

  /** A line `u = c - k*w` that is beyond the level `t` at one point and not at another is not flat. */
  lemma SlopeNonZero(c: real, k: real, w: real, ow: real, t: real)
    requires (c - k * w > t && c - k * ow <= t) || (c - k * w < t && c - k * ow >= t)
    ensures k != 0.0
  {
  }

  /** The crossing of level `t` lies between a point beyond the level and one not beyond it. */
  lemma Between(c: real, k: real, w: real, ow: real, t: real, m: real)
    requires (c - k * w > t && c - k * ow <= t) || (c - k * w < t && c - k * ow >= t)
    requires k * m == c - t
    ensures (w <= m <= ow) || (ow <= m <= w)
  {
    if k > 0.0 {
      MulMonotone(k, w, m);
      MulMonotone(k, m, ow);
    } else {
      MulAntitone(k, w, m);
      MulAntitone(k, m, ow);
    }
  }

  lemma MulMonotone(b: real, u: real, v: real)
    requires b > 0.0
    ensures u <= v <==> b * u <= b * v
  {
  }

  lemma MulAntitone(b: real, u: real, v: real)
    requires b < 0.0
    ensures u <= v <==> b * u >= b * v
  {
  }
}
