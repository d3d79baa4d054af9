/**
 * Sites and their Voronoi regions (Delaunay/Site.cs, including `BoundsCheck`).
 *
 * A site is a point with an index, a colour and the edges of its region. The region
 * polygon is assembled lazily: the edges are chained by the reorderer, each visible
 * edge contributes its clipped ends, and where two consecutive ends were cut off by
 * different borders of the clipping rectangle, the rectangle's corners between them
 * are inserted. The polygon is then turned so that it is never clockwise.
 */
module Sites {
  import opened Wrappers
  import opened LR
  import opened Geom
  import opened Sorting
  import opened Edges
  import opened Reorderer

  /**
   * A site (`Site`): its coordinate, `_siteIndex`, colour, the edges of its region, and
   * the cached `_edgeOrientations` and `_region` (`None` is a null reference).
   */
  datatype Site = Site(
    coord: Point,
    index: nat,
    color: nat,
    edges: seq<Edge>,
    orientations: Option<seq<Side>>,
    region: Option<seq<Point>>)

  /** `Site.Create`: a fresh site without edges, orientations or region. */
  function NewSite(p: Point, index: nat, color: nat): (s: Site)
    ensures s.coord == p && s.index == index && s.color == color
    ensures s.edges == [] && s.orientations.None? && s.region.None?
  {
    Site(p, index, color, [], None, None)
  }

  // ----------------------------------------------------- comparing sites

  /**
   * `Site.CompareTo`: the `(y, x)` comparison of the two sites, which also swaps their
   * indices when needed so that the smaller site holds the smaller index.
   */
  function CompareTo(a: Site, b: Site): (r: (int, Site, Site))
    ensures r.0 == CompareByYThenX(a.coord, b.coord)
    ensures r.1 == a.(index := r.1.index) && r.2 == b.(index := r.2.index)
    ensures multiset{r.1.index, r.2.index} == multiset{a.index, b.index}
    ensures r.0 == -1 ==> r.1.index <= r.2.index
    ensures r.0 == 1 ==> r.2.index <= r.1.index
    ensures r.0 == 0 ==> r.1 == a && r.2 == b
  {
    var c := CompareByYThenX(a.coord, b.coord);
    if c == -1 && a.index > b.index then (c, a.(index := b.index), b.(index := a.index))
    else if c == 1 && b.index > a.index then (c, a.(index := b.index), b.(index := a.index))
    else (c, a, b)
  }

  /** Comparing the other way round gives the opposite answer and the same index exchange. */
  lemma CompareToSymmetric(a: Site, b: Site)
    ensures var (c, a2, b2) := CompareTo(a, b);
      CompareTo(b, a) == (-c, b2, a2)
  {
  }

  /** The coordinates of a list of sites, in order. */
  function Coords(xs: seq<Site>): (ps: seq<Point>)
    ensures |ps| == |xs|
    decreases |xs|
  {
    if xs == [] then [] else [xs[0].coord] + Coords(xs[1..])
  }

  /** The indices of a list of sites, in order. */
  function Indices(xs: seq<Site>): (ns: seq<nat>)
    ensures |ns| == |xs|
    decreases |xs|
  {
    if xs == [] then [] else [xs[0].index] + Indices(xs[1..])
  }

  /** Inserting a site into a sorted list, comparing (and swapping indices) on the way. */
  function InsertSite(x: Site, ys: seq<Site>): (r: seq<Site>)
    decreases |ys|
  {
    if ys == [] then [x]
    else
      var (c, x2, y2) := CompareTo(x, ys[0]);
      if c <= 0 then [x2, y2] + ys[1..] else [y2] + InsertSite(x2, ys[1..])
  }

  /**
   * `Site.SortSites` (`List.Sort` with `CompareTo`), modelled as an insertion sort; the
   * indices move with every comparison the sort makes.
   */
  function SortSites(xs: seq<Site>): (r: seq<Site>)
    decreases |xs|
  {
    if xs == [] then [] else InsertSite(xs[0], SortSites(xs[1..]))
  }

  lemma CoordsCons(x: Site, ys: seq<Site>)
    ensures Coords([x] + ys) == [x.coord] + Coords(ys)
  {
    assert ([x] + ys)[1..] == ys;
  }

  lemma IndicesCons(x: Site, ys: seq<Site>)
    ensures Indices([x] + ys) == [x.index] + Indices(ys)
  {
    assert ([x] + ys)[1..] == ys;
  }

  /** The comparison is a total preorder on points. */
  lemma CompareByYThenXPreorder()
    ensures TotalPreorder(CompareByYThenX)
  {
    forall p, q, s | CompareByYThenX(p, q) <= 0 && CompareByYThenX(q, s) <= 0
      ensures CompareByYThenX(p, s) <= 0
    {
      CompareByYThenXTransitive(p, q, s);
    }
  }

  /** On coordinates, inserting a site is inserting its point by `(y, x)`. */
  lemma {:induction false} InsertSiteCoords(x: Site, ys: seq<Site>)
    ensures Coords(InsertSite(x, ys)) == InsertSorted(CompareByYThenX, x.coord, Coords(ys))
    decreases |ys|
  {
    if ys == [] {
      CoordsCons(x, []);
      assert [x] + [] == [x];
    } else {
      var (c, x2, y2) := CompareTo(x, ys[0]);
      if c <= 0 {
        CoordsHere(x, ys, x2, y2);
      } else {
        InsertSiteCoords(x2, ys[1..]);
        CoordsLater(x, ys, y2, InsertSite(x2, ys[1..]));
      }
    }
  }

  /** Inserting in front of the first site puts the point in front. */
  lemma CoordsHere(x: Site, ys: seq<Site>, x2: Site, y2: Site)
    requires ys != [] && x2.coord == x.coord && y2.coord == ys[0].coord
    requires CompareByYThenX(x.coord, ys[0].coord) <= 0
    ensures Coords([x2, y2] + ys[1..]) == InsertSorted(CompareByYThenX, x.coord, Coords(ys))
  {
    var rest := ys[1..];
    assert [x2, y2] + rest == [x2] + ([y2] + rest);
    CoordsCons(y2, rest);
    CoordsCons(x2, [y2] + rest);
    assert Coords([x2, y2] + rest) == [x.coord] + Coords(ys);
  }

  /** Inserting further on keeps the first point in front. */
  lemma CoordsLater(x: Site, ys: seq<Site>, y2: Site, tail: seq<Site>)
    requires ys != [] && y2.coord == ys[0].coord
    requires CompareByYThenX(x.coord, ys[0].coord) > 0
    requires Coords(tail) == InsertSorted(CompareByYThenX, x.coord, Coords(ys[1..]))
    ensures Coords([y2] + tail) == InsertSorted(CompareByYThenX, x.coord, Coords(ys))
  {
    CoordsCons(y2, tail);
    var cs := Coords(ys);
    assert cs[0] == ys[0].coord && cs[1..] == Coords(ys[1..]);
  }

  /** Inserting a site only moves indices around, adding the inserted site's own. */
  lemma {:induction false} InsertSiteIndices(x: Site, ys: seq<Site>)
    ensures multiset(Indices(InsertSite(x, ys))) == multiset(Indices(ys)) + multiset{x.index}
    decreases |ys|
  {
    if ys == [] {
      IndicesCons(x, []);
      assert [x] + [] == [x];
    } else {
      var (c, x2, y2) := CompareTo(x, ys[0]);
      if c <= 0 {
        IndicesHere(x, ys, x2, y2);
      } else {
        InsertSiteIndices(x2, ys[1..]);
        IndicesLater(x, ys, x2, y2, InsertSite(x2, ys[1..]));
      }
    }
  }

  /** The indices after inserting in front of the first site, exchanging two indices. */
  lemma IndicesHere(x: Site, ys: seq<Site>, x2: Site, y2: Site)
    requires ys != [] && multiset{x2.index, y2.index} == multiset{x.index, ys[0].index}
    ensures multiset(Indices([x2, y2] + ys[1..])) == multiset(Indices(ys)) + multiset{x.index}
  {
    assert [x2, y2] + ys[1..] == [x2] + ([y2] + ys[1..]);
    IndicesCons(y2, ys[1..]);
    IndicesCons(x2, [y2] + ys[1..]);
  }

  /** The indices after inserting further on, where the first site took part in an exchange. */
  lemma IndicesLater(x: Site, ys: seq<Site>, x2: Site, y2: Site, tail: seq<Site>)
    requires ys != [] && multiset{x2.index, y2.index} == multiset{x.index, ys[0].index}
    requires multiset(Indices(tail)) == multiset(Indices(ys[1..])) + multiset{x2.index}
    ensures multiset(Indices([y2] + tail)) == multiset(Indices(ys)) + multiset{x.index}
  {
    IndicesCons(y2, tail);
  }

  /** Sorting the sites sorts their coordinates exactly as `Sort` does. */
  lemma {:induction false} SortSitesCoords(xs: seq<Site>)
    ensures TotalPreorder(CompareByYThenX)
    ensures Coords(SortSites(xs)) == Sort(CompareByYThenX, Coords(xs))
    decreases |xs|
  {
    CompareByYThenXPreorder();
    if xs != [] {
      SortSitesCoords(xs[1..]);
      InsertSiteCoords(xs[0], SortSites(xs[1..]));
      var cs := Coords(xs);
      assert cs[0] == xs[0].coord && cs[1..] == Coords(xs[1..]);
    }
  }

  /** Sorting the sites only permutes their indices. */
  lemma {:induction false} SortSitesIndices(xs: seq<Site>)
    ensures multiset(Indices(SortSites(xs))) == multiset(Indices(xs))
    decreases |xs|
  {
    if xs != [] {
      SortSitesIndices(xs[1..]);
      InsertSiteIndices(xs[0], SortSites(xs[1..]));
      assert multiset(Indices(xs)) == multiset{xs[0].index} + multiset(Indices(xs[1..]));
    }
  }

  /**
   * Sorting the sites orders their coordinates by `(y, x)` and keeps them, and only
   * permutes the indices among the sites; which index each site ends up with depends
   * on the order of the comparisons.
   */
  lemma SortSitesCorrect(xs: seq<Site>)
    ensures |SortSites(xs)| == |xs|
    ensures SortedBy(CompareByYThenX, Coords(SortSites(xs)))
    ensures multiset(Coords(SortSites(xs))) == multiset(Coords(xs))
    ensures multiset(Indices(SortSites(xs))) == multiset(Indices(xs))
  {
    SortSitesCoords(xs);
    SortSitesIndices(xs);
  }

  // ------------------------------------------------------------ CloseEnough

  /** `Site.EPSILON` squared: `Distance(p, q) < 0.005` exactly when the squared distance is below it. */
  const EpsilonSquared: real := 0.000025

  /** `Site.CloseEnough`: the two points are less than 0.005 apart. */
  predicate CloseEnough(p: Point, q: Point) {
    SqDist(p, q) < EpsilonSquared
  }

  /** Closeness is reflexive and symmetric, and close points differ by less than 0.005 per axis. */
  lemma CloseEnoughProperties(p: Point, q: Point)
    ensures CloseEnough(p, p)
    ensures CloseEnough(p, q) <==> CloseEnough(q, p)
    ensures CloseEnough(p, q) ==> (p.x - q.x) * (p.x - q.x) < EpsilonSquared && (p.y - q.y) * (p.y - q.y) < EpsilonSquared
  {
    SqDistSymmetric(p, q);
    var dx, dy := p.x - q.x, p.y - q.y;
    SquareNonNegative(dx);
    SquareNonNegative(dy);
    assert SqDist(p, q) == dx * dx + dy * dy;
  }

  // ----------------------------------------------------------- neighbours

  /** `Site.NeighborSite`: the other site of `e` when this site is one of its two, else null. */
  function NeighborSite(site: Point, e: Edge): (r: Option<Point>)
    ensures r.Some? <==> site == e.line.leftSite || site == e.line.rightSite
    ensures r.Some? ==> {site, r.value} == {e.line.leftSite, e.line.rightSite}
    ensures r.Some? && e.line.leftSite != e.line.rightSite ==> r.value != site
  {
    if site == e.line.leftSite then Some(e.line.rightSite)
    else if site == e.line.rightSite then Some(e.line.leftSite)
    else None
  }

  /** On an edge between two different sites, each site is the other's neighbour. */
  lemma NeighborSiteInvolution(site: Point, e: Edge)
    requires e.line.leftSite != e.line.rightSite
    requires site == e.line.leftSite || site == e.line.rightSite
    ensures NeighborSite(NeighborSite(site, e).value, e) == Some(site)
  {
  }

  /**
   * `Site.ReorderEdges`: chains the edges by their vertices and stores the order and the
   * orientations; `None` when the reorderer never finishes.
   */
  function ReorderSite(site: Site): (r: Option<Site>)
    ensures r.Some? ==> r.value == site.(edges := r.value.edges, orientations := r.value.orientations)
    ensures r.Some? ==> r.value.orientations.Some? && |r.value.edges| <= |r.value.orientations.value|
    ensures r.Some? && r.value.edges != [] ==> multiset(r.value.edges) == multiset(site.edges)
  {
    ReorderCorrect(site.edges, VERTEX);
    match NewReorderer(site.edges, VERTEX)
    case None => None
    case Some(ro) => Some(site.(edges := ro.edges, orientations := Some(ro.orientations)))
  }

  /**
   * `Site.NeighborSites`: no edges give no neighbours; otherwise the edges are reordered
   * first if they never were, and each edge yields its other site.
   */
  function NeighborSites(site: Site): (r: Option<(Site, seq<Option<Point>>)>)
    ensures site.edges == [] ==> r == Some((site, []))
    ensures r.Some? ==> r.value.0.region == site.region && |r.value.1| == |r.value.0.edges|
    ensures r.Some? ==> forall i :: 0 <= i < |r.value.1| ==> r.value.1[i] == NeighborSite(site.coord, r.value.0.edges[i])
    ensures r.Some? && site.edges != [] ==> r.value.0.orientations.Some?
  {
    if site.edges == [] then Some((site, []))
    else
      var reordered := if site.orientations.None? then ReorderSite(site) else Some(site);
      match reordered
      case None => None
      case Some(s) => Some((s, seq(|s.edges|, i requires 0 <= i < |s.edges| => NeighborSite(s.coord, s.edges[i]))))
  }

  // ------------------------------------------------------------ NearestEdge

  /**
   * `Site.NearestEdge`: sorts the edges by the distance between their sites and returns
   * the first; `None` is the out-of-range access on a site without edges.
   */
  function NearestEdge(site: Site): (r: Option<(Site, Edge)>)
    ensures r.Some? <==> site.edges != []
    ensures r.Some? ==> r.value.0 == site.(edges := r.value.0.edges)
    ensures r.Some? ==> multiset(r.value.0.edges) == multiset(site.edges)
    ensures r.Some? ==> r.value.1 in site.edges
    ensures r.Some? ==> forall e :: e in site.edges ==> SqSitesDistance(r.value.1) <= SqSitesDistance(e)
  {
    CompareSitesDistancesPreorder();
    var sorted := Sort(CompareSitesDistances, site.edges);
    if sorted == [] then None
    else
      assert forall e :: e in site.edges ==> e in multiset(sorted);
      assert sorted[0] in multiset(site.edges);
      Some((site.(edges := sorted), sorted[0]))
  }

  // ------------------------------------------------------------ BoundsCheck

  const TOP: bv32 := 1
  const BOTTOM: bv32 := 2
  const LEFT_BORDER: bv32 := 4
  const RIGHT_BORDER: bv32 := 8

  /** The flag `f` is set in `v`. */
  predicate Has(v: bv32, f: bv32) {
    v & f != 0
  }

  /**
   * `BoundsCheck.Check`: one bit for each border of `bounds` the point lies on
   * (`LEFT`/`RIGHT` for `x == xMin`/`xMax`, `TOP`/`BOTTOM` for `y == yMin`/`yMax`).
   */
  function Check(p: Point, b: Rect): (r: bv32)
    ensures r < 16
    ensures Has(r, LEFT_BORDER) <==> p.x == b.xMin()
    ensures Has(r, RIGHT_BORDER) <==> p.x == b.xMax()
    ensures Has(r, TOP) <==> p.y == b.yMin()
    ensures Has(r, BOTTOM) <==> p.y == b.yMax()
  {
    var v0: bv32 := 0;
    var v1 := if p.x == b.xMin() then v0 | LEFT_BORDER else v0;
    var v2 := if p.x == b.xMax() then v1 | RIGHT_BORDER else v1;
    var v3 := if p.y == b.yMin() then v2 | TOP else v2;
    if p.y == b.yMax() then v3 | BOTTOM else v3
  }

  /** `p` is one of the four corners of `b`. */
  predicate IsCorner(b: Rect, p: Point) {
    (p.x == b.xMin() || p.x == b.xMax()) && (p.y == b.yMin() || p.y == b.yMax())
  }

  /** Two points on a common horizontal or vertical line. */
  predicate Aligned(p: Point, q: Point) {
    p.x == q.x || p.y == q.y
  }

  // ---------------------------------------------------------------- Connect

  /**
   * The corners `Connect` inserts between `rp`, the polygon's last point, and `np`, the
   * next edge's entry point, chosen by the borders each lies on: one corner for two
   * adjacent borders, two for opposite borders (going round the nearer way), none when
   * `rp` lies on no border or the pair is not covered.
   */
  function Corners(rp: Point, np: Point, b: Rect): (cs: seq<Point>)
    ensures |cs| <= 2
    ensures forall k :: 0 <= k < |cs| ==> IsCorner(b, cs[k])
  {
    var rc := Check(rp, b);
    var nc := Check(np, b);
    if Has(rc, RIGHT_BORDER) then
      var px := b.xMax();
      if Has(nc, BOTTOM) then [Point(px, b.yMax())]
      else if Has(nc, TOP) then [Point(px, b.yMin())]
      else if Has(nc, LEFT_BORDER) then
        var py := if rp.y - b.y + np.y - b.y < b.height then b.yMin() else b.yMax();
        [Point(px, py), Point(b.xMin(), py)]
      else []
    else if Has(rc, LEFT_BORDER) then
      var px := b.xMin();
      if Has(nc, BOTTOM) then [Point(px, b.yMax())]
      else if Has(nc, TOP) then [Point(px, b.yMin())]
      else if Has(nc, RIGHT_BORDER) then
        var py := if rp.y - b.y + np.y - b.y < b.height then b.yMin() else b.yMax();
        [Point(px, py), Point(b.xMax(), py)]
      else []
    else if Has(rc, TOP) then
      var py := b.yMin();
      if Has(nc, RIGHT_BORDER) then [Point(b.xMax(), py)]
      else if Has(nc, LEFT_BORDER) then [Point(b.xMin(), py)]
      else if Has(nc, BOTTOM) then
        var px := if rp.x - b.x + np.x - b.x < b.width then b.xMin() else b.xMax();
        [Point(px, py), Point(px, b.yMax())]
      else []
    else if Has(rc, BOTTOM) then
      var py := b.yMax();
      if Has(nc, RIGHT_BORDER) then [Point(b.xMax(), py)]
      else if Has(nc, LEFT_BORDER) then [Point(b.xMin(), py)]
      else if Has(nc, TOP) then
        var px := if rp.x - b.x + np.x - b.x < b.width then b.xMin() else b.xMax();
        [Point(px, py), Point(px, b.yMin())]
      else []
    else []
  }

  /**
   * When both points lie on borders and differ in both coordinates, the corners form a
   * path along the borders: each step from `rp` through the corners to `np` runs
   * horizontally or vertically.
   */
  lemma CornersFollowBorders(rp: Point, np: Point, b: Rect)
    requires Check(rp, b) != 0 && Check(np, b) != 0
    requires rp.x != np.x && rp.y != np.y
    ensures var cs := Corners(rp, np, b);
      || (|cs| == 1 && Aligned(rp, cs[0]) && Aligned(cs[0], np))
      || (|cs| == 2 && Aligned(rp, cs[0]) && Aligned(cs[0], cs[1]) && Aligned(cs[1], np))
  {
    var rc, nc := Check(rp, b), Check(np, b);
    assert Has(rc, TOP) || Has(rc, BOTTOM) || Has(rc, LEFT_BORDER) || Has(rc, RIGHT_BORDER) by {
      BitsOfNonZero(rc);
    }
    assert Has(nc, TOP) || Has(nc, BOTTOM) || Has(nc, LEFT_BORDER) || Has(nc, RIGHT_BORDER) by {
      BitsOfNonZero(nc);
    }
  }

  /** A non-zero value below 16 has one of the four flags set. */
  lemma BitsOfNonZero(v: bv32)
    requires v < 16 && v != 0
    ensures Has(v, TOP) || Has(v, BOTTOM) || Has(v, LEFT_BORDER) || Has(v, RIGHT_BORDER)
  {
  }

  /**
   * The closing step of `Connect`: the edge's exit point is appended unless it is close
   * enough to the polygon's first point.
   */
  function CloseWith(ps: seq<Point>, nr: Point): (r: seq<Point>)
    requires ps != []
    ensures r == ps + [nr] <==> !CloseEnough(ps[0], nr)
    ensures r == ps || r == ps + [nr]
  {
    if !CloseEnough(ps[0], nr) then ps + [nr] else ps
  }

  /**
   * `Site.Connect`: hooks the visible edge `e`, walked in orientation `o`, onto the end
   * of the polygon `points`. When its entry point is not close to the polygon's last
   * point, the corners between them are added, and then (unless closing up) the entry
   * point itself; finally its exit point is added unless it is close to the first point.
   */
  function Connect(points: seq<Point>, e: Edge, o: Side, b: Rect, closingUp: bool): (r: seq<Point>)
    requires points != [] && e.Visible()
    ensures |r| >= |points| && r[..|points|] == points
    ensures var np, nr := e.clippedEnds.value.End(o), e.clippedEnds.value.End(Other(o));
      forall k :: |points| <= k < |r| ==> r[k] == np || r[k] == nr || IsCorner(b, r[k])
    ensures var rp, np, nr := points[|points| - 1], e.clippedEnds.value.End(o), e.clippedEnds.value.End(Other(o));
      (CloseEnough(rp, np) || rp.x == np.x || rp.y == np.y) ==>
        forall k :: |points| <= k < |r| ==> r[k] == np || r[k] == nr
    ensures var rp, np, nr := points[|points| - 1], e.clippedEnds.value.End(o), e.clippedEnds.value.End(Other(o));
      (CloseEnough(rp, np) || !closingUp) ==>
        (CloseEnough(points[0], nr) ==> nr !in r[|points|..] || nr == np || IsCorner(b, nr)) &&
        (!CloseEnough(points[0], nr) ==> r[|r| - 1] == nr)
  {
    var rp := points[|points| - 1];
    var ends := e.clippedEnds.value;
    var np := ends.End(o);
    var nr := ends.End(Other(o));
    if !CloseEnough(rp, np) then
      var cs := if rp.x != np.x && rp.y != np.y then Corners(rp, np, b) else [];
      if closingUp then points + cs
      else CloseWith(points + cs + [np], nr)
    else CloseWith(points, nr)
  }

  // ----------------------------------------------------------- ClipToBounds

  /** `p` is a clipped end of one of the visible edges. */
  ghost predicate EdgePoint(es: seq<Edge>, p: Point) {
    exists k :: 0 <= k < |es| && es[k].Visible() && (p == es[k].clippedEnds.value.left || p == es[k].clippedEnds.value.right)
  }

  /** Every point came from a visible edge or is a corner of the bounds. */
  ghost predicate Traced(es: seq<Edge>, b: Rect, ps: seq<Point>) {
    forall k :: 0 <= k < |ps| ==> IsCorner(b, ps[k]) || EdgePoint(es, ps[k])
  }

  /** The first visible edge at or after `i`, or `|es|` when there is none. */
  function FirstVisible(es: seq<Edge>, i: nat): (r: nat)
    requires i <= |es|
    ensures i <= r <= |es|
    ensures r < |es| ==> es[r].Visible()
    ensures forall k :: i <= k < r ==> !es[k].Visible()
    decreases |es| - i
  {
    if i == |es| || es[i].Visible() then i else FirstVisible(es, i + 1)
  }

  /** The `for` loop of `ClipToBounds`: connects every visible edge from position `j` on. */
  function ConnectFrom(ps: seq<Point>, es: seq<Edge>, os: seq<Side>, j: nat, b: Rect): (r: seq<Point>)
    requires ps != [] && j <= |es| <= |os|
    ensures |r| >= |ps| && r[..|ps|] == ps
    decreases |es| - j
  {
    if j == |es| then ps
    else if !es[j].Visible() then ConnectFrom(ps, es, os, j + 1, b)
    else
      var ps2 := Connect(ps, es[j], os[j], b, false);
      var r := ConnectFrom(ps2, es, os, j + 1, b);
      assert r[..|ps|] == r[..|ps2|][..|ps|];
      r
  }

  /** Connecting the remaining edges keeps every point traced to an edge or a corner. */
  lemma {:induction false} ConnectFromTraced(ps: seq<Point>, es: seq<Edge>, os: seq<Side>, j: nat, b: Rect)
    requires ps != [] && j <= |es| <= |os|
    requires Traced(es, b, ps)
    ensures Traced(es, b, ConnectFrom(ps, es, os, j, b))
    decreases |es| - j
  {
    if j < |es| {
      if !es[j].Visible() {
        ConnectFromTraced(ps, es, os, j + 1, b);
      } else {
        ConnectTraced(ps, es, os, j, b, false);
        ConnectFromTraced(Connect(ps, es[j], os[j], b, false), es, os, j + 1, b);
      }
    }
  }

  /** Connecting one of the edges keeps every point traced to an edge or a corner. */
  lemma ConnectTraced(ps: seq<Point>, es: seq<Edge>, os: seq<Side>, j: nat, b: Rect, closingUp: bool)
    requires ps != [] && j < |es| <= |os| && es[j].Visible()
    requires Traced(es, b, ps)
    ensures Traced(es, b, Connect(ps, es[j], os[j], b, closingUp))
  {
    var r := Connect(ps, es[j], os[j], b, closingUp);
    var ends := es[j].clippedEnds.value;
    forall k | 0 <= k < |r|
      ensures IsCorner(b, r[k]) || EdgePoint(es, r[k])
    {
      if k < |ps| {
        assert r[k] == ps[k];
      } else if !IsCorner(b, r[k]) {
        assert r[k] == ends.End(os[j]) || r[k] == ends.End(Other(os[j]));
        assert r[k] == ends.left || r[k] == ends.right;
      }
    }
  }

  /**
   * `Site.ClipToBounds`: empty when no edge is visible; otherwise the first visible
   * edge's clipped ends in its orientation, then every later visible edge connected in
   * turn, then the connection back to the first visible edge to close the polygon.
   */
  function ClipToBounds(es: seq<Edge>, os: seq<Side>, b: Rect): (r: seq<Point>)
    requires |es| <= |os|
    ensures r == [] <==> forall k :: 0 <= k < |es| ==> !es[k].Visible()
    ensures r != [] ==>
      var i := FirstVisible(es, 0);
      |r| >= 2 && r[0] == es[i].clippedEnds.value.End(os[i]) && r[1] == es[i].clippedEnds.value.End(Other(os[i]))
    ensures Traced(es, b, r)
  {
    var i := FirstVisible(es, 0);
    if i == |es| then []
    else
      var ends := es[i].clippedEnds.value;
      var start := [ends.End(os[i]), ends.End(Other(os[i]))];
      OtherInvolution(os[i]);
      assert Traced(es, b, start) by {
        assert EdgePoint(es, start[0]) && EdgePoint(es, start[1]);
      }
      var ps := ConnectFrom(start, es, os, i + 1, b);
      ConnectFromTraced(start, es, os, i + 1, b);
      ConnectTraced(ps, es, os, i, b, true);
      var r := Connect(ps, es[i], os[i], b, true);
      assert r[..2] == r[..|ps|][..2];
      r
  }

  /** With non-negative extents and every clipped end inside the bounds, so is the polygon. */
  lemma TracedInside(es: seq<Edge>, b: Rect, ps: seq<Point>)
    requires Traced(es, b, ps) && b.width >= 0.0 && b.height >= 0.0
    requires forall k :: 0 <= k < |es| && es[k].Visible() ==>
      b.Contains(es[k].clippedEnds.value.left) && b.Contains(es[k].clippedEnds.value.right)
    ensures forall k :: 0 <= k < |ps| ==> b.Contains(ps[k])
  {
    forall k | 0 <= k < |ps|
      ensures b.Contains(ps[k])
    {
      if !IsCorner(b, ps[k]) {
        var m :| 0 <= m < |es| && es[m].Visible() && (ps[k] == es[m].clippedEnds.value.left || ps[k] == es[m].clippedEnds.value.right);
      }
    }
  }

  // ----------------------------------------------------------------- Region

  /** The polygon turned so that it is not clockwise: reversed when it was. */
  function Oriented(ps: seq<Point>): (r: seq<Point>)
    ensures WindingOf(r) != CLOCKWISE
    ensures r == ps || r == Reverse(ps)
    ensures multiset(r) == multiset(ps)
  {
    ReverseFlipsWinding(ps);
    ReverseMultiset(ps);
    if WindingOf(ps) == CLOCKWISE then Reverse(ps) else ps
  }

  /** What the site's caches guarantee: orientations cover the edges, regions are not clockwise. */
  ghost predicate SiteOk(site: Site) {
    && (site.orientations.Some? ==> |site.edges| <= |site.orientations.value|)
    && (site.region.Some? ==> WindingOf(site.region.value) != CLOCKWISE)
  }

  /** A fresh site is well formed, and reordering keeps a site well formed. */
  lemma SiteOkKept(site: Site)
    ensures SiteOk(NewSite(site.coord, site.index, site.color))
    ensures SiteOk(site) && ReorderSite(site).Some? ==> SiteOk(ReorderSite(site).value)
    ensures SiteOk(site) && NeighborSites(site).Some? ==> SiteOk(NeighborSites(site).value.0)
  {
  }

  /**
   * `Site.Region` as written: no edges give an empty polygon; the polygon is computed
   * (reorder, clip, turn) and cached only when the orientations have not been computed
   * yet; otherwise the cached `_region` is returned, null if it was never computed.
   * The outer `None` is a reorderer that never finishes.
   */
  function Region(site: Site, b: Rect): (r: Option<(Site, Option<seq<Point>>)>)
    requires SiteOk(site)
    ensures r.Some? ==> SiteOk(r.value.0)
    ensures r.Some? && r.value.1.Some? ==> WindingOf(r.value.1.value) != CLOCKWISE
    ensures site.edges == [] ==> r == Some((site, Some([])))
  {
    if site.edges == [] then Some((site, Some([])))
    else if site.orientations.None? then
      match ReorderSite(site)
      case None => None
      case Some(s) =>
        var reg := Oriented(ClipToBounds(s.edges, s.orientations.value, b));
        Some((s.(region := Some(reg)), Some(reg)))
    else Some((site, site.region))
  }

  /** Asking a second time returns the cached answer. */
  lemma RegionCached(site: Site, b: Rect)
    requires SiteOk(site) && Region(site, b).Some?
    ensures var (s, reg) := Region(site, b).value;
      Region(s, b) == Some((s, reg))
  {
    var (s, reg) := Region(site, b).value;
    if site.edges != [] && site.orientations.None? && s.edges == [] {
      assert ClipToBounds(s.edges, s.orientations.value, b) == [];
      assert reg == Some([]);
    }
  }

  /** A site with one edge between two distinct sites and no vertices yet. */
  function OneEdgeSite(): Site {
    var line := Bisector(0, Point(0.0, 0.0), Point(1.0, 0.0), 1.0, 0.0, 0.5);
    Site(Point(0.0, 0.0), 0, 0, [Edge(line, None, None, None)], None, None)
  }

  /**
   * Asking for the neighbours first reorders the edges without computing the region,
   * after which `Region` finds the orientations set and returns the null `_region`.
   */
  lemma RegionNullAfterNeighborSites(b: Rect)
    ensures NeighborSites(OneEdgeSite()).Some?
    ensures var s := NeighborSites(OneEdgeSite()).value.0;
      SiteOk(s) && s.edges != [] && Region(s, b) == Some((s, None))
  {
    var site := OneEdgeSite();
    var e := site.edges[0];
    assert !Unbounded(e, VERTEX);
    var w := Start(site.edges, VERTEX);
    assert w.nDone == 1;
    assert Passes(site.edges, VERTEX, w) == Some(Reordered([e], [LEFT]));
    assert NewReorderer(site.edges, VERTEX) == Some(Reordered([e], [LEFT]));
  }

  /**
   * `Site.Region` as evidently intended: the polygon is computed whenever no region is
   * cached, reusing the orientations if the edges were already reordered.
   */
  function RegionFixed(site: Site, b: Rect): (r: Option<(Site, Option<seq<Point>>)>)
    requires SiteOk(site)
    ensures r.Some? ==> SiteOk(r.value.0) && r.value.1.Some?
    ensures r.Some? ==> WindingOf(r.value.1.value) != CLOCKWISE
    ensures site.edges == [] ==> r == Some((site, Some([])))
    ensures site.edges != [] && site.region.Some? ==> r == Some((site, site.region))
  {
    if site.edges == [] then Some((site, Some([])))
    else if site.region.Some? then Some((site, site.region))
    else
      var reordered := if site.orientations.None? then ReorderSite(site) else Some(site);
      match reordered
      case None => None
      case Some(s) =>
        var reg := Oriented(ClipToBounds(s.edges, s.orientations.value, b));
        Some((s.(region := Some(reg)), Some(reg)))
  }

  /**
   * The corrected region agrees with the source on a site whose edges were never
   * reordered, and after `NeighborSites` it still yields a polygon.
   */
  lemma RegionFixedAgrees(site: Site, b: Rect)
    requires SiteOk(site) && site.orientations.None? && site.region.None?
    ensures RegionFixed(site, b) == Region(site, b)
    ensures NeighborSites(site).Some? ==>
      var s := NeighborSites(site).value.0;
      SiteOk(s) && (RegionFixed(s, b).Some? ==> RegionFixed(s, b).value.1.Some?)
  {
  }

  /** The corrected region is cached too: asking again returns the same polygon. */
  lemma RegionFixedCached(site: Site, b: Rect)
    requires SiteOk(site) && RegionFixed(site, b).Some?
    ensures var (s, reg) := RegionFixed(site, b).value;
      RegionFixed(s, b) == Some((s, reg))
  {
  }
}
