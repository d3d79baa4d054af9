/**
 * Halfedges of the sweep (Delaunay/Halfedge.cs) and the vertex construction
 * `Vertex.Intersect` (Delaunay/Vertex.cs) that works on them.
 *
 * A halfedge is one side of a bisector on the beach line. In the C# code halfedges are
 * objects linked to each other; here they live in a store keyed by `HId`, and the links
 * (`edgeListLeftNeighbor`, `edgeListRightNeighbor`, `nextInPriorityQueue`) are optional ids.
 */
module Halfedges {
  import opened Wrappers
  import opened LR
  import opened Geom
  import opened Edges

  /** The identity of a halfedge object. */
  type HId = nat

  /**
   * What a halfedge's `edge` field refers to: nothing (the dummies), the `Edge.DELETED`
   * tombstone that `EdgeList.Remove` leaves behind, or a live edge, given by its bisector.
   */
  datatype EdgeRef = NoEdge | Deleted | Live(line: Bisector)

  datatype Halfedge = Halfedge(
    edge: EdgeRef,
    side: Option<Side>,
    vertex: Option<Vertex>,
    ystar: real,
    leftNeighbor: Option<HId>,
    rightNeighbor: Option<HId>,
    nextInQueue: Option<HId>)

  /**
   * `Halfedge.Create` / `Init`: the given edge and side, no vertex and no queue successor.
   * A halfedge from the pool was unlinked before it was pooled, so it has no neighbours
   * either; `ystar` is assigned before every use and starts at 0 here.
   */
  function Create(edge: EdgeRef, side: Option<Side>): (h: Halfedge)
    ensures h.edge == edge && h.side == side
    ensures h.vertex.None? && h.nextInQueue.None?
    ensures h.leftNeighbor.None? && h.rightNeighbor.None?
  {
    Halfedge(edge, side, None, 0.0, None, None, None)
  }

  /** `Halfedge.CreateDummy`: no edge and no side. */
  function CreateDummy(): (h: Halfedge)
    ensures h.edge == NoEdge && h.side.None? && h.vertex.None?
    ensures h.leftNeighbor.None? && h.rightNeighbor.None? && h.nextInQueue.None?
  {
    Create(NoEdge, None)
  }

  /** The halfedge is still linked into the beach line or into a queue bucket. */
  predicate StillLinked(h: Halfedge) {
    h.leftNeighbor.Some? || h.rightNeighbor.Some? || h.nextInQueue.Some?
  }

  /**
   * `Halfedge.Dispose`: does nothing while the halfedge is still linked; otherwise it
   * clears the edge, the side and the vertex (and goes back to the pool, not modelled).
   */
  function Dispose(h: Halfedge): (r: Halfedge)
    ensures StillLinked(h) ==> r == h
    ensures !StillLinked(h) ==> r.edge == NoEdge && r.side.None? && r.vertex.None? && !StillLinked(r)
    ensures r.ystar == h.ystar
  {
    if StillLinked(h) then h else h.(edge := NoEdge, side := None, vertex := None)
  }

  /** `Halfedge.ReallyDispose`: clears every link and field unconditionally. */
  function ReallyDispose(h: Halfedge): (r: Halfedge)
    ensures !StillLinked(r)
    ensures r.edge == NoEdge && r.side.None? && r.vertex.None?
    ensures r.ystar == h.ystar
  {
    h.(leftNeighbor := None, rightNeighbor := None, nextInQueue := None,
       edge := NoEdge, side := None, vertex := None)
  }

  // ---------------------------------------------------------------- IsLeftOf

  /**
   * The division in the `a = 1` test is by the x-distance of the sites, which the
   * normalisation keeps nonzero (`Edges.NormalisedCoefficients`).
   */
  predicate SlopeDefined(l: Bisector) {
    l.a == 1.0 ==> l.rightSite.x != l.leftSite.x
  }

  /**
   * The `above` test of `IsLeftOf` in the `a = 1` branch: a fast test where the sign
   * of the slope decides, and otherwise the exact comparison.
   */
  function AboveSlopedLine(l: Bisector, p: Point, rightOfSite: bool): bool
    requires l.a == 1.0 && SlopeDefined(l)
  {
    var top := l.rightSite;
    var dyp := p.y - top.y;
    var dxp := p.x - top.x;
    var fastAbove :=
      if (!rightOfSite && l.b < 0.0) || (rightOfSite && l.b >= 0.0) then
        var above := dyp >= l.b * dxp;
        (above, above)
      else
        var above0 := p.x + p.y * l.b > l.c;
        var above := if l.b < 0.0 then !above0 else above0;
        (above, !above);
    if fastAbove.1 then fastAbove.0
    else
      var dxs := top.x - l.leftSite.x;
      var above0 := l.b * (dxp * dxp - dyp * dyp) < dxs * dyp * (1.0 + 2.0 * dxp / dxs + l.b * l.b);
      if l.b < 0.0 then !above0 else above0
  }

  /**
   * The `above` test in the `b = 1` branch: `p` lies farther (vertically) from the
   * bisector point below or above it than that point lies from the top site.
   */
  function AboveFlatLine(l: Bisector, p: Point): bool {
    var top := l.rightSite;
    var yl := l.c - l.a * p.x;
    var t1 := p.y - yl;
    var t2 := p.x - top.x;
    var t3 := yl - top.y;
    t1 * t1 > t2 * t2 + t3 * t3
  }

  /**
   * `Halfedge.IsLeftOf(p)`: the halfedge lies to the left of `p` on the beach line.
   * A LEFT halfedge is left of every point right of its top site, a RIGHT halfedge is
   * left of no point that is not; otherwise the `above` test decides.
   */
  function IsLeftOf(h: Halfedge, p: Point): (r: bool)
    requires h.edge.Live? && SlopeDefined(h.edge.line)
    ensures h.side == Some(LEFT) && p.x > h.edge.line.rightSite.x ==> r
    ensures h.side == Some(RIGHT) && p.x <= h.edge.line.rightSite.x ==> !r
    ensures h.side == Some(LEFT) && p.x <= h.edge.line.rightSite.x && h.edge.line.a != 1.0 ==>
      (r <==> AboveFlatLine(h.edge.line, p))
    ensures h.side == Some(RIGHT) && p.x > h.edge.line.rightSite.x && h.edge.line.a != 1.0 ==>
      (r <==> !AboveFlatLine(h.edge.line, p))
  {
    var l := h.edge.line;
    var rightOfSite := p.x > l.rightSite.x;
    if rightOfSite && h.side == Some(LEFT) then true
    else if !rightOfSite && h.side == Some(RIGHT) then false
    else
      var above := if l.a == 1.0 then AboveSlopedLine(l, p, rightOfSite) else AboveFlatLine(l, p);
      if h.side == Some(LEFT) then above else !above
  }

  /**
   * The `b = 1` test in geometric terms: take the point `q` of the bisector straight
   * above or below `p`; `p` counts as above when its vertical distance to `q` exceeds the
   * distance from `q` to either of the two sites (they are equal, `q` being on the bisector).
   */
  lemma AboveFlatLineGeometric(l: Bisector, p: Point, q: Point)
    requires Normalised(l) && l.a != 1.0
    requires OnLine(l, q) && q.x == p.x
    ensures AboveFlatLine(l, p) <==> (p.y - q.y) * (p.y - q.y) > SqDist(q, l.rightSite)
    ensures AboveFlatLine(l, p) <==> (p.y - q.y) * (p.y - q.y) > SqDist(q, l.leftSite)
  {
    NormalisedCoefficients(l);
    SolveAtLevelX(l, q, p.x);
    var yl := l.c - l.a * p.x;
    assert yl == q.y;
    assert SqDist(q, l.rightSite) == (p.x - l.rightSite.x) * (p.x - l.rightSite.x) + (yl - l.rightSite.y) * (yl - l.rightSite.y);
    assert SqDist(q, l.leftSite) == SqDist(q, l.rightSite) by {
      BisectorEquidistant(l.leftSite, l.rightSite, l.id, q);
    }
  }

  // --------------------------------------------------------------- Intersect

  /** The determinant of the two line equations. */
  function Determinant(l0: Bisector, l1: Bisector): real {
    l0.a * l1.b - l0.b * l1.a
  }

  /** `Vertex.Intersect` treats determinants within 1e-10 of zero as parallel lines. */
  predicate NearlyParallel(l0: Bisector, l1: Bisector) {
    -1.0e-10 < Determinant(l0, l1) && Determinant(l0, l1) < 1.0e-10
  }

  /** Of the two halfedges, the one whose edge's right site comes first by `(y, x)`. */
  function LowerHalfedge(h0: Halfedge, h1: Halfedge): (h: Halfedge)
    requires h0.edge.Live? && h1.edge.Live?
    ensures h == h0 || h == h1
    ensures h.edge.Live?
  {
    if CompareByYThenX(h0.edge.line.rightSite, h1.edge.line.rightSite) < 0 then h0 else h1
  }

  /**
   * The intersection lies on the side of the lower halfedge's right site that the
   * halfedge faces: not right of it for a LEFT halfedge, not left of it for a RIGHT one.
   */
  predicate OnFacingSide(h: Halfedge, x: real)
    requires h.edge.Live?
  {
    var rightOfSite := x >= h.edge.line.rightSite.x;
    !(rightOfSite && h.side == Some(LEFT)) && !(!rightOfSite && h.side == Some(RIGHT))
  }

  /** Cramer's rule for the two lines. */
  function Solve(l0: Bisector, l1: Bisector): (p: Point)
    requires !NearlyParallel(l0, l1)
    ensures OnLine(l0, p) && OnLine(l1, p)
  {
    var d := Determinant(l0, l1);
    var x := (l0.c * l1.b - l1.c * l0.b) / d;
    var y := (l1.c * l0.a - l0.c * l1.a) / d;
    Cramer(l0.a, l0.b, l0.c, l1.a, l1.b, l1.c, d, x, y);
    Point(x, y)
  }

  lemma Cramer(a0: real, b0: real, c0: real, a1: real, b1: real, c1: real, d: real, x: real, y: real)
    requires d == a0 * b1 - b0 * a1 && d != 0.0
    requires x == (c0 * b1 - c1 * b0) / d && y == (c1 * a0 - c0 * a1) / d
    ensures a0 * x + b0 * y == c0
    ensures a1 * x + b1 * y == c1
  {
    var X := c0 * b1 - c1 * b0;
    var Y := c1 * a0 - c0 * a1;
    assert d * x == X && d * y == Y;
    assert a0 * X + b0 * Y == c0 * d;
    assert a1 * X + b1 * Y == c1 * d;
    ScaledSolution(a0, b0, c0, d, x, y, X, Y);
    ScaledSolution(a1, b1, c1, d, x, y, X, Y);
  }

  lemma ScaledSolution(a: real, b: real, c: real, d: real, x: real, y: real, X: real, Y: real)
    requires d != 0.0 && d * x == X && d * y == Y && a * X + b * Y == c * d
    ensures a * x + b * y == c
  {
    assert d * (a * x + b * y) == a * (d * x) + b * (d * y);
    assert d * (a * x + b * y) == d * c;
  }

  /**
   * `Vertex.Intersect`: the vertex where the two halfedges' bisectors cross, or nothing
   * when either halfedge has no live edge, when both edges share their right site, when
   * the lines are (nearly) parallel, or when the crossing lies on the wrong side of the
   * lower halfedge. The new vertex takes the fresh identity `id`.
   */
  function Intersect(h0: Halfedge, h1: Halfedge, id: nat): (r: Option<Vertex>)
    ensures !h0.edge.Live? || !h1.edge.Live? ==> r.None?
    ensures r.Some? <==>
      && h0.edge.Live? && h1.edge.Live?
      && h0.edge.line.rightSite != h1.edge.line.rightSite
      && !NearlyParallel(h0.edge.line, h1.edge.line)
      && OnFacingSide(LowerHalfedge(h0, h1), Solve(h0.edge.line, h1.edge.line).x)
    ensures r.Some? ==> r.value.Finite? && r.value.id == id
    ensures r.Some? ==> OnLine(h0.edge.line, r.value.coord) && OnLine(h1.edge.line, r.value.coord)
  {
    // A null edge gives no vertex. `Edge.DELETED` has no sites, so reading its right site
    // would throw (`Edge.cs` 143, 218-221); the sweep only intersects halfedges still on
    // the beach line, which never carry it, and the model answers nothing for it too.
    if !h0.edge.Live? || !h1.edge.Live? then None
    else
      var l0 := h0.edge.line;
      var l1 := h1.edge.line;
      if l0.rightSite == l1.rightSite then None
      else if NearlyParallel(l0, l1) then None
      else
        var p := Solve(l0, l1);
        if !OnFacingSide(LowerHalfedge(h0, h1), p.x) then None
        else Some(CreateVertex(Num(p.x), Num(p.y), id))
  }

  /**
   * A vertex made from two bisectors is equally far from all the sites of both edges:
   * it is the centre of the circle through them.
   */
  lemma IntersectEquidistant(h0: Halfedge, h1: Halfedge, id: nat)
    requires h0.edge.Live? && h1.edge.Live?
    requires Normalised(h0.edge.line) && Normalised(h1.edge.line)
    requires Intersect(h0, h1, id).Some?
    ensures var v := Intersect(h0, h1, id).value.coord;
      && SqDist(v, h0.edge.line.leftSite) == SqDist(v, h0.edge.line.rightSite)
      && SqDist(v, h1.edge.line.leftSite) == SqDist(v, h1.edge.line.rightSite)
  {
    var v := Intersect(h0, h1, id).value.coord;
    var l0 := h0.edge.line;
    var l1 := h1.edge.line;
    BisectorEquidistant(l0.leftSite, l0.rightSite, l0.id, v);
    BisectorEquidistant(l1.leftSite, l1.rightSite, l1.id, v);
  }
}
