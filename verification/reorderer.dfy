/**
 * Chaining an unordered bag of edges into traversal order (Delaunay/EdgeReorderer.cs).
 *
 * Edges are compared by their ends, read either as vertices or as sites. The first
 * edge starts the chain with orientation `LEFT`; every later pass over the remaining
 * edges appends an edge whose entry end meets the chain's last point or prepends one
 * whose exit end meets the first point, recording whether it is walked left to right
 * (`LEFT`) or right to left (`RIGHT`). An edge touching the vertex at infinity abandons
 * the whole reordering.
 */
module Reorderer {
  import opened Wrappers
  import opened LR
  import opened Edges

  /** `VertexOrSite`: which pair of ends chains the edges. */
  datatype Criterion = VERTEX | SITE

  /**
   * An end as the reorderer compares it (`ICoord` reference equality): an optional
   * vertex (`None` is a null vertex) or a site, identified by its coordinate.
   */
  datatype EndPoint = VertexEnd(v: Option<Vertex>) | SiteEnd(p: Geom.Point)

  /** The end of `e` on side `s` under the criterion. */
  function EndOf(e: Edge, s: Side, c: Criterion): EndPoint {
    if c == VERTEX then VertexEnd(VertexAt(e, s)) else SiteEnd(e.line.Site(s))
  }

  predicate AtInf(p: EndPoint) {
    p == VertexEnd(Some(AtInfinity))
  }

  /** One of the edge's ends, as the criterion reads them, is the vertex at infinity. */
  predicate Unbounded(e: Edge, c: Criterion) {
    AtInf(EndOf(e, LEFT, c)) || AtInf(EndOf(e, RIGHT, c))
  }

  /** Where a walk along `e` in orientation `s` enters and leaves it. */
  function Entry(e: Edge, s: Side, c: Criterion): EndPoint { EndOf(e, s, c) }
  function Exit(e: Edge, s: Side, c: Criterion): EndPoint { EndOf(e, Other(s), c) }

  /** Consecutive edges meet: each one is left where the next one is entered. */
  ghost predicate Chained(es: seq<Edge>, ss: seq<Side>, c: Criterion) {
    |es| == |ss| &&
    forall k {:trigger Exit(es[k], ss[k], c)} :: 0 <= k < |es| - 1 ==>
      Exit(es[k], ss[k], c) == Entry(es[k + 1], ss[k + 1], c)
  }

  /** The result: edges in traversal order and the orientation of each. */
  datatype Reordered = Reordered(edges: seq<Edge>, orientations: seq<Side>)

  // ------------------------------------------------------ marked edges

  /** The edges whose `done` flag is set, in input order. */
  function Picked(orig: seq<Edge>, done: seq<bool>): seq<Edge>
    requires |done| == |orig|
    decreases |orig|
  {
    if orig == [] then []
    else (if done[0] then [orig[0]] else []) + Picked(orig[1..], done[1..])
  }

  lemma {:induction false} PickedNone(orig: seq<Edge>, done: seq<bool>)
    requires |done| == |orig| && forall j :: 0 <= j < |done| ==> !done[j]
    ensures Picked(orig, done) == []
    decreases |orig|
  {
    if orig != [] {
      PickedNone(orig[1..], done[1..]);
    }
  }

  /** Marking one more edge adds exactly that edge. */
  lemma {:induction false} PickedMark(orig: seq<Edge>, done: seq<bool>, i: nat)
    requires |done| == |orig| && i < |orig| && !done[i]
    ensures multiset(Picked(orig, done[i := true])) == multiset(Picked(orig, done)) + multiset{orig[i]}
    ensures |Picked(orig, done[i := true])| == |Picked(orig, done)| + 1
    decreases |orig|
  {
    if i > 0 {
      PickedMark(orig[1..], done[1..], i - 1);
      assert done[i := true][1..] == done[1..][i - 1 := true];
    } else {
      assert done[i := true][1..] == done[1..];
    }
  }

  /** At most every edge is marked, and when every edge is, all of them are picked in order. */
  lemma {:induction false} PickedAll(orig: seq<Edge>, done: seq<bool>)
    requires |done| == |orig|
    ensures |Picked(orig, done)| <= |orig|
    ensures |Picked(orig, done)| == |orig| ==> Picked(orig, done) == orig
    ensures |Picked(orig, done)| == |orig| ==> forall j :: 0 <= j < |done| ==> done[j]
    decreases |orig|
  {
    if orig != [] {
      PickedAll(orig[1..], done[1..]);
      if |Picked(orig, done)| == |orig| {
        assert done[0];
        assert orig == [orig[0]] + orig[1..];
        forall j | 0 <= j < |done|
          ensures done[j]
        {
          if j > 0 {
            assert done[j] == done[1..][j - 1];
          }
        }
      }
    }
  }

  // --------------------------------------------------------------- the walk

  /**
   * The reorderer's state: the chain so far and its orientations, its open ends
   * (`firstPoint`, `lastPoint`), the `done` flags and their count.
   */
  datatype Walk = Walk(
    edges: seq<Edge>,
    sides: seq<Side>,
    first: EndPoint,
    last: EndPoint,
    done: seq<bool>,
    nDone: nat)

  /**
   * The walk holds a chain of exactly the marked edges, bounded by `first` and `last`,
   * none of which touches the vertex at infinity.
   */
  ghost predicate WalkOk(orig: seq<Edge>, c: Criterion, w: Walk) {
    Marked(orig, c, w) && Ends(c, w)
  }

  /** The walk's edges are exactly the marked ones, none of them unbounded. */
  ghost predicate Marked(orig: seq<Edge>, c: Criterion, w: Walk) {
    && |w.done| == |orig| && |orig| >= 1 && w.done[0]
    && |w.edges| == |w.sides| == w.nDone == |Picked(orig, w.done)|
    && multiset(w.edges) == multiset(Picked(orig, w.done))
    && (forall j :: 0 <= j < |orig| && w.done[j] ==> !Unbounded(orig[j], c))
  }

  /** The walk's edges form a chain from `first` to `last`. */
  ghost predicate Ends(c: Criterion, w: Walk) {
    && w.edges != []
    && Chained(w.edges, w.sides, c)
    && w.first == Entry(w.edges[0], w.sides[0], c)
    && w.last == Exit(w.edges[|w.edges| - 1], w.sides[|w.sides| - 1], c)
  }

  /**
   * One placement attempt for input edge `i` with ends `lp`, `rp`: append it when its
   * left end meets the last point, prepend it when its right end meets the first point,
   * then the same two tests with the edge reversed; otherwise leave the walk as it is.
   */
  function Place(w: Walk, e: Edge, i: nat, lp: EndPoint, rp: EndPoint): (r: Walk)
    requires i < |w.done|
    ensures r == w || (r.done == w.done[i := true] && r.nDone == w.nDone + 1)
  {
    var done := w.done[i := true];
    if lp == w.last then
      w.(last := rp, sides := w.sides + [LEFT], edges := w.edges + [e], done := done, nDone := w.nDone + 1)
    else if rp == w.first then
      w.(first := lp, sides := [LEFT] + w.sides, edges := [e] + w.edges, done := done, nDone := w.nDone + 1)
    else if lp == w.first then
      w.(first := rp, sides := [RIGHT] + w.sides, edges := [e] + w.edges, done := done, nDone := w.nDone + 1)
    else if rp == w.last then
      w.(last := lp, sides := w.sides + [RIGHT], edges := w.edges + [e], done := done, nDone := w.nDone + 1)
    else w
  }

  /** The outcome of one pass: the walk after it, or the orientations at an infinite end. */
  datatype Pass = Placed(w: Walk) | Hit(orientations: seq<Side>)

  /** Appending an edge entered where the chain is left keeps it chained. */
  lemma AppendChained(es: seq<Edge>, ss: seq<Side>, c: Criterion, e: Edge, s: Side)
    requires Chained(es, ss, c) && es != []
    requires Exit(es[|es| - 1], ss[|ss| - 1], c) == Entry(e, s, c)
    ensures Chained(es + [e], ss + [s], c)
  {
    var es2, ss2 := es + [e], ss + [s];
    forall k | 0 <= k < |es2| - 1
      ensures Exit(es2[k], ss2[k], c) == Entry(es2[k + 1], ss2[k + 1], c)
    {
      if k < |es| - 1 {
        assert Exit(es[k], ss[k], c) == Entry(es[k + 1], ss[k + 1], c);
      }
    }
  }

  /** Prepending an edge left where the chain is entered keeps it chained. */
  lemma PrependChained(es: seq<Edge>, ss: seq<Side>, c: Criterion, e: Edge, s: Side)
    requires Chained(es, ss, c) && es != []
    requires Exit(e, s, c) == Entry(es[0], ss[0], c)
    ensures Chained([e] + es, [s] + ss, c)
  {
    var es2, ss2 := [e] + es, [s] + ss;
    forall k | 0 <= k < |es2| - 1
      ensures Exit(es2[k], ss2[k], c) == Entry(es2[k + 1], ss2[k + 1], c)
    {
      if k > 0 {
        assert es2[k] == es[k - 1] && ss2[k] == ss[k - 1];
        assert Exit(es[k - 1], ss[k - 1], c) == Entry(es[k], ss[k], c);
      }
    }
  }

  /** The marked edges other than `i` were already marked, so they are bounded. */
  lemma MarkBounded(orig: seq<Edge>, c: Criterion, w: Walk, i: nat)
    requires Marked(orig, c, w) && i < |orig| && !Unbounded(orig[i], c)
    ensures forall j :: 0 <= j < |orig| && w.done[i := true][j] ==> !Unbounded(orig[j], c)
  {
    forall j | 0 <= j < |orig| && w.done[i := true][j]
      ensures !Unbounded(orig[j], c)
    {
      if j != i {
        assert w.done[j];
      }
    }
  }

  /** Appending input edge `i` in orientation `s` where its entry meets the last point. */
  lemma AppendOk(orig: seq<Edge>, c: Criterion, w: Walk, i: nat, s: Side)
    requires WalkOk(orig, c, w) && 1 <= i < |orig| && !w.done[i] && !Unbounded(orig[i], c)
    requires Entry(orig[i], s, c) == w.last
    ensures WalkOk(orig, c, w.(last := Exit(orig[i], s, c), sides := w.sides + [s],
      edges := w.edges + [orig[i]], done := w.done[i := true], nDone := w.nDone + 1))
  {
    MarkOk(orig, c, w, i, w.edges + [orig[i]], w.sides + [s], w.first, Exit(orig[i], s, c));
    AppendEnds(c, w, orig[i], s, w.done[i := true], w.nDone + 1);
  }

  /** Prepending input edge `i` in orientation `s` where its exit meets the first point. */
  lemma PrependOk(orig: seq<Edge>, c: Criterion, w: Walk, i: nat, s: Side)
    requires WalkOk(orig, c, w) && 1 <= i < |orig| && !w.done[i] && !Unbounded(orig[i], c)
    requires Exit(orig[i], s, c) == w.first
    ensures WalkOk(orig, c, w.(first := Entry(orig[i], s, c), sides := [s] + w.sides,
      edges := [orig[i]] + w.edges, done := w.done[i := true], nDone := w.nDone + 1))
  {
    MarkOk(orig, c, w, i, [orig[i]] + w.edges, [s] + w.sides, Entry(orig[i], s, c), w.last);
    PrependEnds(c, w, orig[i], s, w.done[i := true], w.nDone + 1);
  }

  /** Marking edge `i` while adding it to either end of the chain keeps the marks right. */
  lemma MarkOk(orig: seq<Edge>, c: Criterion, w: Walk, i: nat, es: seq<Edge>, ss: seq<Side>,
    f: EndPoint, l: EndPoint)
    requires Marked(orig, c, w) && 1 <= i < |orig| && !w.done[i] && !Unbounded(orig[i], c)
    requires multiset(es) == multiset(w.edges) + multiset{orig[i]}
    requires |es| == |ss| == |w.edges| + 1
    ensures Marked(orig, c, Walk(es, ss, f, l, w.done[i := true], w.nDone + 1))
  {
    PickedMark(orig, w.done, i);
    MarkBounded(orig, c, w, i);
  }

  /** Appending an edge entered at the last point keeps the chain's ends right. */
  lemma AppendEnds(c: Criterion, w: Walk, e: Edge, s: Side, done: seq<bool>, n: nat)
    requires Ends(c, w) && Entry(e, s, c) == w.last
    ensures Ends(c, w.(last := Exit(e, s, c), sides := w.sides + [s], edges := w.edges + [e],
      done := done, nDone := n))
  {
    AppendChained(w.edges, w.sides, c, e, s);
  }

  /** Prepending an edge left at the first point keeps the chain's ends right. */
  lemma PrependEnds(c: Criterion, w: Walk, e: Edge, s: Side, done: seq<bool>, n: nat)
    requires Ends(c, w) && Exit(e, s, c) == w.first
    ensures Ends(c, w.(first := Entry(e, s, c), sides := [s] + w.sides, edges := [e] + w.edges,
      done := done, nDone := n))
  {
    PrependChained(w.edges, w.sides, c, e, s);
  }

  /** A placement keeps the walk well formed. */
  lemma PlaceOk(orig: seq<Edge>, c: Criterion, w: Walk, i: nat)
    requires WalkOk(orig, c, w) && 1 <= i < |orig| && !w.done[i] && !Unbounded(orig[i], c)
    ensures WalkOk(orig, c, Place(w, orig[i], i, EndOf(orig[i], LEFT, c), EndOf(orig[i], RIGHT, c)))
  {
    var e := orig[i];
    var lp, rp := EndOf(e, LEFT, c), EndOf(e, RIGHT, c);
    OtherInvolution(LEFT);
    if lp == w.last {
      AppendOk(orig, c, w, i, LEFT);
    } else if rp == w.first {
      PrependOk(orig, c, w, i, LEFT);
    } else if lp == w.first {
      PrependOk(orig, c, w, i, RIGHT);
    } else if rp == w.last {
      AppendOk(orig, c, w, i, RIGHT);
    }
  }

  /**
   * One pass of the inner `for` loop over input positions `i .. n-1`. A pass keeps the
   * walk well formed and never unmarks an edge; it stops early only at an edge with an
   * infinite end, with the orientations placed so far.
   */
  function PassFrom(orig: seq<Edge>, c: Criterion, w: Walk, i: nat): (r: Pass)
    requires 1 <= i <= |orig| && WalkOk(orig, c, w)
    ensures match r
      case Placed(w2) => WalkOk(orig, c, w2) && w2.nDone >= w.nDone
      case Hit(ss) => ss != [] && exists j :: 0 <= j < |orig| && Unbounded(orig[j], c)
    decreases |orig| - i
  {
    if i == |orig| then Placed(w)
    else if w.done[i] then PassFrom(orig, c, w, i + 1)
    else
      var e := orig[i];
      var lp := EndOf(e, LEFT, c);
      var rp := EndOf(e, RIGHT, c);
      if AtInf(lp) || AtInf(rp) then Hit(w.sides)
      else
        PlaceOk(orig, c, w, i);
        PassFrom(orig, c, Place(w, e, i, lp, rp), i + 1)
  }

  /**
   * The outer `while (nDone < n)` loop. The source has no progress check: a pass that
   * places nothing repeats forever, which is `None` here.
   */
  function Passes(orig: seq<Edge>, c: Criterion, w: Walk): Option<Reordered>
    requires WalkOk(orig, c, w)
    decreases |orig| - w.nDone
  {
    PickedAll(orig, w.done);
    if w.nDone >= |orig| then Some(Reordered(w.edges, w.sides))
    else
      match PassFrom(orig, c, w, 1)
      case Hit(ss) => Some(Reordered([], ss))
      case Placed(w2) =>
        PickedAll(orig, w2.done);
        if w2.nDone == w.nDone then None else Passes(orig, c, w2)
  }

  /** The walk after placing the first edge with orientation `LEFT`. */
  function Start(orig: seq<Edge>, c: Criterion): (w: Walk)
    requires orig != [] && !Unbounded(orig[0], c)
    ensures WalkOk(orig, c, w)
  {
    var none := seq(|orig|, _ => false);
    PickedNone(orig, none);
    PickedMark(orig, none, 0);
    var w := Walk([orig[0]], [LEFT], EndOf(orig[0], LEFT, c), EndOf(orig[0], RIGHT, c), none[0 := true], 1);
    OtherInvolution(LEFT);
    w
  }

  /**
   * `ReorderEdges`: an infinite end on the first edge abandons at once with the single
   * `LEFT` orientation; otherwise the passes run from the first edge's chain.
   */
  function ReorderEdges(orig: seq<Edge>, c: Criterion): (r: Option<Reordered>)
    requires orig != []
    ensures Unbounded(orig[0], c) ==> r == Some(Reordered([], [LEFT]))
  {
    if Unbounded(orig[0], c) then Some(Reordered([], [LEFT]))
    else Passes(orig, c, Start(orig, c))
  }

  /** The `EdgeReorderer` constructor: no edges give two empty lists. */
  function NewReorderer(orig: seq<Edge>, c: Criterion): (r: Option<Reordered>)
    ensures orig == [] ==> r == Some(Reordered([], []))
  {
    if orig == [] then Some(Reordered([], [])) else ReorderEdges(orig, c)
  }

  // ------------------------------------------------------------- properties

  /** The passes end with a permutation of the input, chained, or abandon at an infinite end. */
  lemma {:induction false} PassesCorrect(orig: seq<Edge>, c: Criterion, w: Walk)
    requires WalkOk(orig, c, w)
    ensures var r := Passes(orig, c, w);
      r.Some? ==>
        if r.value.edges == [] then
          r.value.orientations != [] && exists j :: 0 <= j < |orig| && Unbounded(orig[j], c)
        else
          && multiset(r.value.edges) == multiset(orig)
          && Chained(r.value.edges, r.value.orientations, c)
          && forall j :: 0 <= j < |orig| ==> !Unbounded(orig[j], c)
    decreases |orig| - w.nDone
  {
    PickedAll(orig, w.done);
    if w.nDone < |orig| {
      match PassFrom(orig, c, w, 1)
      case Hit(ss) =>
      case Placed(w2) =>
        PickedAll(orig, w2.done);
        if w2.nDone != w.nDone {
          PassesCorrect(orig, c, w2);
        }
    }
  }

  /**
   * Whenever the reorderer finishes, its edge list is empty exactly when some edge has
   * an end at infinity (or there were no edges); otherwise it is a permutation of the
   * input with one orientation per edge, and consecutive edges share an end.
   */
  lemma ReorderCorrect(orig: seq<Edge>, c: Criterion)
    ensures var r := NewReorderer(orig, c);
      r.Some? ==>
        && (orig != [] ==> (r.value.edges == [] <==> exists j :: 0 <= j < |orig| && Unbounded(orig[j], c)))
        && (r.value.edges != [] ==>
              && multiset(r.value.edges) == multiset(orig)
              && |r.value.orientations| == |r.value.edges|
              && Chained(r.value.edges, r.value.orientations, c))
  {
    if orig != [] && !Unbounded(orig[0], c) {
      PassesCorrect(orig, c, Start(orig, c));
      var r := NewReorderer(orig, c);
      if r.Some? && r.value.edges != [] {
        assert |multiset(r.value.edges)| == |multiset(orig)|;
      }
    }
  }
}
