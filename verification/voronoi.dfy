/**
 * The `Voronoi` object (Delaunay/Voronoi.cs): site registration with duplicate
 * suppression, Fortune's sweep as a sequence of site and circle events over the beach
 * line, and the hull queries built on the finished edge list.
 *
 * The sweep is modelled one level above the linked structures of `EdgeLists` and
 * `PriorityQueues`: the beach line is the sequence of its halfedges from the left dummy to
 * the right dummy, and the event queue is the set of beach halfedges that carry a vertex
 * (a halfedge enters the queue exactly when it receives a vertex and leaves it when it
 * leaves the beach or is re-keyed). `Vector2.Distance` is the parameter `dist`.
 */
module Voronoi {
  import opened Wrappers
  import opened Sorting
  import opened LR
  import opened Geom
  import opened Edges
  import opened Halfedges
  import opened Triangles
  import opened Sites
  import opened SiteLists
  import opened PriorityQueues
  import opened Helpers
  import opened Reorderer

  // ------------------------------------------------------------ sequences

  /** No element occurs twice. */
  predicate NoDup<T(==)>(s: seq<T>) {
    forall i, j :: 0 <= i < j < |s| ==> s[i] != s[j]
  }

  lemma {:induction false} NoDupCount<T>(s: seq<T>, x: T)
    requires NoDup(s)
    ensures multiset(s)[x] <= 1
    decreases |s|
  {
    if s != [] {
      assert s == [s[0]] + s[1..];
      assert NoDup(s[1..]) by {
        forall i, j | 0 <= i < j < |s[1..]| ensures s[1..][i] != s[1..][j] {
          assert s[1..][i] == s[i + 1] && s[1..][j] == s[j + 1];
        }
      }
      NoDupCount(s[1..], x);
      if s[0] == x {
        assert x !in s[1..] by {
          forall k | 0 <= k < |s[1..]| ensures s[1..][k] != x {
            assert s[1..][k] == s[k + 1];
          }
        }
      }
    }
  }

  /** A permutation of a sequence without duplicates has none either. */
  lemma NoDupPermutation<T>(s: seq<T>, t: seq<T>)
    requires NoDup(s) && multiset(s) == multiset(t)
    ensures NoDup(t)
  {
    forall i, j | 0 <= i < j < |t| ensures t[i] != t[j] {
      if t[i] == t[j] {
        assert t == t[..i] + [t[i]] + t[i + 1..j] + [t[j]] + t[j + 1..];
        assert multiset(t)[t[i]] >= 2;
        NoDupCount(s, t[i]);
      }
    }
  }

  /** A sequence without duplicates has as many distinct elements as positions. */
  lemma {:induction false} NoDupCardinality<T>(s: seq<T>)
    requires NoDup(s)
    ensures |set x | x in s| == |s|
    decreases |s|
  {
    if s != [] {
      var t := s[..|s| - 1];
      assert NoDup(t);
      NoDupCardinality(t);
      assert (set x | x in s) == (set x | x in t) + {s[|s| - 1]};
      assert s[|s| - 1] !in t;
    }
  }

  // ---------------------------------------------------------------- sites

  /** The site list together with `_sitesIndexedByLocation`. */
  datatype Registry = Registry(list: SiteList, byLocation: map<Point, Site>)

  /** The coordinates of the listed sites. */
  function Located(sites: seq<Site>): set<Point> {
    set k | 0 <= k < |sites| :: sites[k].coord
  }

  /** No two listed sites share a coordinate. */
  ghost predicate DistinctCoords(sites: seq<Site>) {
    forall i, j :: 0 <= i < j < |sites| ==> sites[i].coord != sites[j].coord
  }

  /** The location index holds exactly the listed sites, each under its own coordinate. */
  ghost predicate Registered(reg: Registry) {
    && DistinctCoords(reg.list.sites)
    && reg.byLocation.Keys == Located(reg.list.sites)
    && (forall k :: 0 <= k < |reg.list.sites| ==> reg.byLocation[reg.list.sites[k].coord] == reg.list.sites[k])
    && !reg.list.sorted
  }

  /**
   * `AddSite`: a point already registered (by exact coordinate) is ignored; otherwise a
   * new site with the given index and colour is appended and indexed by its coordinate.
   */
  function AddSite(reg: Registry, p: Point, color: nat, index: nat): (r: Registry)
    ensures p in r.byLocation
    ensures p in reg.byLocation ==> r == reg
    ensures p !in reg.byLocation ==>
      && r.list.sites == reg.list.sites + [NewSite(p, index, color)]
      && r.byLocation == reg.byLocation[p := NewSite(p, index, color)]
  {
    if p in reg.byLocation then reg
    else
      var site := NewSite(p, index, color);
      Registry(SiteLists.Add(reg.list, site).0, reg.byLocation[p := site])
  }

  /** `AddSite` keeps the list and the location index in step, without duplicates. */
  lemma AddSiteRegistered(reg: Registry, p: Point, color: nat, index: nat)
    requires Registered(reg)
    ensures Registered(AddSite(reg, p, color, index))
  {
    if p !in reg.byLocation {
      var sites := reg.list.sites;
      var sites2 := AddSite(reg, p, color, index).list.sites;
      assert sites2 == sites + [NewSite(p, index, color)];
      assert forall k :: 0 <= k < |sites| ==> sites2[k] == sites[k];
      assert sites2[|sites|].coord == p;
      assert Located(sites2) == Located(sites) + {p};
    }
  }

  /** Sites with distinct coordinates have distinct coordinates in `Coords` order. */
  lemma DistinctCoordsNoDup(sites: seq<Site>)
    requires DistinctCoords(sites)
    ensures NoDup(Coords(sites))
  {
    CoordsAll(sites);
  }

  /** As many coordinates as sites, when no two sites share one. */
  lemma {:induction false} LocatedCardinality(sites: seq<Site>)
    requires DistinctCoords(sites)
    ensures |Located(sites)| == |sites|
    decreases |sites|
  {
    if sites != [] {
      var init := sites[..|sites| - 1];
      var last := sites[|sites| - 1];
      assert DistinctCoords(init);
      LocatedCardinality(init);
      assert Located(sites) == Located(init) + {last.coord};
      assert last.coord !in Located(init);
    }
  }

  lemma CoordsAll(xs: seq<Site>)
    ensures forall k :: 0 <= k < |xs| ==> Coords(xs)[k] == xs[k].coord
  {
    forall k | 0 <= k < |xs| ensures Coords(xs)[k] == xs[k].coord {
      CoordsAt(xs, k);
    }
  }

  /** `colors[i]`, or 0 when no colour list is given. */
  function ColorAt(colors: Option<seq<nat>>, i: nat): nat
    requires colors.Some? ==> i < |colors.value|
  {
    if colors.Some? then colors.value[i] else 0
  }

  /** The registry after `AddSite` ran for the first `n` points. */
  function AddPrefix(points: seq<Point>, colors: Option<seq<nat>>, n: nat): (r: Registry)
    requires n <= |points|
    requires colors.Some? ==> |colors.value| >= |points|
  {
    if n == 0 then Registry(NewSiteList(), map[])
    else AddSite(AddPrefix(points, colors, n - 1), points[n - 1], ColorAt(colors, n - 1), n - 1)
  }

  lemma {:induction false} AddPrefixRegistered(points: seq<Point>, colors: Option<seq<nat>>, n: nat)
    requires n <= |points|
    requires colors.Some? ==> |colors.value| >= |points|
    ensures Registered(AddPrefix(points, colors, n))
    decreases n
  {
    if n > 0 {
      var prev := AddPrefix(points, colors, n - 1);
      AddPrefixRegistered(points, colors, n - 1);
      AddSiteRegistered(prev, points[n - 1], ColorAt(colors, n - 1), n - 1);
      assert AddPrefix(points, colors, n) == AddSite(prev, points[n - 1], ColorAt(colors, n - 1), n - 1);
    }
  }

  /**
   * `AddSites`: every point in turn, with its position as index and its colour (0 without
   * a colour list). A colour list shorter than the points makes `colors[i]` throw, which
   * is `None` here.
   */
  function AddSites(points: seq<Point>, colors: Option<seq<nat>>): (r: Option<Registry>)
    ensures r.None? <==> colors.Some? && |colors.value| < |points|
    ensures r.Some? ==> Registered(r.value)
  {
    if colors.Some? && |colors.value| < |points| then None
    else
      AddPrefixRegistered(points, colors, |points|);
      Some(AddPrefix(points, colors, |points|))
  }

  /** Site indices increase along the list. */
  predicate IncreasingIndices(sites: seq<Site>) {
    forall k, l :: 0 <= k < l < |sites| ==> sites[k].index < sites[l].index
  }

  /**
   * Every site was made from the first occurrence of its coordinate among the first `n`
   * points, with that position as index and that position's colour.
   */
  predicate FromFirstOccurrences(points: seq<Point>, colors: Option<seq<nat>>, n: nat, sites: seq<Site>)
    requires n <= |points|
    requires colors.Some? ==> |colors.value| >= |points|
  {
    forall k :: 0 <= k < |sites| ==>
      && sites[k].index < n && FirstAt(points, sites[k].index)
      && sites[k].coord == points[sites[k].index]
      && sites[k].color == ColorAt(colors, sites[k].index)
  }

  /** Some site carries index `i`. */
  predicate HasIndex(sites: seq<Site>, i: nat) {
    exists k :: 0 <= k < |sites| && sites[k].index == i
  }

  /** Position `i` holds the first occurrence of its point. */
  predicate FirstAt(points: seq<Point>, i: nat)
    requires i < |points|
  {
    points[i] !in points[..i]
  }

  /** After the first `n` points, exactly those points are registered. */
  lemma {:induction false} AddPrefixKeys(points: seq<Point>, colors: Option<seq<nat>>, n: nat)
    requires n <= |points|
    requires colors.Some? ==> |colors.value| >= |points|
    ensures AddPrefix(points, colors, n).byLocation.Keys == set p | p in points[..n]
    decreases n
  {
    if n > 0 {
      AddPrefixKeys(points, colors, n - 1);
      assert points[..n] == points[..n - 1] + [points[n - 1]];
    }
  }

  /** The `n`-th point is added exactly when it is the first occurrence of its coordinate. */
  lemma AddPrefixAdds(points: seq<Point>, colors: Option<seq<nat>>, n: nat)
    requires 0 < n <= |points|
    requires colors.Some? ==> |colors.value| >= |points|
    ensures points[n - 1] !in AddPrefix(points, colors, n - 1).byLocation <==> FirstAt(points, n - 1)
  {
    AddPrefixKeys(points, colors, n - 1);
  }

  /**
   * After the first `n` points every site is the first occurrence of its coordinate among
   * them, with that position as index and that position's colour.
   */
  lemma {:induction false} AddPrefixSound(points: seq<Point>, colors: Option<seq<nat>>, n: nat)
    requires n <= |points|
    requires colors.Some? ==> |colors.value| >= |points|
    ensures FromFirstOccurrences(points, colors, n, AddPrefix(points, colors, n).list.sites)
    decreases n
  {
    if n > 0 {
      AddPrefixSound(points, colors, n - 1);
      AddPrefixAdds(points, colors, n);
    }
  }

  /** The sites keep the input order: their indices increase along the list. */
  lemma {:induction false} AddPrefixOrdered(points: seq<Point>, colors: Option<seq<nat>>, n: nat)
    requires n <= |points|
    requires colors.Some? ==> |colors.value| >= |points|
    ensures IncreasingIndices(AddPrefix(points, colors, n).list.sites)
    decreases n
  {
    if n > 0 {
      AddPrefixOrdered(points, colors, n - 1);
      AddPrefixSound(points, colors, n - 1);
      var reg := AddPrefix(points, colors, n - 1);
      var prev := reg.list.sites;
      var sites := AddPrefix(points, colors, n).list.sites;
      assert AddPrefix(points, colors, n) == AddSite(reg, points[n - 1], ColorAt(colors, n - 1), n - 1);
      if points[n - 1] !in reg.byLocation {
        assert sites[|prev|].index == n - 1;
        forall k, l | 0 <= k < l < |sites| ensures sites[k].index < sites[l].index {
          assert sites[k] == sites[..|prev|][k] == prev[k];
          if l < |prev| {
            assert sites[l] == sites[..|prev|][l] == prev[l];
          }
        }
      }
    }
  }

  /** Every first occurrence among the first `n` points has its site. */
  lemma {:induction false} AddPrefixComplete(points: seq<Point>, colors: Option<seq<nat>>, n: nat, i: nat)
    requires i < n <= |points|
    requires colors.Some? ==> |colors.value| >= |points|
    requires FirstAt(points, i)
    ensures HasIndex(AddPrefix(points, colors, n).list.sites, i)
    decreases n
  {
    var prev := AddPrefix(points, colors, n - 1);
    var sites := AddPrefix(points, colors, n).list.sites;
    assert AddPrefix(points, colors, n) == AddSite(prev, points[n - 1], ColorAt(colors, n - 1), n - 1);
    AddPrefixAdds(points, colors, n);
    if i < n - 1 {
      AddPrefixComplete(points, colors, n - 1, i);
      var k :| 0 <= k < |prev.list.sites| && prev.list.sites[k].index == i;
      if points[n - 1] !in prev.byLocation {
        assert sites[k] == sites[..|prev.list.sites|][k];
        assert sites[k].index == i;
      }
    } else {
      assert AddPrefix(points, colors, n).list.sites[|prev.list.sites|].index == i;
    }
  }

  /**
   * `AddSites` keeps one site per distinct point: as many sites as distinct points, site
   * `k` made from the `k`-th first occurrence, carrying its position as index.
   */
  lemma AddSitesCorrect(points: seq<Point>, colors: Option<seq<nat>>)
    requires colors.Some? ==> |colors.value| >= |points|
    ensures var sites := AddSites(points, colors).value.list.sites;
      && |sites| == |set p | p in points|
      && FromFirstOccurrences(points, colors, |points|, sites)
      && IncreasingIndices(sites)
      && (forall i :: 0 <= i < |points| && FirstAt(points, i) ==> HasIndex(sites, i))
    ensures AddSites(points, colors).value.byLocation.Keys == set p | p in points
  {
    var n := |points|;
    AddPrefixSound(points, colors, n);
    AddPrefixOrdered(points, colors, n);
    var sites := AddPrefix(points, colors, n).list.sites;
    assert AddSites(points, colors).value.list.sites == sites;
    forall i | 0 <= i < n && FirstAt(points, i) ensures HasIndex(sites, i) {
      AddPrefixComplete(points, colors, n, i);
    }
    AddPrefixKeys(points, colors, n);
    AddPrefixRegistered(points, colors, n);
    LocatedCardinality(sites);
    assert points[..n] == points;
  }

  // --------------------------------------------------------------- regions

  /**
   * `FortunesAlgorithm_leftRegion`: a halfedge without an edge (a beach-line end) borders
   * the bottom-most site; otherwise it is the site on the halfedge's own side. The
   * `DELETED` tombstone or a missing side gives no site.
   */
  function LeftRegion(h: Halfedge, bottomMost: Option<Point>): (r: Option<Point>)
    ensures h.edge == NoEdge ==> r == bottomMost
    ensures h.edge.Live? && h.side.Some? ==>
      r.Some? && (r.value == h.edge.line.leftSite || r.value == h.edge.line.rightSite)
  {
    match h.edge
    case NoEdge => bottomMost
    case Deleted => None
    case Live(l) => if h.side.Some? then Some(l.Site(h.side.value)) else None
  }

  /** `FortunesAlgorithm_rightRegion`: as `LeftRegion`, with the site on the other side. */
  function RightRegion(h: Halfedge, bottomMost: Option<Point>): (r: Option<Point>)
    ensures h.edge == NoEdge ==> r == bottomMost
    ensures h.edge.Live? && h.side.Some? ==>
      r.Some? && (r.value == h.edge.line.leftSite || r.value == h.edge.line.rightSite)
  {
    match h.edge
    case NoEdge => bottomMost
    case Deleted => None
    case Live(l) => if h.side.Some? then Some(l.Site(Other(h.side.value))) else None
  }

  /**
   * On a live halfedge the two regions are the edge's two sites, the left region being
   * the edge's left site exactly on a `LEFT` halfedge; they differ for a normalised edge.
   * Turning the halfedge round swaps them.
   */
  lemma RegionsOfLiveHalfedge(h: Halfedge, bottomMost: Option<Point>)
    requires h.edge.Live? && h.side.Some?
    ensures LeftRegion(h, bottomMost).Some? && RightRegion(h, bottomMost).Some?
    ensures h.side == Some(LEFT) ==>
      LeftRegion(h, bottomMost).value == h.edge.line.leftSite && RightRegion(h, bottomMost).value == h.edge.line.rightSite
    ensures h.side == Some(RIGHT) ==>
      LeftRegion(h, bottomMost).value == h.edge.line.rightSite && RightRegion(h, bottomMost).value == h.edge.line.leftSite
    ensures h.edge.line.leftSite != h.edge.line.rightSite ==> LeftRegion(h, bottomMost) != RightRegion(h, bottomMost)
    ensures RightRegion(h, bottomMost) == LeftRegion(h.(side := Some(Other(h.side.value))), bottomMost)
  {
    OtherInvolution(h.side.value);
  }

  // ------------------------------------------------------------ step rule

  datatype Event = SiteEvent | CircleEvent | Stop

  /**
   * The choice at the top of the sweep loop: the next site when there is one and it comes
   * strictly before the queue's least key in `(y, x)` order (or the queue is empty);
   * otherwise the least queued vertex; with neither, the loop ends.
   */
  function NextEvent(newSite: Option<Point>, queueMin: Option<Point>): (e: Event)
    ensures e == SiteEvent <==>
      newSite.Some? && (queueMin.None? || CompareByYThenX(newSite.value, queueMin.value) < 0)
    ensures e == CircleEvent <==>
      queueMin.Some? && (newSite.None? || CompareByYThenX(newSite.value, queueMin.value) >= 0)
    ensures e == Stop <==> newSite.None? && queueMin.None?
  {
    if newSite.Some? && (queueMin.None? || CompareByYThenX(newSite.value, queueMin.value) < 0) then SiteEvent
    else if queueMin.Some? then CircleEvent
    else Stop
  }

  /**
   * Events come in sweep order: whenever both a site and a queued vertex are waiting, the
   * one handled first is not above the other in `(y, x)` order.
   */
  lemma NextEventInSweepOrder(site: Point, queueMin: Point)
    ensures NextEvent(Some(site), Some(queueMin)) == SiteEvent ==> CompareByYThenX(site, queueMin) <= 0
    ensures NextEvent(Some(site), Some(queueMin)) == CircleEvent ==> CompareByYThenX(queueMin, site) <= 0
    ensures NextEvent(Some(site), Some(queueMin)) != Stop
  {
    CompareByYThenXAntisymmetric(site, queueMin);
  }

  // ---------------------------------------------------------- the queue

  /** The point `HalfedgePriorityQueue.Min` reports for a queued halfedge. */
  function Key(h: Halfedge): (p: Point)
    requires HasKey(h)
  {
    Point(KeyX(h), h.ystar)
  }

  /** The queue order on halfedges is the `(y, x)` order on their key points. */
  lemma KeyLeIsYThenX(a: Halfedge, b: Halfedge)
    requires HasKey(a) && HasKey(b)
    ensures KeyLe(a, b) <==> CompareByYThenX(Key(a), Key(b)) <= 0
  {
  }

  /**
   * The beach position of the queue's least element: the halfedge with a vertex whose
   * key is least, the leftmost one among equal keys; `None` for an empty queue.
   */
  function MinQueued(b: seq<Halfedge>): (r: Option<nat>)
    ensures r.None? <==> forall j :: 0 <= j < |b| ==> !HasKey(b[j])
    ensures r.Some? ==> r.value < |b| && HasKey(b[r.value])
    ensures r.Some? ==> forall j :: 0 <= j < |b| && HasKey(b[j]) ==> KeyLe(b[r.value], b[j])
    ensures r.Some? ==> forall j :: 0 <= j < r.value && HasKey(b[j]) ==> !KeyLe(b[j], b[r.value])
    decreases |b|
  {
    if b == [] then None
    else
      var init := b[..|b| - 1];
      var m := MinQueued(init);
      var last := b[|b| - 1];
      assert forall j :: 0 <= j < |init| ==> init[j] == b[j];
      if !HasKey(last) then m
      else if m.None? then Some(|b| - 1)
      else if KeyLe(b[m.value], last) then m
      else Some(|b| - 1)
  }

  /** The least key in the queue, as `Min` reports it. */
  function QueueMin(b: seq<Halfedge>): (r: Option<Point>)
    ensures r.None? <==> forall j :: 0 <= j < |b| ==> !HasKey(b[j])
  {
    match MinQueued(b)
    case None => None
    case Some(i) => Some(Key(b[i]))
  }

  // ------------------------------------------------------------ the state

  /** The beach line's ends: no edge, never a vertex. */
  predicate IsEnd(h: Halfedge) {
    h.edge == NoEdge && h.vertex.None?
  }

  /**
   * A halfedge between the ends: a live bisector recorded in the edge list under its id,
   * a side, a finite vertex if any, and sites that have been swept already.
   */
  predicate OnBeach(h: Halfedge, edges: seq<Edge>, pending: seq<Point>) {
    && h.edge.Live? && h.side.Some?
    && h.edge.line.id < |edges| && edges[h.edge.line.id].line == h.edge.line
    && (h.vertex.Some? ==> h.vertex.value.Finite?)
    && h.edge.line.leftSite !in pending && h.edge.line.rightSite !in pending
  }

  /**
   * The sweep's state: the sites still to come (the first is `newSite`), the bottom-most
   * site, the beach line from end to end, `_edges`, `_triangles`, how many halfedges and
   * vertices were made (the latter also names the next fresh vertex), and the vertex
   * numbering of `Vertex.SetIndex`.
   */
  datatype Sweep = Sweep(
    pending: seq<Point>,
    bottomMost: Option<Point>,
    beach: seq<Halfedge>,
    edges: seq<Edge>,
    triangles: seq<Triangle>,
    halfedges: nat,
    vertices: nat,
    numbering: VertexNumbering)

  /**
   * The beach line runs from end to end with halfedges in between; the halfedge next to
   * the right end never has a vertex (it could only meet the right end).
   */
  ghost predicate BeachOk(b: seq<Halfedge>, edges: seq<Edge>, pending: seq<Point>) {
    && |b| >= 2
    && IsEnd(b[0]) && IsEnd(b[|b| - 1])
    && b[|b| - 2].vertex.None?
    && (forall i :: 0 < i < |b| - 1 ==> OnBeach(b[i], edges, pending))
  }

  ghost predicate SweepOk(st: Sweep) {
    && BeachOk(st.beach, st.edges, st.pending)
    && (forall k :: 0 <= k < |st.edges| ==> st.edges[k].line.id == k && WellFormed(st.edges[k].line))
    && NoDup(st.pending)
    && (st.pending != [] ==> st.bottomMost.Some?)
    && (st.bottomMost.Some? ==> st.bottomMost.value !in st.pending)
    && NumberingBelowCounter(st.numbering)
  }

  /**
   * What the sweep needs of a bisector: two distinct sites, a unit coefficient (for
   * clipping) and a defined slope (for `IsLeftOf`).
   */
  predicate WellFormed(l: Bisector) {
    l.leftSite != l.rightSite && (l.a == 1.0 || l.b == 1.0) && SlopeDefined(l)
  }

  lemma NormalisedWellFormed(l: Bisector)
    requires Normalised(l)
    ensures WellFormed(l)
  {
    NormalisedCoefficients(l);
  }

  /** `IsLeftOf` can be asked of every halfedge strictly inside the beach line. */
  lemma SweepWalkable(st: Sweep)
    requires SweepOk(st)
    ensures Walkable(st.beach)
  {
    forall i | 0 < i < |st.beach| - 1 ensures st.beach[i].edge.Live? && SlopeDefined(st.beach[i].edge.line) {
      assert OnBeach(st.beach[i], st.edges, st.pending);
    }
  }

  /** Every edge keeps its line, and more may follow. */
  ghost predicate LinesKept(edges: seq<Edge>, edges2: seq<Edge>) {
    |edges| <= |edges2| && forall k :: 0 <= k < |edges| ==> edges2[k].line == edges[k].line
  }

  lemma OnBeachKept(h: Halfedge, edges: seq<Edge>, pending: seq<Point>, edges2: seq<Edge>, pending2: seq<Point>)
    requires OnBeach(h, edges, pending) && LinesKept(edges, edges2)
    requires forall p :: p in pending2 ==> p in pending
    ensures OnBeach(h, edges2, pending2)
  {
  }

  /** A queued halfedge lies strictly inside the beach line, and so does its right neighbour. */
  lemma QueuedInside(st: Sweep, i: nat)
    requires SweepOk(st) && i < |st.beach| && HasKey(st.beach[i])
    ensures 0 < i && i + 2 < |st.beach|
  {
  }

  /** The start: the lowest site is the bottom-most site, the others wait; an empty beach line. */
  function Start(sites: seq<Point>, numbering: VertexNumbering): (st: Sweep)
    requires NoDup(sites) && NumberingBelowCounter(numbering)
    ensures SweepOk(st)
    ensures |st.beach| == 2 && st.edges == [] && st.triangles == [] && st.halfedges == 0
    ensures sites != [] ==> st.bottomMost == Some(sites[0]) && st.pending == sites[1..]
    ensures sites == [] ==> st.bottomMost.None? && st.pending == []
  {
    var ends := [CreateDummy(), CreateDummy()];
    if sites == [] then Sweep([], None, ends, [], [], 0, 0, numbering)
    else
      assert sites[0] !in sites[1..] by {
        forall k | 0 <= k < |sites[1..]| ensures sites[1..][k] != sites[0] {
          assert sites[1..][k] == sites[k + 1];
        }
      }
      assert NoDup(sites[1..]) by {
        forall i, j | 0 <= i < j < |sites[1..]| ensures sites[1..][i] != sites[1..][j] {
          assert sites[1..][i] == sites[i + 1] && sites[1..][j] == sites[j + 1];
        }
      }
      Sweep(sites[1..], Some(sites[0]), ends, [], [], 0, 0, numbering)
  }

  // ------------------------------------------------------------ site event

  /** `IsLeftOf` can be asked of every halfedge strictly inside the beach line. */
  predicate Walkable(b: seq<Halfedge>) {
    |b| >= 2 && forall i :: 0 < i < |b| - 1 ==> b[i].edge.Live? && SlopeDefined(b[i].edge.line)
  }

  /**
   * `EdgeListLeftNeighbor` as a walk from position `j` to the right: it passes halfedges
   * that lie left of `p` and stops before the right end or the first one that does not.
   * The result is a left neighbour in the sense of `EdgeLists`; where several positions
   * qualify, the walk from the left end finds the leftmost.
   */
  function LeftNeighbor(b: seq<Halfedge>, p: Point, j: nat): (r: nat)
    requires Walkable(b) && j < |b| - 1
    requires j == 0 || IsLeftOf(b[j], p)
    ensures j <= r < |b| - 1
    ensures r == 0 || IsLeftOf(b[r], p)
    ensures r + 1 == |b| - 1 || !IsLeftOf(b[r + 1], p)
    ensures forall k :: j < k <= r ==> IsLeftOf(b[k], p)
    decreases |b| - j
  {
    if j + 1 == |b| - 1 || !IsLeftOf(b[j + 1], p) then j else LeftNeighbor(b, p, j + 1)
  }

  /**
   * A halfedge after `Vertex.Intersect` was asked about it: with a vertex `v` it takes
   * `v` and the key `v.y + dist(site, v)`; without one it keeps what it had.
   */
  function Resolve(h: Halfedge, v: Option<Vertex>, site: Point, dist: (Point, Point) -> real): (r: Halfedge)
    requires v.Some? ==> v.value.Finite?
    ensures r.edge == h.edge && r.side == h.side
    ensures v.None? ==> r == h
    ensures v.Some? ==> r.vertex == v && HasKey(r) && Key(r) == Point(v.value.coord.x, v.value.coord.y + dist(site, v.value.coord))
  {
    if v.None? then h else h.(vertex := v, ystar := v.value.coord.y + dist(site, v.value.coord))
  }

  /** The vertex count after `vertices.Add` ran for a found vertex. */
  function Fresh(n: nat, v: Option<Vertex>): (r: nat)
    ensures r == n + (if v.Some? then 1 else 0)
  {
    if v.Some? then n + 1 else n
  }

  /** Where a site event inserts: the left neighbour of the next site. */
  function SitePosition(st: Sweep): (j: nat)
    requires SweepOk(st) && st.pending != []
    ensures j < |st.beach| - 1
  {
    SweepWalkable(st);
    LeftNeighbor(st.beach, st.pending[0], 0)
  }

  /** The region the next site falls into: the site right of its left neighbour. */
  function BottomSite(st: Sweep): (p: Point)
    requires SweepOk(st) && st.pending != []
    ensures p !in st.pending
  {
    var j := SitePosition(st);
    var h := st.beach[j];
    assert j > 0 ==> OnBeach(h, st.edges, st.pending);
    RightRegion(h, st.bottomMost).value
  }

  /**
   * A site event (steps 8 to 11 of Fortune's algorithm): the new site splits the arc of
   * the bottom site; a new edge bisects the two, and its `LEFT` and `RIGHT` halfedges go
   * in right of the left neighbour, each re-keyed with the vertex where it meets its
   * outer neighbour, if they meet.
   */
  function SiteStep(st: Sweep, dist: (Point, Point) -> real): (r: Sweep)
    requires SweepOk(st) && st.pending != []
    ensures r.pending == st.pending[1..] && r.bottomMost == st.bottomMost
    ensures |r.beach| == |st.beach| + 2
    ensures |r.edges| == |st.edges| + 1 && r.edges[..|st.edges|] == st.edges
    ensures r.triangles == st.triangles && r.halfedges == st.halfedges + 2
    ensures r.numbering == st.numbering
    ensures var e := r.edges[|st.edges|];
      && e.line.leftSite == BottomSite(st) && e.line.rightSite == st.pending[0]
      && e.leftVertex.None? && e.rightVertex.None?
  {
    var s := st.pending[0];
    var j := SitePosition(st);
    var lbnd := st.beach[j];
    var rbnd := st.beach[j + 1];
    var bottom := BottomSite(st);
    var edge := CreateBisectingEdge(bottom, s, |st.edges|);
    var left := Create(Live(edge.line), Some(LEFT));
    var v1 := Intersect(lbnd, left, st.vertices);
    var n1 := Fresh(st.vertices, v1);
    var right := Create(Live(edge.line), Some(RIGHT));
    var v2 := Intersect(right, rbnd, n1);
    var beach := st.beach[..j] + [Resolve(lbnd, v1, s, dist), left, Resolve(right, v2, s, dist)] + st.beach[j + 1..];
    Sweep(st.pending[1..], st.bottomMost, beach, st.edges + [edge], st.triangles,
          st.halfedges + 2, Fresh(n1, v2), st.numbering)
  }

  /** A site event leaves the beach line as `Inserted` describes. */
  lemma SiteStepBeach(st: Sweep, dist: (Point, Point) -> real)
    requires SweepOk(st) && st.pending != []
    ensures Inserted(st.beach, SiteStep(st, dist).beach, SitePosition(st), SiteStep(st, dist).edges[|st.edges|])
  {
  }

  /** A site event leaves the vertices on the beach line as `InsertedVertices` describes. */
  lemma SiteStepVertices(st: Sweep, dist: (Point, Point) -> real)
    requires SweepOk(st) && st.pending != []
    ensures InsertedVertices(st.beach, SiteStep(st, dist).beach, SitePosition(st))
  {
  }

  /** The first waiting site is not among the others. */
  lemma NoDupTail(ps: seq<Point>)
    requires NoDup(ps) && ps != []
    ensures NoDup(ps[1..]) && ps[0] !in ps[1..]
    ensures forall p :: p in ps[1..] ==> p in ps
  {
    forall k | 0 <= k < |ps[1..]| ensures ps[1..][k] != ps[0] {
      assert ps[1..][k] == ps[k + 1];
    }
    forall i, j | 0 <= i < j < |ps[1..]| ensures ps[1..][i] != ps[1..][j] {
      assert ps[1..][i] == ps[i + 1] && ps[1..][j] == ps[j + 1];
    }
  }

  /**
   * Replacing the halfedges at positions `lo` to `hi - 1` by `mid` keeps the beach line in
   * shape when the replacements belong on it (the left end may only be replaced by
   * itself), the right end stays, and a replacement next to it has no vertex.
   */
  lemma SpliceOk(b: seq<Halfedge>, lo: nat, hi: nat, mid: seq<Halfedge>, edges: seq<Edge>, pending: seq<Point>,
                 edges2: seq<Edge>, pending2: seq<Point>)
    requires BeachOk(b, edges, pending) && LinesKept(edges, edges2)
    requires forall p :: p in pending2 ==> p in pending
    requires lo < hi <= |b| - 1 && mid != []
    requires lo == 0 ==> mid[0] == b[0]
    requires forall k :: 0 <= k < |mid| && lo + k > 0 ==> OnBeach(mid[k], edges2, pending2)
    requires hi == |b| - 1 ==> mid[|mid| - 1].vertex.None?
    ensures BeachOk(b[..lo] + mid + b[hi..], edges2, pending2)
  {
    var b2 := b[..lo] + mid + b[hi..];
    var n2 := |b2|;
    assert b2[n2 - 1] == b[|b| - 1];
    assert b2[0] == b[0] by {
      if lo > 0 { assert b2[0] == b[..lo][0]; }
    }
    assert b2[n2 - 2].vertex.None? by {
      if hi < |b| - 1 { assert b2[n2 - 2] == b[|b| - 2]; }
    }
    forall i | 0 < i < n2 - 1 ensures OnBeach(b2[i], edges2, pending2) {
      if i < lo {
        assert b2[i] == b[i];
        OnBeachKept(b[i], edges, pending, edges2, pending2);
      } else if i < lo + |mid| {
        assert b2[i] == mid[i - lo];
      } else {
        assert b2[i] == b[i - lo - |mid| + hi];
        OnBeachKept(b2[i], edges, pending, edges2, pending2);
      }
    }
  }

  /**
   * The beach line `b2` is `b` after a site event right of position `j`: the neighbour at
   * `j` keeps its edge and side, the `LEFT` and `RIGHT` halfedges of the new edge `e`
   * follow it, and the rest stays.
   */
  ghost predicate Inserted(b: seq<Halfedge>, b2: seq<Halfedge>, j: nat, e: Edge) {
    && j < |b| - 1 && |b2| == |b| + 2
    && b2[..j] == b[..j] && b2[j + 3..] == b[j + 1..]
    && b2[j].edge == b[j].edge && b2[j].side == b[j].side
    && b2[j + 1].edge == b2[j + 2].edge == Live(e.line)
    && b2[j + 1].side == Some(LEFT) && b2[j + 2].side == Some(RIGHT)
  }

  /**
   * The vertices after a site event right of `j`: a vertex found is finite, the `LEFT`
   * halfedge has none, and none is found with the right end of the beach line.
   */
  ghost predicate InsertedVertices(b: seq<Halfedge>, b2: seq<Halfedge>, j: nat) {
    && j < |b| - 1 && |b2| == |b| + 2
    && (j == 0 ==> b2[0] == b[0])
    && (b2[j].vertex.Some? ==> b2[j].vertex.value.Finite?)
    && b2[j + 1].vertex.None?
    && (b2[j + 2].vertex.Some? ==> b2[j + 2].vertex.value.Finite?)
    && (j + 1 == |b| - 1 ==> b2[j + 2].vertex.None?)
  }

  /** A site event leaves the beach line in shape. */
  lemma InsertBeachOk(b: seq<Halfedge>, b2: seq<Halfedge>, j: nat, e: Edge, edges: seq<Edge>, pending: seq<Point>,
                      edges2: seq<Edge>, pending2: seq<Point>)
    requires BeachOk(b, edges, pending) && LinesKept(edges, edges2)
    requires forall p :: p in pending2 ==> p in pending
    requires Inserted(b, b2, j, e) && InsertedVertices(b, b2, j)
    requires e.line.id < |edges2| && edges2[e.line.id].line == e.line
    requires e.line.leftSite !in pending2 && e.line.rightSite !in pending2
    ensures BeachOk(b2, edges2, pending2)
  {
    var mid := b2[j..j + 3];
    assert b2 == b[..j] + mid + b[j + 1..] by {
      assert b2 == b2[..j] + mid + b2[j + 3..];
    }
    assert mid[0] == b2[j] && mid[1] == b2[j + 1] && mid[2] == b2[j + 2];
    if j > 0 {
      assert OnBeach(b[j], edges, pending);
      OnBeachKept(b[j], edges, pending, edges2, pending2);
    }
    SpliceOk(b, j, j + 1, mid, edges, pending, edges2, pending2);
  }

  /** Inserting halfedges on a new edge, as a site event does, keeps the sweep's invariant. */
  lemma InsertOk(st: Sweep, r: Sweep, j: nat)
    requires SweepOk(st) && st.pending != []
    requires r.pending == st.pending[1..] && r.bottomMost == st.bottomMost && r.numbering == st.numbering
    requires |r.edges| == |st.edges| + 1 && r.edges[..|st.edges|] == st.edges
    requires var e := r.edges[|st.edges|];
      && e.line.id == |st.edges| && WellFormed(e.line)
      && e.line.leftSite !in st.pending && e.line.rightSite == st.pending[0]
    requires Inserted(st.beach, r.beach, j, r.edges[|st.edges|]) && InsertedVertices(st.beach, r.beach, j)
    ensures SweepOk(r)
  {
    NoDupTail(st.pending);
    assert LinesKept(st.edges, r.edges) by {
      forall k | 0 <= k < |st.edges| ensures r.edges[k] == st.edges[k] {
        assert r.edges[k] == r.edges[..|st.edges|][k];
      }
    }
    InsertBeachOk(st.beach, r.beach, j, r.edges[|st.edges|], st.edges, st.pending, r.edges, r.pending);
    assert forall k :: 0 <= k < |r.edges| ==> r.edges[k].line.id == k && WellFormed(r.edges[k].line);
  }

  /** A site event keeps the sweep's invariant. */
  lemma SiteStepOk(st: Sweep, dist: (Point, Point) -> real)
    requires SweepOk(st) && st.pending != []
    ensures SweepOk(SiteStep(st, dist))
  {
    var e := SiteStep(st, dist).edges[|st.edges|];
    NormalisedWellFormed(e.line);
    SiteStepBeach(st, dist);
    SiteStepVertices(st, dist);
    InsertOk(st, SiteStep(st, dist), SitePosition(st));
  }

  // ---------------------------------------------------------- circle event

  /** Where a circle event happens: the queued halfedge with the least key. */
  function CirclePosition(st: Sweep): (i: nat)
    requires SweepOk(st) && MinQueued(st.beach).Some?
    ensures 0 < i && i + 2 < |st.beach| && HasKey(st.beach[i])
    ensures OnBeach(st.beach[i], st.edges, st.pending) && OnBeach(st.beach[i + 1], st.edges, st.pending)
  {
    var i := MinQueued(st.beach).value;
    QueuedInside(st, i);
    i
  }

  /** `bottomSite` of a circle event before the swap: the region left of `lbnd`. */
  function CircleBottom(st: Sweep): (p: Point)
    requires SweepOk(st) && MinQueued(st.beach).Some?
    ensures p !in st.pending
  {
    LeftRegion(st.beach[CirclePosition(st)], st.bottomMost).value
  }

  /** `topSite` of a circle event before the swap: the region right of `rbnd`. */
  function CircleTop(st: Sweep): (p: Point)
    requires SweepOk(st) && MinQueued(st.beach).Some?
    ensures p !in st.pending
  {
    RightRegion(st.beach[CirclePosition(st) + 1], st.bottomMost).value
  }

  /** The arc that vanishes at a circle event: the region right of `lbnd`. */
  function CircleMiddle(st: Sweep): (p: Point)
    requires SweepOk(st) && MinQueued(st.beach).Some?
  {
    RightRegion(st.beach[CirclePosition(st)], st.bottomMost).value
  }

  /** `Edge.SetVertex` on the edge a beach halfedge runs along, at the halfedge's side. */
  function CloseEdge(edges: seq<Edge>, h: Halfedge, v: Vertex): (r: seq<Edge>)
    requires h.edge.Live? && h.side.Some? && h.edge.line.id < |edges|
    ensures |r| == |edges| && LinesKept(edges, r)
    ensures VertexAt(r[h.edge.line.id], h.side.value) == Some(v)
    ensures VertexAt(r[h.edge.line.id], Other(h.side.value)) == VertexAt(edges[h.edge.line.id], Other(h.side.value))
    ensures forall k :: 0 <= k < |edges| && k != h.edge.line.id ==> r[k] == edges[k]
  {
    var id := h.edge.line.id;
    edges[id := SetVertex(edges[id], h.side.value, Some(v))]
  }

  /**
   * A circle event (the `else` branch of the sweep loop): the arc between `lbnd` and
   * `rbnd` vanishes at `lbnd`'s vertex `v`. Its three regions make a Delaunay triangle;
   * `v` is numbered and ends the edges of `lbnd` and `rbnd`; a new edge bisects the
   * lower and the upper of the outer regions, starts at `v`, and its halfedge replaces
   * the two, re-keyed with the vertex where it meets `rrbnd`, and `llbnd` re-keyed with
   * the vertex where it meets the new halfedge. `None` when the outer regions coincide,
   * where the source would build an edge of undefined coefficients.
   */
  function CircleStep(st: Sweep, dist: (Point, Point) -> real): (r: Option<Sweep>)
    requires SweepOk(st) && MinQueued(st.beach).Some?
    ensures r.None? <==> CircleBottom(st) == CircleTop(st)
    ensures r.Some? ==>
      && r.value.pending == st.pending && r.value.bottomMost == st.bottomMost
      && |r.value.beach| == |st.beach| - 1
      && |r.value.edges| == |st.edges| + 1 && LinesKept(st.edges, r.value.edges)
      && r.value.triangles == st.triangles + [NewTriangle(CircleBottom(st), CircleTop(st), CircleMiddle(st))]
      && r.value.halfedges == st.halfedges + 1
  {
    var i := CirclePosition(st);
    var llbnd := st.beach[i - 1];
    var lbnd := st.beach[i];
    var rbnd := st.beach[i + 1];
    var rrbnd := st.beach[i + 2];
    var bottom0 := CircleBottom(st);
    var top0 := CircleTop(st);
    var tri := NewTriangle(bottom0, top0, CircleMiddle(st));
    var v := lbnd.vertex.value;
    var numbering := SetIndex(st.numbering, v.id);
    var edges := CloseEdge(CloseEdge(st.edges, lbnd, v), rbnd, v);
    var side := if bottom0.y > top0.y then RIGHT else LEFT;
    var lo := if bottom0.y > top0.y then top0 else bottom0;
    var hi := if bottom0.y > top0.y then bottom0 else top0;
    if lo == hi then None
    else
      var edge := SetVertex(CreateBisectingEdge(lo, hi, |edges|), Other(side), Some(v));
      var bisector := Create(Live(edge.line), Some(side));
      var v1 := Intersect(llbnd, bisector, st.vertices);
      var n1 := Fresh(st.vertices, v1);
      var v2 := Intersect(bisector, rrbnd, n1);
      var beach := st.beach[..i - 1] + [Resolve(llbnd, v1, lo, dist), Resolve(bisector, v2, lo, dist)] + st.beach[i + 2..];
      Some(Sweep(st.pending, st.bottomMost, beach, edges + [edge], st.triangles + [tri],
                 st.halfedges + 1, Fresh(n1, v2), numbering))
  }

  /**
   * At a circle event the vertex `v` of `lbnd` is numbered and becomes the end of the
   * edges of `lbnd` and `rbnd`, at their sides; no other edge changes.
   */
  lemma CircleStepCloses(st: Sweep, dist: (Point, Point) -> real)
    requires SweepOk(st) && MinQueued(st.beach).Some?
    ensures var r := CircleStep(st, dist); r.Some? ==>
      var v := st.beach[CirclePosition(st)].vertex.value;
      && v.id in r.value.numbering.index && r.value.numbering.counter == st.numbering.counter + 1
      && NumberingBelowCounter(r.value.numbering)
    ensures var r := CircleStep(st, dist); r.Some? ==>
      var i := CirclePosition(st);
      var v := st.beach[i].vertex.value;
      && VertexAt(r.value.edges[st.beach[i].edge.line.id], st.beach[i].side.value) == Some(v)
      && VertexAt(r.value.edges[st.beach[i + 1].edge.line.id], st.beach[i + 1].side.value) == Some(v)
      && (forall k :: 0 <= k < |st.edges| && k != st.beach[i].edge.line.id && k != st.beach[i + 1].edge.line.id ==>
            r.value.edges[k] == st.edges[k])
  {
  }

  /**
   * The side of the halfedge a circle event puts on the beach line: `RIGHT` exactly when
   * the outer regions had to be swapped to put the lower site first.
   */
  ghost function CircleSide(st: Sweep): Side
    requires SweepOk(st) && MinQueued(st.beach).Some?
  {
    if CircleBottom(st).y > CircleTop(st).y then RIGHT else LEFT
  }

  /**
   * The edge a circle event starts bisects the lower and the upper of the two outer
   * regions, lower site first; `v` is its end opposite `CircleSide(st)`, the side of
   * the new halfedge (see `CircleStepJoin`), and its end at that side is still open.
   */
  lemma CircleStepNewEdge(st: Sweep, dist: (Point, Point) -> real)
    requires SweepOk(st) && MinQueued(st.beach).Some?
    ensures var r := CircleStep(st, dist); r.Some? ==>
      var e := r.value.edges[|st.edges|];
      var side := CircleSide(st);
      && {e.line.leftSite, e.line.rightSite} == {CircleBottom(st), CircleTop(st)}
      && e.line.leftSite.y <= e.line.rightSite.y && e.line.id == |st.edges| && Normalised(e.line)
      && VertexAt(e, Other(side)) == st.beach[CirclePosition(st)].vertex && VertexAt(e, side).None?
  {
  }

  /**
   * The beach line `b2` is `b` after a circle event at `i`: one halfedge (at `i`) takes
   * the place of `lbnd` and `rbnd`, `llbnd` stays at `i - 1` and the rest stays too.
   */
  ghost predicate Replaced(b: seq<Halfedge>, b2: seq<Halfedge>, i: nat) {
    && 0 < i && i + 2 < |b| && |b2| == |b| - 1
    && b2[..i - 1] == b[..i - 1] && b2[i + 1..] == b[i + 2..]
  }

  /**
   * The halfedges a circle event at `i` leaves at `i - 1` and `i`: `llbnd` with its edge
   * and side, then a halfedge on the new edge `e`.
   */
  ghost predicate ReplacedJoin(b: seq<Halfedge>, b2: seq<Halfedge>, i: nat, e: Edge) {
    && 0 < i && i + 2 < |b| && |b2| == |b| - 1
    && b2[i - 1].edge == b[i - 1].edge && b2[i - 1].side == b[i - 1].side
    && b2[i].edge == Live(e.line) && b2[i].side.Some?
  }

  /** The vertices a circle event at `i` leaves at `i - 1` and `i` are finite. */
  ghost predicate ReplacedVertices(b: seq<Halfedge>, b2: seq<Halfedge>, i: nat) {
    && 0 < i && i + 2 < |b| && |b2| == |b| - 1
    && (b2[i - 1].vertex.Some? ==> b2[i - 1].vertex.value.Finite?)
    && (b2[i].vertex.Some? ==> b2[i].vertex.value.Finite?)
  }

  /** A circle event leaves the beach line as `Replaced` describes. */
  lemma CircleStepBeach(st: Sweep, dist: (Point, Point) -> real)
    requires SweepOk(st) && MinQueued(st.beach).Some?
    ensures CircleStep(st, dist).Some? ==> Replaced(st.beach, CircleStep(st, dist).value.beach, CirclePosition(st))
  {
  }

  /**
   * A circle event joins `llbnd` to a halfedge on its new edge, as `ReplacedJoin` describes;
   * that halfedge is at `CircleSide(st)`, the side opposite the end `CircleStepNewEdge`
   * gives the new edge.
   */
  lemma CircleStepJoin(st: Sweep, dist: (Point, Point) -> real)
    requires SweepOk(st) && MinQueued(st.beach).Some?
    ensures CircleStep(st, dist).Some? ==>
      ReplacedJoin(st.beach, CircleStep(st, dist).value.beach, CirclePosition(st), CircleStep(st, dist).value.edges[|st.edges|])
    ensures CircleStep(st, dist).Some? ==> CircleStep(st, dist).value.beach[CirclePosition(st)].side == Some(CircleSide(st))
  {
  }

  /** A circle event next to the left end leaves that end as it was. */
  lemma CircleStepLeftEnd(st: Sweep, dist: (Point, Point) -> real)
    requires SweepOk(st) && MinQueued(st.beach).Some?
    ensures CircleStep(st, dist).Some? && CirclePosition(st) == 1 ==> CircleStep(st, dist).value.beach[0] == st.beach[0]
  {
  }

  /** A circle event next to the right end finds no vertex for its new halfedge. */
  lemma CircleStepRightEnd(st: Sweep, dist: (Point, Point) -> real)
    requires SweepOk(st) && MinQueued(st.beach).Some?
    ensures CircleStep(st, dist).Some? && CirclePosition(st) + 3 == |st.beach| ==>
      CircleStep(st, dist).value.beach[CirclePosition(st)].vertex.None?
  {
  }

  /** A circle event leaves the vertices on the beach line as `ReplacedVertices` describes. */
  lemma CircleStepVertices(st: Sweep, dist: (Point, Point) -> real)
    requires SweepOk(st) && MinQueued(st.beach).Some?
    ensures CircleStep(st, dist).Some? ==> ReplacedVertices(st.beach, CircleStep(st, dist).value.beach, CirclePosition(st))
  {
  }

  /**
   * Replacing `llbnd`, `lbnd` and `rbnd` at positions `i - 1` to `i + 1` by `llbnd` and a
   * halfedge on a new edge, as a circle event does, keeps the sweep's invariant.
   */
  lemma ReplaceOk(st: Sweep, r: Sweep, i: nat)
    requires SweepOk(st)
    requires r.pending == st.pending && r.bottomMost == st.bottomMost && NumberingBelowCounter(r.numbering)
    requires |r.edges| == |st.edges| + 1 && LinesKept(st.edges, r.edges)
    requires var e := r.edges[|st.edges|];
      && e.line.id == |st.edges| && WellFormed(e.line)
      && e.line.leftSite !in st.pending && e.line.rightSite !in st.pending
    requires Replaced(st.beach, r.beach, i) && ReplacedJoin(st.beach, r.beach, i, r.edges[|st.edges|])
    requires ReplacedVertices(st.beach, r.beach, i)
    requires (i == 1 ==> r.beach[0] == st.beach[0]) && (i + 3 == |st.beach| ==> r.beach[i].vertex.None?)
    ensures SweepOk(r)
  {
    ReplaceBeachOk(st.beach, r.beach, i, r.edges[|st.edges|], st.edges, st.pending, r.edges, r.pending);
    assert forall k :: 0 <= k < |r.edges| ==> r.edges[k].line.id == k && WellFormed(r.edges[k].line);
  }

  /** A circle event leaves the beach line in shape. */
  lemma ReplaceBeachOk(b: seq<Halfedge>, b2: seq<Halfedge>, i: nat, e: Edge, edges: seq<Edge>, pending: seq<Point>,
                       edges2: seq<Edge>, pending2: seq<Point>)
    requires BeachOk(b, edges, pending) && LinesKept(edges, edges2)
    requires forall p :: p in pending2 ==> p in pending
    requires Replaced(b, b2, i) && ReplacedJoin(b, b2, i, e) && ReplacedVertices(b, b2, i)
    requires (i == 1 ==> b2[0] == b[0]) && (i + 3 == |b| ==> b2[i].vertex.None?)
    requires e.line.id < |edges2| && edges2[e.line.id].line == e.line
    requires e.line.leftSite !in pending2 && e.line.rightSite !in pending2
    ensures BeachOk(b2, edges2, pending2)
  {
    var mid := b2[i - 1..i + 1];
    assert b2 == b[..i - 1] + mid + b[i + 2..] by {
      assert b2 == b2[..i - 1] + mid + b2[i + 1..];
    }
    assert mid[0] == b2[i - 1] && mid[1] == b2[i];
    if i - 1 > 0 {
      assert OnBeach(b[i - 1], edges, pending);
      OnBeachKept(b[i - 1], edges, pending, edges2, pending2);
    }
    SpliceOk(b, i - 1, i + 2, mid, edges, pending, edges2, pending2);
  }

  /** A circle event keeps the sweep's invariant. */
  lemma CircleStepOk(st: Sweep, dist: (Point, Point) -> real)
    requires SweepOk(st) && MinQueued(st.beach).Some?
    ensures CircleStep(st, dist).Some? ==> SweepOk(CircleStep(st, dist).value)
  {
    if CircleStep(st, dist).Some? {
      var r := CircleStep(st, dist).value;
      CircleStepNewEdge(st, dist);
      NormalisedWellFormed(r.edges[|st.edges|].line);
      CircleStepBeach(st, dist);
      CircleStepJoin(st, dist);
      CircleStepLeftEnd(st, dist);
      CircleStepRightEnd(st, dist);
      CircleStepVertices(st, dist);
      ReplaceOk(st, r, CirclePosition(st));
    }
  }

  // ------------------------------------------------------------ the loop

  /** The next site `_sites.Next` hands out, `null` once none is left. */
  function Head(ps: seq<Point>): (r: Option<Point>)
    ensures r.None? <==> ps == []
    ensures r.Some? ==> r.value == ps[0]
  {
    if ps == [] then None else Some(ps[0])
  }

  /**
   * The sweep loop of `FortunesAlgorithm` from a state: events in the order `NextEvent`
   * picks until neither a site nor a queued vertex is left. `None` when a circle event
   * meets coinciding outer regions.
   */
  function Run(st: Sweep, dist: (Point, Point) -> real): (r: Option<Sweep>)
    requires SweepOk(st)
    ensures r.Some? ==> SweepOk(r.value) && r.value.pending == [] && QueueMin(r.value.beach).None?
    ensures r.Some? ==> r.value.bottomMost == st.bottomMost && LinesKept(st.edges, r.value.edges)
    decreases 3 * |st.pending| + |st.beach|
  {
    match NextEvent(Head(st.pending), QueueMin(st.beach))
    case Stop => Some(st)
    case SiteEvent =>
      SiteStepOk(st, dist);
      var st2 := SiteStep(st, dist);
      assert LinesKept(st.edges, st2.edges) by {
        forall k | 0 <= k < |st.edges| ensures st2.edges[k] == st.edges[k] {
          assert st2.edges[k] == st2.edges[..|st.edges|][k];
        }
      }
      var r := Run(st2, dist);
      r
    case CircleEvent =>
      CircleStepOk(st, dist);
      match CircleStep(st, dist)
      case None => None
      case Some(st2) => Run(st2, dist)
  }

  /**
   * The counts the loop keeps for `n` sites, of which `n - |pending|` were handed out:
   * every site after the first adds an edge and two halfedges and widens the beach line
   * by two, and every circle event adds a triangle, an edge and a halfedge and narrows
   * the beach line by one.
   */
  ghost predicate Counted(st: Sweep, n: nat) {
    && |st.pending| <= n
    && (n == 0 ==> st.edges == [] && st.triangles == [] && st.halfedges == 0 && |st.beach| == 2)
    && (n > 0 ==>
          var handed := n - |st.pending|;
          && handed >= 1
          && |st.edges| == handed - 1 + |st.triangles|
          && st.halfedges == 2 * (handed - 1) + |st.triangles|
          && |st.beach| + |st.triangles| == 2 * handed)
  }

  /** The loop keeps the counts. */
  lemma {:induction false} RunCounts(st: Sweep, dist: (Point, Point) -> real, n: nat)
    requires SweepOk(st) && Counted(st, n)
    ensures Run(st, dist).Some? ==> Counted(Run(st, dist).value, n)
    decreases 3 * |st.pending| + |st.beach|
  {
    match NextEvent(Head(st.pending), QueueMin(st.beach))
    case Stop =>
    case SiteEvent =>
      SiteStepOk(st, dist);
      RunCounts(SiteStep(st, dist), dist, n);
    case CircleEvent =>
      CircleStepOk(st, dist);
      match CircleStep(st, dist)
      case None =>
      case Some(st2) =>
        RunCounts(st2, dist, n);
  }

  // ------------------------------------------------------ where sites come from

  /** The triangle's three corners are in `all`. */
  predicate CornersIn(t: Triangle, all: set<Point>) {
    t.sites.Some? && forall k :: 0 <= k < |t.sites.value| ==> t.sites.value[k] in all
  }

  /**
   * Every site the sweep knows of is in `all`: those waiting, the bottom-most one, the two
   * sites of every edge and the corners of every triangle.
   */
  ghost predicate SitesFrom(st: Sweep, all: set<Point>) {
    && (forall p :: p in st.pending ==> p in all)
    && (st.bottomMost.Some? ==> st.bottomMost.value in all)
    && (forall k :: 0 <= k < |st.edges| ==> st.edges[k].line.leftSite in all && st.edges[k].line.rightSite in all)
    && (forall k :: 0 <= k < |st.triangles| ==> CornersIn(st.triangles[k], all))
  }

  /** The regions on either side of a halfedge on the beach line are sites in `all`. */
  lemma RegionsFrom(st: Sweep, all: set<Point>, i: nat)
    requires SweepOk(st) && SitesFrom(st, all) && i < |st.beach|
    requires st.bottomMost.Some? || 0 < i < |st.beach| - 1
    ensures LeftRegion(st.beach[i], st.bottomMost).Some? && LeftRegion(st.beach[i], st.bottomMost).value in all
    ensures RightRegion(st.beach[i], st.bottomMost).Some? && RightRegion(st.beach[i], st.bottomMost).value in all
  {
    if 0 < i < |st.beach| - 1 {
      var h := st.beach[i];
      assert OnBeach(h, st.edges, st.pending);
      assert st.edges[h.edge.line.id].line == h.edge.line;
    }
  }

  /** A state that only adds edges and triangles on sites from `all` keeps `SitesFrom`. */
  lemma GrowFrom(st: Sweep, r: Sweep, all: set<Point>, ts: seq<Triangle>)
    requires SitesFrom(st, all)
    requires (forall p :: p in r.pending ==> p in st.pending) && r.bottomMost == st.bottomMost
    requires LinesKept(st.edges, r.edges)
    requires forall k :: |st.edges| <= k < |r.edges| ==> r.edges[k].line.leftSite in all && r.edges[k].line.rightSite in all
    requires r.triangles == st.triangles + ts && forall k :: 0 <= k < |ts| ==> CornersIn(ts[k], all)
    ensures SitesFrom(r, all)
  {
    forall k | 0 <= k < |r.triangles| ensures CornersIn(r.triangles[k], all) {
      if k < |st.triangles| {
        assert r.triangles[k] == st.triangles[k];
      } else {
        assert r.triangles[k] == ts[k - |st.triangles|];
      }
    }
  }

  /** A triangle on three sites from `all`. */
  lemma NewTriangleFrom(a: Point, b: Point, c: Point, all: set<Point>)
    requires a in all && b in all && c in all
    ensures CornersIn(NewTriangle(a, b, c), all)
  {
    var t := NewTriangle(a, b, c);
    assert t.sites.value == [a, b, c];
  }

  /** A site event bisects the bottom site and the next waiting one, both from `all`. */
  lemma SiteStepFrom(st: Sweep, dist: (Point, Point) -> real, all: set<Point>)
    requires SweepOk(st) && st.pending != [] && SitesFrom(st, all)
    ensures SitesFrom(SiteStep(st, dist), all)
  {
    RegionsFrom(st, all, SitePosition(st));
    var r := SiteStep(st, dist);
    assert LinesKept(st.edges, r.edges) by {
      forall k | 0 <= k < |st.edges| ensures r.edges[k] == st.edges[k] {
        assert r.edges[k] == r.edges[..|st.edges|][k];
      }
    }
    assert forall p :: p in r.pending ==> p in st.pending;
    assert r.triangles == st.triangles + [];
    GrowFrom(st, r, all, []);
  }

  /** A circle event's triangle and new edge join sites from `all`. */
  lemma CircleStepFrom(st: Sweep, dist: (Point, Point) -> real, all: set<Point>)
    requires SweepOk(st) && MinQueued(st.beach).Some? && SitesFrom(st, all)
    ensures CircleStep(st, dist).Some? ==> SitesFrom(CircleStep(st, dist).value, all)
  {
    if CircleStep(st, dist).Some? {
      var r := CircleStep(st, dist).value;
      var i := CirclePosition(st);
      RegionsFrom(st, all, i);
      RegionsFrom(st, all, i + 1);
      CircleStepNewEdge(st, dist);
      NewTriangleFrom(CircleBottom(st), CircleTop(st), CircleMiddle(st), all);
      GrowFrom(st, r, all, [NewTriangle(CircleBottom(st), CircleTop(st), CircleMiddle(st))]);
    }
  }

  /** The loop only ever bisects, and makes triangles of, sites from `all`. */
  lemma {:induction false} RunFrom(st: Sweep, dist: (Point, Point) -> real, all: set<Point>)
    requires SweepOk(st) && SitesFrom(st, all)
    ensures Run(st, dist).Some? ==> SitesFrom(Run(st, dist).value, all)
    decreases 3 * |st.pending| + |st.beach|
  {
    match NextEvent(Head(st.pending), QueueMin(st.beach))
    case Stop =>
    case SiteEvent =>
      SiteStepOk(st, dist);
      SiteStepFrom(st, dist, all);
      RunFrom(SiteStep(st, dist), dist, all);
    case CircleEvent =>
      CircleStepOk(st, dist);
      CircleStepFrom(st, dist, all);
      match CircleStep(st, dist)
      case None =>
      case Some(st2) =>
        RunFrom(st2, dist, all);
  }

  // ------------------------------------------------------------ the diagram

  /** What the constructor leaves: the site registry, `_edges`, `_triangles`, the vertex numbering. */
  datatype Diagram = Diagram(registry: Registry, edges: seq<Edge>, triangles: seq<Triangle>, numbering: VertexNumbering)

  /** The last loop of `FortunesAlgorithm`: `ClipVertices` on every edge, in order. */
  method ClipAll(edges: seq<Edge>, bounds: Rect) returns (r: seq<Edge>)
    requires forall k :: 0 <= k < |edges| ==> edges[k].line.a == 1.0 || edges[k].line.b == 1.0
    ensures |r| == |edges|
    ensures forall k :: 0 <= k < |edges| ==>
      && r[k].line == edges[k].line && r[k].leftVertex == edges[k].leftVertex && r[k].rightVertex == edges[k].rightVertex
      && (r[k].Visible() <==> ClipEnds(edges[k], bounds).Some?)
    ensures bounds.width >= 0.0 && bounds.height >= 0.0 ==> forall k :: 0 <= k < |edges| && r[k].Visible() ==>
      bounds.Contains(r[k].clippedEnds.value.left) && bounds.Contains(r[k].clippedEnds.value.right)
    ensures bounds.width >= 0.0 && bounds.height >= 0.0 ==> forall k :: 0 <= k < |edges| && InWalkOrder(edges[k]) ==>
      (r[k].Visible() <==> MeetsBounds(edges[k], bounds))
  {
    r := [];
    var i := 0;
    while i < |edges|
      invariant 0 <= i <= |edges| && |r| == i
      invariant forall k :: 0 <= k < i ==> r[k] == ClipVertices(edges[k], bounds)
    {
      r := r + [ClipVertices(edges[i], bounds)];
      i := i + 1;
    }
    if bounds.width >= 0.0 && bounds.height >= 0.0 {
      forall k | 0 <= k < |edges| && InWalkOrder(edges[k])
        ensures r[k].Visible() <==> MeetsBounds(edges[k], bounds)
      {
        ClipSeesEdge(edges[k], bounds);
      }
    }
  }

  /** The sites of a registry, sorted, are its keys without repetition. */
  lemma SortedSites(reg: Registry)
    requires Registered(reg)
    ensures var sites := Coords(SortOnce(reg.list).sites);
      && NoDup(sites) && |sites| == |reg.list.sites|
      && forall p :: p in sites ==> p in reg.byLocation
  {
    var orig := Coords(reg.list.sites);
    var sites := Coords(SortOnce(reg.list).sites);
    DistinctCoordsNoDup(reg.list.sites);
    NoDupPermutation(orig, sites);
    assert |sites| == |multiset(sites)| == |multiset(orig)| == |orig|;
    CoordsAll(reg.list.sites);
    forall p | p in sites ensures p in reg.byLocation {
      assert p in multiset(orig);
      var k :| 0 <= k < |orig| && orig[k] == p;
      assert reg.list.sites[k].coord in Located(reg.list.sites);
    }
  }

  /**
   * A finished sweep over `n` sites from `all`: none waiting, the counts kept, every edge
   * a well-formed bisector of two sites from `all`, every triangle on three.
   */
  ghost predicate Finished(sw: Sweep, n: nat, all: set<Point>) {
    && sw.pending == [] && Counted(sw, n) && |sw.beach| >= 2 && NumberingBelowCounter(sw.numbering)
    && (forall k :: 0 <= k < |sw.edges| ==>
          && sw.edges[k].line.leftSite in all && sw.edges[k].line.rightSite in all
          && WellFormed(sw.edges[k].line))
    && (forall k :: 0 <= k < |sw.triangles| ==> CornersIn(sw.triangles[k], all))
  }

  /**
   * The sweep over a registry's sites in `(y, x)` order: when it ends, it has finished as
   * `Finished` says.
   */
  method SweepSites(reg: Registry, numbering: VertexNumbering, dist: (Point, Point) -> real) returns (fin: Option<Sweep>)
    requires Registered(reg) && NumberingBelowCounter(numbering)
    ensures fin.Some? ==> Finished(fin.value, |reg.list.sites|, reg.byLocation.Keys)
  {
    var sites := Coords(SortOnce(reg.list).sites);
    SortedSites(reg);
    var st := Start(sites, numbering);
    var all := reg.byLocation.Keys;
    assert SitesFrom(st, all);
    assert Counted(st, |sites|);
    RunCounts(st, dist, |sites|);
    RunFrom(st, dist, all);
    fin := Run(st, dist);
  }

  /**
   * `FortunesAlgorithm`: the sites are sorted by `(y, x)` (as `GetSitesBounds` does) and
   * handed out from the first; the sweep runs to the end; every edge is clipped to the
   * plot bounds. With `n` distinct sites the sweep makes one edge fewer than sites plus
   * one per triangle, and at most `2(n - 1)` triangles; every edge bisects two distinct
   * registered sites and every triangle joins three. `None` when a circle event meets
   * coinciding regions.
   */
  method FortunesAlgorithm(reg: Registry, plotBounds: Rect, numbering: VertexNumbering, dist: (Point, Point) -> real)
    returns (r: Option<Diagram>)
    requires Registered(reg) && NumberingBelowCounter(numbering)
    ensures r.Some? ==>
      && r.value.registry.byLocation == reg.byLocation
      && r.value.registry.list.sorted && SortedBy(CompareByYThenX, Coords(r.value.registry.list.sites))
      && multiset(Coords(r.value.registry.list.sites)) == multiset(Coords(reg.list.sites))
      && r.value.registry.list.current == |r.value.registry.list.sites|
      && NumberingBelowCounter(r.value.numbering)
    ensures r.Some? ==>
      var n := |reg.list.sites|;
      && |r.value.edges| == (if n == 0 then 0 else n - 1) + |r.value.triangles|
      && (n > 0 ==> |r.value.triangles| <= 2 * (n - 1))
    ensures r.Some? ==> forall k :: 0 <= k < |r.value.edges| ==>
      && r.value.edges[k].line.leftSite in reg.byLocation && r.value.edges[k].line.rightSite in reg.byLocation
      && r.value.edges[k].line.leftSite != r.value.edges[k].line.rightSite
    ensures r.Some? ==> forall k :: 0 <= k < |r.value.triangles| ==> CornersIn(r.value.triangles[k], reg.byLocation.Keys)
    ensures r.Some? && plotBounds.width >= 0.0 && plotBounds.height >= 0.0 ==>
      forall k :: 0 <= k < |r.value.edges| && r.value.edges[k].Visible() ==>
        plotBounds.Contains(r.value.edges[k].clippedEnds.value.left) && plotBounds.Contains(r.value.edges[k].clippedEnds.value.right)
  {
    var sorted := SortOnce(reg.list);
    var fin := SweepSites(reg, numbering, dist);
    if fin.None? {
      return None;
    }
    var sw := fin.value;
    var edges := ClipAll(sw.edges, plotBounds);
    r := Some(Diagram(reg.(list := sorted.(current := |sorted.sites|)), edges, sw.triangles, sw.numbering));
  }

  /**
   * The constructor `Voronoi(points, colors, plotBounds)`: `AddSites`, then
   * `FortunesAlgorithm`. A colour list shorter than the points is `None` (the source's
   * out-of-range fault). The counts hold with `n` the number of distinct points, and every
   * edge and triangle is made of given points.
   */
  method NewVoronoi(points: seq<Point>, colors: Option<seq<nat>>, plotBounds: Rect, numbering: VertexNumbering,
                    dist: (Point, Point) -> real) returns (r: Option<Diagram>)
    requires NumberingBelowCounter(numbering)
    ensures colors.Some? && |colors.value| < |points| ==> r.None?
    ensures r.Some? ==>
      var n := |set p | p in points|;
      && |r.value.edges| == (if n == 0 then 0 else n - 1) + |r.value.triangles|
      && (n > 0 ==> |r.value.triangles| <= 2 * (n - 1))
    ensures r.Some? ==> forall k :: 0 <= k < |r.value.edges| ==>
      && r.value.edges[k].line.leftSite in points && r.value.edges[k].line.rightSite in points
      && r.value.edges[k].line.leftSite != r.value.edges[k].line.rightSite
    ensures r.Some? ==> forall k :: 0 <= k < |r.value.triangles| ==> CornersIn(r.value.triangles[k], set p | p in points)
  {
    var reg := AddSites(points, colors);
    if reg.None? {
      return None;
    }
    AddSitesCorrect(points, colors);
    r := FortunesAlgorithm(reg.value, plotBounds, numbering, dist);
  }

  // ------------------------------------------------------------ the hull

  /** `HullEdges`: the edges with an unbounded end, in list order. */
  function HullEdges(edges: seq<Edge>): (r: seq<Edge>)
    ensures forall e :: e in r <==> e in edges && IsPartOfConvexHull(e)
    ensures |r| <= |edges|
    decreases |edges|
  {
    if edges == [] then []
    else
      var rest := HullEdges(edges[1..]);
      assert forall e :: e in edges <==> e == edges[0] || e in edges[1..];
      if IsPartOfConvexHull(edges[0]) then [edges[0]] + rest else rest
  }

  /**
   * `HullPointsInOrder`: the hull edges chained by their sites (`EdgeReorderer` with
   * `SITE`), each contributing its site on its orientation's side. No hull edges give no
   * points; `None` where the reorderer would not finish.
   */
  function HullPointsInOrder(edges: seq<Edge>): (r: Option<seq<Point>>)
    ensures HullEdges(edges) == [] ==> r == Some([])
  {
    var hull := HullEdges(edges);
    if hull == [] then Some([])
    else
      match NewReorderer(hull, SITE)
      case None => None
      case Some(ro) =>
        ReorderCorrect(hull, SITE);
        Some(SitesAlong(ro.edges, ro.orientations))
  }

  /** The site on each edge's own side, edge by edge. */
  function SitesAlong(es: seq<Edge>, ss: seq<Side>): (r: seq<Point>)
    requires |ss| >= |es|
    ensures |r| == |es|
    ensures forall k :: 0 <= k < |es| ==> r[k] == es[k].line.Site(ss[k])
  {
    seq(|es|, k requires 0 <= k < |es| => es[k].line.Site(ss[k]))
  }

  /** Some edge of `es` has `p` and `q` as its two sites. */
  ghost predicate Joined(es: seq<Edge>, p: Point, q: Point) {
    exists e :: e in es && ((e.line.leftSite == p && e.line.rightSite == q) || (e.line.leftSite == q && e.line.rightSite == p))
  }

  /** Along a walk chained by sites, consecutive sites are joined by an edge. */
  lemma WalkJoins(es: seq<Edge>, ss: seq<Side>, hull: seq<Edge>)
    requires Chained(es, ss, SITE) && multiset(es) == multiset(hull)
    ensures var pts := SitesAlong(es, ss); forall k :: 0 <= k < |pts| - 1 ==> Joined(hull, pts[k], pts[k + 1])
  {
    var pts := SitesAlong(es, ss);
    forall k | 0 <= k < |pts| - 1 ensures Joined(hull, pts[k], pts[k + 1]) {
      ChainJoins(es, ss, hull, k);
    }
  }

  /** Along a walk chained by sites, each edge joins its entry site to the next edge's. */
  lemma ChainJoins(es: seq<Edge>, ss: seq<Side>, hull: seq<Edge>, k: nat)
    requires Chained(es, ss, SITE) && multiset(es) == multiset(hull) && k + 1 < |es|
    ensures Joined(hull, es[k].line.Site(ss[k]), es[k + 1].line.Site(ss[k + 1]))
  {
    var e := es[k];
    assert e in multiset(hull);
    assert Exit(e, ss[k], SITE) == Entry(es[k + 1], ss[k + 1], SITE);
    if ss[k] == LEFT {
      assert e.line.Site(Other(ss[k])) == e.line.rightSite;
    } else {
      assert e.line.Site(Other(ss[k])) == e.line.leftSite;
    }
  }

  /**
   * The hull points come one per hull edge, and each consecutive pair is joined by a hull
   * edge: walking the points walks the hull.
   */
  lemma HullPointsCorrect(edges: seq<Edge>)
    ensures var r := HullPointsInOrder(edges); r.Some? ==>
      && |r.value| == |HullEdges(edges)|
      && forall k :: 0 <= k < |r.value| - 1 ==> Joined(HullEdges(edges), r.value[k], r.value[k + 1])
  {
    var hull := HullEdges(edges);
    if hull != [] && NewReorderer(hull, SITE).Some? {
      var ro := NewReorderer(hull, SITE).value;
      ReorderCorrect(hull, SITE);
      assert !Unbounded(hull[0], SITE);
      assert |ro.edges| == |multiset(ro.edges)| == |multiset(hull)| == |hull|;
      WalkJoins(ro.edges, ro.orientations, hull);
    }
  }
}
