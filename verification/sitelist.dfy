/**
 * The list of sites (Delaunay/SiteList.cs): sites are added unsorted, sorted by `(y, x)`
 * when the bounds are first asked for, then handed out one by one to the sweep.
 */
module SiteLists {
  import opened Wrappers
  import opened Geom
  import opened Sorting
  import opened Edges
  import opened Sites

  /** `SiteList`: the sites, the cursor `_currentIndex` and the `_sorted` flag. */
  datatype SiteList = SiteList(sites: seq<Site>, current: nat, sorted: bool)

  /** The `_sorted` flag is only set while the sites really are sorted. */
  ghost predicate ListOk(sl: SiteList) {
    sl.sorted ==> SortedBy(CompareByYThenX, Coords(sl.sites))
  }

  /** The constructor: no sites, not sorted. */
  function NewSiteList(): (sl: SiteList)
    ensures sl.sites == [] && !sl.sorted && ListOk(sl)
  {
    SiteList([], 0, false)
  }

  /** `Add`: appends the site, clears the flag and returns the new count. */
  function Add(sl: SiteList, site: Site): (r: (SiteList, nat))
    ensures r.0.sites == sl.sites + [site] && r.0.current == sl.current
    ensures !r.0.sorted && ListOk(r.0)
    ensures r.1 == |r.0.sites| == |sl.sites| + 1
  {
    var sites := sl.sites + [site];
    (SiteList(sites, sl.current, false), |sites|)
  }

  /** `Next`: the site under the cursor, advancing it; null once every site was handed out. */
  function Next(sl: SiteList): (r: (SiteList, Option<Site>))
    ensures sl.current < |sl.sites| ==> r.1 == Some(sl.sites[sl.current]) && r.0 == sl.(current := sl.current + 1)
    ensures sl.current >= |sl.sites| ==> r == (sl, None)
    ensures ListOk(sl) ==> ListOk(r.0)
  {
    if sl.current < |sl.sites| then (sl.(current := sl.current + 1), Some(sl.sites[sl.current]))
    else (sl, None)
  }

  /** Calls `Next` until it returns null, collecting what it hands out. */
  function Drain(sl: SiteList): (r: seq<Site>)
    decreases |sl.sites| - sl.current
  {
    match Next(sl)
    case (_, None) => []
    case (sl2, Some(s)) => [s] + Drain(sl2)
  }

  /** The cursor hands out every site from its position on, in list order, exactly once. */
  lemma {:induction false} DrainCorrect(sl: SiteList)
    ensures sl.current <= |sl.sites| ==> Drain(sl) == sl.sites[sl.current..]
    ensures sl.current > |sl.sites| ==> Drain(sl) == []
    decreases |sl.sites| - sl.current
  {
    if sl.current < |sl.sites| {
      DrainCorrect(sl.(current := sl.current + 1));
      assert sl.sites[sl.current..] == [sl.sites[sl.current]] + sl.sites[sl.current + 1..];
    }
  }

  /** The sorting step of `GetSitesBounds`: sorts and rewinds unless already sorted. */
  function SortOnce(sl: SiteList): (r: SiteList)
    requires ListOk(sl)
    ensures r.sorted && ListOk(r)
    ensures sl.sorted ==> r == sl
    ensures !sl.sorted ==> r.sites == SortSites(sl.sites) && r.current == 0
    ensures multiset(Coords(r.sites)) == multiset(Coords(sl.sites))
  {
    if sl.sorted then sl
    else
      SortSitesCorrect(sl.sites);
      SiteList(SortSites(sl.sites), 0, true)
  }

  /**
   * `GetSitesBounds`: sorts the sites if needed, then returns `Rect(0, 0, 0, 0)` for no
   * sites, and otherwise the rectangle from the least to the greatest x-coordinate and
   * from the first to the last site's y-coordinate, which holds every site.
   */
  method GetSitesBounds(sl: SiteList) returns (sl2: SiteList, r: Rect)
    requires ListOk(sl)
    ensures sl2 == SortOnce(sl)
    ensures sl2.sites == [] ==> r == Rect(0.0, 0.0, 0.0, 0.0)
    ensures sl2.sites != [] ==> r.y == sl2.sites[0].coord.y && r.yMax() == sl2.sites[|sl2.sites| - 1].coord.y
    ensures sl2.sites != [] ==>
      && (exists k :: 0 <= k < |sl2.sites| && sl2.sites[k].coord.x == r.xMin())
      && (exists k :: 0 <= k < |sl2.sites| && sl2.sites[k].coord.x == r.xMax())
    ensures forall k :: 0 <= k < |sl2.sites| ==> r.Contains(sl2.sites[k].coord)
  {
    sl2 := SortOnce(sl);
    var sites := sl2.sites;
    if |sites| == 0 {
      return sl2, Rect(0.0, 0.0, 0.0, 0.0);
    }
    var xmin, xmax := XRange(sites);
    r := Rect(xmin, sites[0].coord.y, xmax - xmin, sites[|sites| - 1].coord.y - sites[0].coord.y);
    SortedYBetween(sites);
  }

  /** The least and the greatest x-coordinate of a nonempty list of sites, both attained. */
  method XRange(sites: seq<Site>) returns (xmin: real, xmax: real)
    requires sites != []
    ensures exists k :: 0 <= k < |sites| && sites[k].coord.x == xmin
    ensures exists k :: 0 <= k < |sites| && sites[k].coord.x == xmax
    ensures forall k :: 0 <= k < |sites| ==> xmin <= sites[k].coord.x <= xmax
  {
    xmin, xmax := sites[0].coord.x, sites[0].coord.x;
    ghost var kmin, kmax := 0, 0;
    var i := 1;
    while i < |sites|
      invariant 1 <= i <= |sites|
      invariant 0 <= kmin < i && sites[kmin].coord.x == xmin
      invariant 0 <= kmax < i && sites[kmax].coord.x == xmax
      invariant forall k :: 0 <= k < i ==> xmin <= sites[k].coord.x <= xmax
    {
      if sites[i].coord.x < xmin {
        xmin, kmin := sites[i].coord.x, i;
      }
      if sites[i].coord.x > xmax {
        xmax, kmax := sites[i].coord.x, i;
      }
      i := i + 1;
    }
  }

  /** Sites sorted by `(y, x)` lie between the first and the last site's y-coordinate. */
  lemma {:induction false} SortedYBetween(sites: seq<Site>)
    requires sites != [] && SortedBy(CompareByYThenX, Coords(sites))
    ensures forall k :: 0 <= k < |sites| ==> sites[0].coord.y <= sites[k].coord.y <= sites[|sites| - 1].coord.y
  {
    var cs := Coords(sites);
    var n := |sites| - 1;
    forall k | 0 <= k <= n
      ensures sites[0].coord.y <= sites[k].coord.y <= sites[n].coord.y
    {
      CoordsAt(sites, k);
      CoordsAt(sites, 0);
      CoordsAt(sites, n);
      if 0 < k {
        assert CompareByYThenX(cs[0], cs[k]) <= 0;
      }
      if k < n {
        assert CompareByYThenX(cs[k], cs[n]) <= 0;
      }
    }
  }

  /** The `i`-th coordinate is the `i`-th site's. */
  lemma {:induction false} CoordsAt(sites: seq<Site>, i: nat)
    requires i < |sites|
    ensures Coords(sites)[i] == sites[i].coord
    decreases i
  {
    if i > 0 {
      CoordsAt(sites[1..], i - 1);
    }
  }

  /** A second `GetSitesBounds` finds the sites sorted and leaves them and the cursor alone. */
  lemma BoundsSortOnce(sl: SiteList)
    requires ListOk(sl)
    ensures SortOnce(SortOnce(sl)) == SortOnce(sl)
  {
  }

  /** `SiteColors`: every site's colour, in list order. */
  method SiteColors(sl: SiteList) returns (colors: seq<nat>)
    ensures |colors| == |sl.sites|
    ensures forall i :: 0 <= i < |sl.sites| ==> colors[i] == sl.sites[i].color
  {
    colors := [];
    var i := 0;
    while i < |sl.sites|
      invariant 0 <= i <= |sl.sites|
      invariant |colors| == i
      invariant forall k :: 0 <= k < i ==> colors[k] == sl.sites[k].color
    {
      colors := colors + [sl.sites[i].color];
      i := i + 1;
    }
  }

  /** `SiteCoords`: every site's coordinate, in list order. */
  method SiteCoords(sl: SiteList) returns (coords: seq<Point>)
    ensures coords == Coords(sl.sites)
  {
    coords := [];
    var i := 0;
    while i < |sl.sites|
      invariant 0 <= i <= |sl.sites|
      invariant |coords| == i
      invariant forall k :: 0 <= k < i ==> coords[k] == sl.sites[k].coord
    {
      coords := coords + [sl.sites[i].coord];
      i := i + 1;
    }
    forall k | 0 <= k < |coords|
      ensures coords[k] == Coords(sl.sites)[k]
    {
      CoordsAt(sl.sites, k);
    }
  }

  /**
   * The circle `Circles` reports for one site: centred on it, with radius 0 when its
   * nearest edge is on the convex hull and half the distance between that edge's sites
   * otherwise. `dist` is `Edge.SitesDistance` (a square root); a site without edges is
   * the source's out-of-range fault, `None`.
   */
  function SiteCircle(site: Site, dist: Edge -> real): (r: Option<(Site, Circle)>)
    ensures r.Some? <==> site.edges != []
    ensures r.Some? ==> r.value.1.center == site.coord && r.value.0 == NearestEdge(site).value.0
    ensures r.Some? ==> var e := NearestEdge(site).value.1;
      r.value.1.radius == if IsPartOfConvexHull(e) then 0.0 else dist(e) * 0.5
  {
    match NearestEdge(site)
    case None => None
    case Some((s, e)) =>
      var radius := if !IsPartOfConvexHull(e) then dist(e) * 0.5 else 0.0;
      Some((s, Circle(site.coord, radius)))
  }

  /**
   * `Circles`: one circle per site, in list order, each site's edges left sorted by
   * `NearestEdge`; `None` when some site has no edges.
   */
  function Circles(sites: seq<Site>, dist: Edge -> real): (r: Option<(seq<Site>, seq<Circle>)>)
    ensures r.Some? <==> forall i :: 0 <= i < |sites| ==> sites[i].edges != []
    ensures r.Some? ==> |r.value.0| == |r.value.1| == |sites|
  {
    if exists i :: 0 <= i < |sites| && sites[i].edges == [] then None
    else
      Some((seq(|sites|, i requires 0 <= i < |sites| => SiteCircle(sites[i], dist).value.0),
            seq(|sites|, i requires 0 <= i < |sites| => SiteCircle(sites[i], dist).value.1)))
  }

  /** `e` is one of `edges` whose sites are closest together. */
  ghost predicate Nearest(e: Edge, edges: seq<Edge>) {
    e in edges && forall e2 :: e2 in edges ==> SqSitesDistance(e) <= SqSitesDistance(e2)
  }

  /**
   * When `Circles` succeeds, each site's circle is centred on it, each site's edges are
   * only reordered, and a non-zero radius is half the distance of an interior edge whose
   * sites are closest.
   */
  lemma {:induction false} CirclesCorrect(sites: seq<Site>, dist: Edge -> real, i: nat)
    requires i < |sites| && Circles(sites, dist).Some?
    ensures var (ss, cs) := Circles(sites, dist).value;
      && i < |ss| && i < |cs|
      && cs[i].center == sites[i].coord
      && ss[i] == sites[i].(edges := ss[i].edges)
      && multiset(ss[i].edges) == multiset(sites[i].edges)
      && (cs[i].radius == 0.0 || exists e :: Nearest(e, sites[i].edges) && !IsPartOfConvexHull(e) && cs[i].radius == dist(e) * 0.5)
  {
    var e := NearestEdge(sites[i]).value.1;
    var (ss, cs) := Circles(sites, dist).value;
    if cs[i].radius != 0.0 {
      assert Nearest(e, sites[i].edges) && !IsPartOfConvexHull(e) && cs[i].radius == dist(e) * 0.5;
    }
  }

  /** Every site is well formed. */
  ghost predicate AllOk(sites: seq<Site>) {
    forall i :: 0 <= i < |sites| ==> SiteOk(sites[i])
  }

  /** Dropping the first site keeps the rest well formed, each one shifted down by one. */
  lemma AllOkTail(sites: seq<Site>)
    requires sites != [] && AllOk(sites)
    ensures AllOk(sites[1..])
    ensures forall i :: 1 <= i < |sites| ==> sites[1..][i - 1] == sites[i]
  {
    assert forall i :: 1 <= i < |sites| ==> sites[i] == sites[1..][i - 1];
  }

  /**
   * `Regions` as written: each site's `Sites.Region` in list order, the sites updated by
   * their caches; `None` when a reorderer never finishes. An entry is null for a site whose
   * orientations `NeighborSites` already set (see `RegionsNullEntry`).
   */
  function Regions(sites: seq<Site>, b: Rect): (r: Option<(seq<Site>, seq<Option<seq<Point>>>)>)
    requires AllOk(sites)
    ensures r.Some? ==> |r.value.0| == |r.value.1| == |sites| && AllOk(r.value.0)
    ensures r.Some? ==> forall i :: 0 <= i < |sites| ==>
      Region(sites[i], b) == Some((r.value.0[i], r.value.1[i]))
    ensures r.None? ==> exists i :: 0 <= i < |sites| && Region(sites[i], b).None?
    decreases |sites|
  {
    if sites == [] then Some(([], []))
    else
      match Region(sites[0], b)
      case None => None
      case Some((s, reg)) =>
        AllOkTail(sites);
        match Regions(sites[1..], b)
        case None => None
        case Some((ss, rs)) => Some(([s] + ss, [reg] + rs))
  }

  /**
   * A list holding one site whose orientations `NeighborSites` set gets a null region:
   * the defect of `Sites.Region` shows through `Regions`.
   */
  lemma RegionsNullEntry(b: Rect)
    ensures NeighborSites(OneEdgeSite()).Some?
    ensures var s := NeighborSites(OneEdgeSite()).value.0;
      SiteOk(s) && Regions([s], b).Some? && Regions([s], b).value.1 == [None]
  {
    RegionNullAfterNeighborSites(b);
    var s := NeighborSites(OneEdgeSite()).value.0;
    assert Regions([s][1..], b) == Some(([], []));
  }

  /**
   * On sites that nobody has reordered yet, which is how the constructor leaves them, the
   * as-written and the corrected regions agree.
   */
  lemma {:induction false} RegionsAgree(sites: seq<Site>, b: Rect)
    requires AllOk(sites)
    requires forall i :: 0 <= i < |sites| ==> sites[i].orientations.None? && sites[i].region.None?
    ensures Regions(sites, b) == RegionsFixed(sites, b)
    decreases |sites|
  {
    if sites != [] {
      RegionFixedAgrees(sites[0], b);
      AllOkTail(sites);
      RegionsAgree(sites[1..], b);
    }
  }

  /**
   * `Regions` corrected: each region is `Sites.RegionFixed`, which never answers null.
   */
  function RegionsFixed(sites: seq<Site>, b: Rect): (r: Option<(seq<Site>, seq<Option<seq<Point>>>)>)
    requires AllOk(sites)
    ensures r.Some? ==> |r.value.0| == |r.value.1| == |sites| && AllOk(r.value.0)
    ensures r.Some? ==> forall i :: 0 <= i < |sites| ==>
      RegionFixed(sites[i], b) == Some((r.value.0[i], r.value.1[i]))
    decreases |sites|
  {
    if sites == [] then Some(([], []))
    else
      match RegionFixed(sites[0], b)
      case None => None
      case Some((s, reg)) =>
        AllOkTail(sites);
        match RegionsFixed(sites[1..], b)
        case None => None
        case Some((ss, rs)) => Some(([s] + ss, [reg] + rs))
  }

  /** Every region is present and not clockwise, and asking again returns the same regions. */
  lemma RegionsCached(sites: seq<Site>, b: Rect)
    requires AllOk(sites) && RegionsFixed(sites, b).Some?
    ensures var (ss, rs) := RegionsFixed(sites, b).value;
      forall i :: 0 <= i < |rs| ==> rs[i].Some? && WindingOf(rs[i].value) != CLOCKWISE
    ensures var (ss, rs) := RegionsFixed(sites, b).value;
      RegionsFixed(ss, b) == Some((ss, rs))
  {
    var (ss, rs) := RegionsFixed(sites, b).value;
    forall i | 0 <= i < |sites|
      ensures RegionFixed(ss[i], b) == Some((ss[i], rs[i]))
    {
      RegionFixedCached(sites[i], b);
    }
    RegionsFixpoint(ss, rs, b);
  }

  /** Sites whose regions are all cached give back those regions unchanged. */
  lemma {:induction false} RegionsFixpoint(ss: seq<Site>, rs: seq<Option<seq<Point>>>, b: Rect)
    requires AllOk(ss) && |ss| == |rs|
    requires forall i :: 0 <= i < |ss| ==> RegionFixed(ss[i], b) == Some((ss[i], rs[i]))
    ensures RegionsFixed(ss, b) == Some((ss, rs))
    decreases |ss|
  {
    if ss != [] {
      AllOkTail(ss);
      RegionsFixpoint(ss[1..], rs[1..], b);
      RegionsCons(ss, rs, b);
    }
  }

  /** One cached region in front of a list of cached regions. */
  lemma RegionsCons(ss: seq<Site>, rs: seq<Option<seq<Point>>>, b: Rect)
    requires ss != [] && rs != [] && AllOk(ss) && RegionFixed(ss[0], b) == Some((ss[0], rs[0]))
    requires RegionsFixed(ss[1..], b) == Some((ss[1..], rs[1..]))
    ensures RegionsFixed(ss, b) == Some((ss, rs))
  {
    AllOkTail(ss);
    assert RegionsFixed(ss, b) == Some(([ss[0]] + ss[1..], [rs[0]] + rs[1..]));
    assert ss == [ss[0]] + ss[1..] && rs == [rs[0]] + rs[1..];
  }
}
