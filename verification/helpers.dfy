/**
 * Post-processing helpers (Delaunay/DelaunayHelpers.cs): edge filters, segment
 * extraction, and Kruskal's spanning forest over segment end points with a union-find
 * (union by size, path compression).
 */
module Helpers {
  import opened Wrappers
  import opened Geom
  import opened Sorting
  import opened Edges

  // ------------------------------------------------------------ edge filters

  /** The segment between a visible edge's clipped ends, `LEFT` end first. */
  function ClippedSegment(e: Edge): (s: LineSegment)
    requires e.Visible()
    ensures s.Complete()
  {
    LineSegment(Some(e.clippedEnds.value.left), Some(e.clippedEnds.value.right))
  }

  /** `VisibleLineSegments`: the clipped segment of every visible edge, in order. */
  function VisibleLineSegments(es: seq<Edge>): (r: seq<LineSegment>)
    ensures |r| <= |es|
    ensures forall s :: s in r ==> s.Complete()
    decreases |es|
  {
    if es == [] then []
    else
      var rest := VisibleLineSegments(es[1..]);
      if es[0].Visible() then [ClippedSegment(es[0])] + rest else rest
  }

  /** Every segment comes from a visible edge of the list. */
  lemma {:induction false} VisibleLineSegmentsSound(es: seq<Edge>, j: nat)
    requires j < |VisibleLineSegments(es)|
    ensures exists e :: e in es && e.Visible() && VisibleLineSegments(es)[j] == ClippedSegment(e)
    decreases |es|
  {
    var rest := VisibleLineSegments(es[1..]);
    if es[0].Visible() && j == 0 {
      assert VisibleLineSegments(es)[0] == ClippedSegment(es[0]);
    } else {
      var j' := if es[0].Visible() then j - 1 else j;
      assert VisibleLineSegments(es)[j] == rest[j'];
      VisibleLineSegmentsSound(es[1..], j');
      var e :| e in es[1..] && e.Visible() && rest[j'] == ClippedSegment(e);
      assert e in es;
    }
  }

  /** Every visible edge of the list contributes its segment. */
  lemma {:induction false} VisibleLineSegmentsComplete(es: seq<Edge>, e: Edge)
    requires e in es && e.Visible()
    ensures ClippedSegment(e) in VisibleLineSegments(es)
    decreases |es|
  {
    if es[0] != e {
      assert e in es[1..];
      VisibleLineSegmentsComplete(es[1..], e);
    }
  }

  /** The segments of two lists of edges are those of each, one after the other. */
  lemma {:induction false} VisibleLineSegmentsAppend(a: seq<Edge>, b: seq<Edge>)
    ensures VisibleLineSegments(a + b) == VisibleLineSegments(a) + VisibleLineSegments(b)
    decreases |a|
  {
    if a != [] {
      VisibleLineSegmentsAppend(a[1..], b);
      assert (a + b)[1..] == a[1..] + b;
    } else {
      assert a + b == b;
    }
  }

  /** A single edge gives its segment when visible and nothing otherwise. */
  lemma VisibleLineSegmentsOne(e: Edge)
    ensures VisibleLineSegments([e]) == if e.Visible() then [ClippedSegment(e)] else []
  {
    assert [e][1..] == [];
  }

  /** `e` has a site at `coord`. */
  predicate TouchesSite(coord: Point, e: Edge) {
    e.line.leftSite == coord || e.line.rightSite == coord
  }

  /**
   * `SelectEdgesForSitePoint`: the edges with a site at `coord`, in order. Sites of a
   * bisector are never null here, so the source's null checks always pass.
   */
  function SelectEdgesForSitePoint(coord: Point, es: seq<Edge>): (r: seq<Edge>)
    ensures forall e :: e in r <==> e in es && TouchesSite(coord, e)
    ensures |r| <= |es|
    decreases |es|
  {
    if es == [] then []
    else
      var rest := SelectEdgesForSitePoint(coord, es[1..]);
      assert es == [es[0]] + es[1..];
      if TouchesSite(coord, es[0]) then [es[0]] + rest else rest
  }

  /** Selecting from two lists is selecting from each, one after the other. */
  lemma {:induction false} SelectAppend(coord: Point, a: seq<Edge>, b: seq<Edge>)
    ensures SelectEdgesForSitePoint(coord, a + b) == SelectEdgesForSitePoint(coord, a) + SelectEdgesForSitePoint(coord, b)
    decreases |a|
  {
    if a != [] {
      SelectAppend(coord, a[1..], b);
      assert (a + b)[1..] == a[1..] + b;
    } else {
      assert a + b == b;
    }
  }

  /** Selecting twice selects nothing more. */
  lemma {:induction false} SelectIdempotent(coord: Point, es: seq<Edge>)
    ensures SelectEdgesForSitePoint(coord, SelectEdgesForSitePoint(coord, es)) == SelectEdgesForSitePoint(coord, es)
    decreases |es|
  {
    if es != [] {
      SelectIdempotent(coord, es[1..]);
      var rest := SelectEdgesForSitePoint(coord, es[1..]);
      if TouchesSite(coord, es[0]) {
        assert ([es[0]] + rest)[1..] == rest;
      }
    }
  }

  /**
   * `SelectNonIntersectingEdges`: the keep-out bitmap test is commented out in the
   * source, so every edge passes.
   */
  function SelectNonIntersectingEdges(es: seq<Edge>): (r: seq<Edge>)
    ensures r == es
  {
    es
  }

  /** `DelaunayLinesForEdges`: each edge's segment between its two sites, in order. */
  function DelaunayLinesForEdges(es: seq<Edge>): (r: seq<LineSegment>)
    ensures |r| == |es|
    ensures forall i :: 0 <= i < |es| ==>
      r[i].p0 == Some(es[i].line.leftSite) && r[i].p1 == Some(es[i].line.rightSite)
  {
    seq(|es|, i requires 0 <= i < |es| => DelaunayLine(es[i]))
  }

  // ----------------------------------------------------------- union-find

  /** A `Node` is identified by the segment end point it stands for (the dictionary key). */
  type Key = Option<Point>

  /** The union-find forest: each node's `parent` and `treeSize`. */
  datatype UnionFind = UnionFind(parent: map<Key, Key>, size: map<Key, int>)

  /** Parents are nodes, and `rank` strictly decreases from a child to its parent. */
  ghost predicate Ranked(uf: UnionFind, rank: map<Key, nat>) {
    && uf.size.Keys == uf.parent.Keys
    && uf.parent.Keys <= rank.Keys
    && uf.parent.Values <= uf.parent.Keys
    && (forall k :: k in uf.parent && uf.parent[k] != k ==> rank[uf.parent[k]] < rank[k])
  }

  /** Following parents always reaches a root: some rank decreases along every path. */
  ghost predicate Valid(uf: UnionFind) {
    exists rank :: Ranked(uf, rank)
  }

  /** A ranking that witnesses `Valid`. */
  ghost function RankOf(uf: UnionFind): (rank: map<Key, nat>)
    requires Valid(uf)
    ensures Ranked(uf, rank)
  {
    var rank :| Ranked(uf, rank); rank
  }

  /** The root of `k`'s tree: follows parents until a node is its own parent. */
  function Root(uf: UnionFind, k: Key): (r: Key)
    requires Valid(uf) && k in uf.parent
    ensures r in uf.parent && uf.parent[r] == r
    decreases RankOf(uf)[k]
  {
    if uf.parent[k] == k then k else Root(uf, uf.parent[k])
  }

  /** The roots, one per set. */
  function Roots(uf: UnionFind): (rs: set<Key>)
    ensures rs <= uf.parent.Keys
    ensures forall k :: k in rs <==> k in uf.parent && uf.parent[k] == k
  {
    set k | k in uf.parent && uf.parent[k] == k
  }

  /** A root is at most as high in any ranking as the nodes of its tree. */
  lemma {:induction false} RootRank(uf: UnionFind, k: Key, rank: map<Key, nat>)
    requires Valid(uf) && Ranked(uf, rank) && k in uf.parent
    ensures Root(uf, k) == k || rank[Root(uf, k)] < rank[k]
    decreases RankOf(uf)[k]
  {
    if uf.parent[k] != k {
      RootRank(uf, uf.parent[k], rank);
    }
  }

  /** Overwriting one entry of a map adds at most the new value to its values. */
  lemma UpdateValues<K, V>(m: map<K, V>, k: K, v: V)
    ensures m[k := v].Values <= m.Values + {v}
  {
    forall x | x in m[k := v].Values
      ensures x in m.Values + {v}
    {
      var y :| y in m[k := v] && m[k := v][y] == x;
      if y != k {
        assert m[y] == x;
      }
    }
  }

  /** Pointing `k` straight at its root keeps any ranking valid. */
  lemma CompressRanked(uf: UnionFind, k: Key, rank: map<Key, nat>)
    requires Valid(uf) && Ranked(uf, rank) && k in uf.parent
    ensures Ranked(uf.(parent := uf.parent[k := Root(uf, k)]), rank)
  {
    var r := Root(uf, k);
    var u := uf.(parent := uf.parent[k := r]);
    RootRank(uf, k, rank);
    assert u.parent.Keys == uf.parent.Keys;
    UpdateValues(uf.parent, k, r);
    Redirect(uf.parent, rank, k, r, u.parent);
  }

  /** Pointing `k` at a node `r` of lower rank keeps rank decreasing from child to parent. */
  lemma Redirect(parent: map<Key, Key>, rank: map<Key, nat>, k: Key, r: Key, q: map<Key, Key>)
    requires k in parent && r in parent && q == parent[k := r]
    requires parent.Keys <= rank.Keys && parent.Values <= parent.Keys
    requires forall x :: x in parent && parent[x] != x ==> rank[parent[x]] < rank[x]
    requires r == k || rank[r] < rank[k]
    ensures forall x :: x in q && q[x] != x ==> q[x] in rank && rank[q[x]] < rank[x]
  {
    forall x | x in q && q[x] != x
      ensures q[x] in rank && rank[q[x]] < rank[x]
    {
      if x != k {
        assert q[x] == parent[x] && parent[x] in parent.Values;
      }
    }
  }

  /** Pointing `k` straight at its root changes no node's root. */
  lemma {:induction false} CompressKeepsRoot(uf: UnionFind, k: Key, x: Key)
    requires Valid(uf) && k in uf.parent && x in uf.parent
    ensures var uf2 := uf.(parent := uf.parent[k := Root(uf, k)]);
      Valid(uf2) && Root(uf2, x) == Root(uf, x)
    decreases RankOf(uf)[x]
  {
    var r := Root(uf, k);
    var uf2 := uf.(parent := uf.parent[k := r]);
    CompressRanked(uf, k, RankOf(uf));
    if x == k {
      assert uf2.parent[r] == r;
    } else if uf.parent[x] != x {
      CompressKeepsRoot(uf, k, uf.parent[x]);
    }
  }

  /** A node is a root exactly when it is its own root. */
  lemma RootIsFixpoint(uf: UnionFind, x: Key)
    requires Valid(uf) && x in uf.parent
    ensures x in Roots(uf) <==> Root(uf, x) == x
  {
    RootRank(uf, x, RankOf(uf));
  }

  /** Forests over the same nodes that agree on every root have the same roots. */
  lemma RootsAgree(uf: UnionFind, u: UnionFind)
    requires Valid(uf) && Valid(u) && u.parent.Keys == uf.parent.Keys
    requires forall x {:trigger Root(u, x)} :: x in uf.parent ==> Root(u, x) == Root(uf, x)
    ensures Roots(u) == Roots(uf)
  {
    forall x | x in uf.parent
      ensures x in Roots(u) <==> x in Roots(uf)
    {
      RootIsFixpoint(uf, x);
      RootIsFixpoint(u, x);
    }
  }

  /**
   * `Find`: the root of `k`'s set, pointing every node on the way straight at it (path
   * compression). No node's root changes and the sizes are untouched.
   */
  function Find(uf: UnionFind, k: Key): (r: (Key, UnionFind))
    requires Valid(uf) && k in uf.parent
    ensures r.0 == Root(uf, k)
    ensures r.1.size == uf.size && r.1.parent.Keys == uf.parent.Keys
    ensures Ranked(r.1, RankOf(uf))
    ensures forall x {:trigger Root(r.1, x)} :: x in uf.parent ==> Root(r.1, x) == Root(uf, x)
    decreases RankOf(uf)[k]
  {
    if uf.parent[k] == k then (k, uf)
    else
      var t := Find(uf, uf.parent[k]);
      var uf2 := t.1;
      assert Root(uf2, k) == t.0;
      var uf3 := uf2.(parent := uf2.parent[k := t.0]);
      CompressRanked(uf2, k, RankOf(uf));
      forall x | x in uf2.parent
        ensures Root(uf3, x) == Root(uf2, x)
      {
        CompressKeepsRoot(uf2, k, x);
      }
      (t.0, uf3)
  }

  /** `Find` keeps the forest valid and leaves the set of roots as it was. */
  lemma FindKeepsRoots(uf: UnionFind, k: Key)
    requires Valid(uf) && k in uf.parent
    ensures Valid(Find(uf, k).1) && Roots(Find(uf, k).1) == Roots(uf)
  {
    RootsAgree(uf, Find(uf, k).1);
  }

  /** A node of its own, the initialisation of a fresh `Node`. */
  function MakeSet(uf: UnionFind, k: Key): (r: UnionFind)
    requires Valid(uf) && k !in uf.parent
    ensures Valid(r) && r.parent.Keys == uf.parent.Keys + {k}
    ensures Roots(r) == Roots(uf) + {k}
    ensures forall x {:trigger Root(r, x)} :: x in uf.parent ==> Root(r, x) == Root(uf, x)
    ensures Root(r, k) == k
  {
    var r := UnionFind(uf.parent[k := k], uf.size[k := 1]);
    var rank := RankOf(uf)[k := 0];
    assert Ranked(r, rank);
    MakeSetRoots(uf, k, r);
    r
  }

  lemma MakeSetRoots(uf: UnionFind, k: Key, r: UnionFind)
    requires Valid(uf) && k !in uf.parent && r == UnionFind(uf.parent[k := k], uf.size[k := 1]) && Valid(r)
    ensures forall x {:trigger Root(r, x)} :: x in uf.parent ==> Root(r, x) == Root(uf, x)
  {
    forall x | x in uf.parent
      ensures Root(r, x) == Root(uf, x)
    {
      MakeSetRoot(uf, k, r, x);
    }
  }

  lemma {:induction false} MakeSetRoot(uf: UnionFind, k: Key, r: UnionFind, x: Key)
    requires Valid(uf) && k !in uf.parent && r == UnionFind(uf.parent[k := k], uf.size[k := 1]) && Valid(r)
    requires x in uf.parent
    ensures Root(r, x) == Root(uf, x)
    decreases RankOf(uf)[x]
  {
    if uf.parent[x] != x {
      MakeSetRoot(uf, k, r, uf.parent[x]);
    }
  }

  /**
   * The merge step of `Kruskal`: the root of the larger tree absorbs the other (the
   * first on a tie) and its `treeSize` becomes the sum of the two.
   */
  function Union(uf: UnionFind, r0: Key, r1: Key): (r: (UnionFind, Key, Key))
    requires Valid(uf) && r0 in Roots(uf) && r1 in Roots(uf) && r0 != r1
    ensures var (u, winner, loser) := r;
      && (uf.size[r0] >= uf.size[r1] ==> winner == r0 && loser == r1)
      && (uf.size[r0] < uf.size[r1] ==> winner == r1 && loser == r0)
      && u.size == uf.size[winner := uf.size[r0] + uf.size[r1]]
      && u.parent == uf.parent[loser := winner]
  {
    if uf.size[r0] >= uf.size[r1] then
      (UnionFind(uf.parent[r1 := r0], uf.size[r0 := uf.size[r0] + uf.size[r1]]), r0, r1)
    else
      (UnionFind(uf.parent[r0 := r1], uf.size[r1 := uf.size[r1] + uf.size[r0]]), r1, r0)
  }

  /** The ranking after linking: the loser's whole tree is lifted above the winner. */
  ghost function LinkedRank(uf: UnionFind, winner: Key, loser: Key): (rank: map<Key, nat>)
    requires Valid(uf) && winner in uf.parent
    ensures rank.Keys == uf.parent.Keys
  {
    var rank0 := RankOf(uf);
    map k | k in uf.parent :: if Root(uf, k) == loser then rank0[k] + rank0[winner] + 1 else rank0[k]
  }

  /** A child and its parent lie in the same tree. */
  lemma SameRootAsParent(uf: UnionFind, k: Key)
    requires Valid(uf) && k in uf.parent
    ensures uf.parent[k] in uf.parent && Root(uf, uf.parent[k]) == Root(uf, k)
  {
  }

  /** Linking one root under another keeps every path finite. */
  lemma LinkValid(uf: UnionFind, winner: Key, loser: Key, u: UnionFind)
    requires Valid(uf) && winner in Roots(uf) && loser in Roots(uf) && winner != loser
    requires u.parent == uf.parent[loser := winner] && u.size.Keys == uf.size.Keys
    ensures Ranked(u, LinkedRank(uf, winner, loser))
  {
    var rank0 := RankOf(uf);
    var rank := LinkedRank(uf, winner, loser);
    forall k | k in u.parent && u.parent[k] != k
      ensures rank[u.parent[k]] < rank[k]
    {
      if k != loser {
        SameRootAsParent(uf, k);
      } else {
        assert Root(uf, winner) == winner;
      }
    }
  }

  /** Linking removes exactly the loser from the roots. */
  lemma LinkRoots(uf: UnionFind, winner: Key, loser: Key, u: UnionFind)
    requires loser in uf.parent && winner != loser
    requires u.parent == uf.parent[loser := winner]
    ensures Roots(u) == Roots(uf) - {loser}
  {
    forall k ensures k in Roots(u) <==> k in Roots(uf) - {loser} {
      if k != loser && k in uf.parent {
        assert u.parent[k] == uf.parent[k];
      }
    }
  }

  /** Linking: valid again, one root fewer, and the loser's tree moves over to the winner. */
  lemma LinkCorrect(uf: UnionFind, winner: Key, loser: Key, u: UnionFind)
    requires Valid(uf) && winner in Roots(uf) && loser in Roots(uf) && winner != loser
    requires u.parent == uf.parent[loser := winner] && u.size.Keys == uf.size.Keys
    ensures Valid(u)
    ensures Roots(u) == Roots(uf) - {loser}
    ensures forall x {:trigger Root(u, x)} :: x in uf.parent ==> Root(u, x) == if Root(uf, x) == loser then winner else Root(uf, x)
  {
    LinkValid(uf, winner, loser, u);
    LinkRoots(uf, winner, loser, u);
    forall x | x in uf.parent
      ensures Root(u, x) == if Root(uf, x) == loser then winner else Root(uf, x)
    {
      LinkRoot(uf, winner, loser, u, x);
    }
  }

  lemma {:induction false} LinkRoot(uf: UnionFind, winner: Key, loser: Key, u: UnionFind, x: Key)
    requires Valid(uf) && winner in Roots(uf) && loser in Roots(uf) && winner != loser
    requires u.parent == uf.parent[loser := winner] && u.size.Keys == uf.size.Keys && Valid(u)
    requires x in uf.parent
    ensures Root(u, x) == if Root(uf, x) == loser then winner else Root(uf, x)
    decreases RankOf(uf)[x]
  {
    if x == loser {
      assert Root(u, winner) == winner;
    } else if uf.parent[x] != x {
      LinkRoot(uf, winner, loser, u, uf.parent[x]);
    }
  }

  // ----------------------------------------------------------------- Kruskal

  /** `KruskalType`. */
  datatype KruskalType = MINIMUM | MAXIMUM

  /**
   * The squared length, as a total function so the comparators below can be handed to
   * `Sort`; it is 0 for a segment with a missing end, which `VisitOrder` never sorts.
   */
  function Len(s: LineSegment): (l: real)
    ensures s.Complete() ==> l == SqLength(s)
  {
    if s.Complete() then SqLength(s) else 0.0
  }

  /** `CompareLengths_MAX` on complete segments: longer first. */
  function LongerFirst(a: LineSegment, b: LineSegment): (r: int)
    ensures a.Complete() && b.Complete() ==> r == CompareLengthsMax(a, b)
  {
    if Len(a) < Len(b) then 1 else if Len(a) > Len(b) then -1 else 0
  }

  /** `CompareLengths` on complete segments: shorter first. */
  function ShorterFirst(a: LineSegment, b: LineSegment): (r: int)
    ensures a.Complete() && b.Complete() ==> r == CompareLengths(a, b)
  {
    -LongerFirst(a, b)
  }

  /** Both comparisons are total preorders. */
  lemma LengthOrdersArePreorders()
    ensures TotalPreorder(LongerFirst) && TotalPreorder(ShorterFirst)
  {
  }

  /** Reversing a list sorted longer-first puts it shorter-first. */
  lemma {:induction false} ReversedLongerFirst(s: seq<LineSegment>)
    requires forall x :: x in s ==> x.Complete()
    requires SortedBy(LongerFirst, s)
    ensures forall i, j :: 0 <= i < j < |s| ==> SqLength(Reverse(s)[i]) <= SqLength(Reverse(s)[j])
  {
    var r := Reverse(s);
    forall i, j | 0 <= i < j < |s|
      ensures SqLength(r[i]) <= SqLength(r[j])
    {
      assert LongerFirst(s[|s| - 1 - j], s[|s| - 1 - i]) <= 0;
    }
  }

  /** Reversing a list sorted shorter-first puts it longer-first. */
  lemma {:induction false} ReversedShorterFirst(s: seq<LineSegment>)
    requires forall x :: x in s ==> x.Complete()
    requires SortedBy(ShorterFirst, s)
    ensures forall i, j :: 0 <= i < j < |s| ==> SqLength(Reverse(s)[j]) <= SqLength(Reverse(s)[i])
  {
    var r := Reverse(s);
    forall i, j | 0 <= i < j < |s|
      ensures SqLength(r[j]) <= SqLength(r[i])
    {
      assert ShorterFirst(s[|s| - 1 - j], s[|s| - 1 - i]) <= 0;
    }
  }

  /**
   * The order `Kruskal` visits the segments in: sorted by `CompareLengths_MAX` for
   * `MINIMUM` (by `CompareLengths` for `MAXIMUM`), then walked from the last to the first.
   * So `MINIMUM` visits the shortest segment first and `MAXIMUM` the longest.
   */
  function VisitOrder(segs: seq<LineSegment>, kind: KruskalType): (r: seq<LineSegment>)
    requires forall s :: s in segs ==> s.Complete()
    ensures multiset(r) == multiset(segs)
    ensures forall s :: s in r ==> s.Complete()
    ensures kind == MINIMUM ==> forall i, j :: 0 <= i < j < |r| ==> SqLength(r[i]) <= SqLength(r[j])
    ensures kind == MAXIMUM ==> forall i, j :: 0 <= i < j < |r| ==> SqLength(r[j]) <= SqLength(r[i])
  {
    LengthOrdersArePreorders();
    if kind == MINIMUM then
      var sorted := Sort(LongerFirst, segs);
      CompleteKept(segs, sorted);
      ReversedLongerFirst(sorted);
      ReverseMultiset(sorted);
      CompleteKept(segs, Reverse(sorted));
      Reverse(sorted)
    else
      var sorted := Sort(ShorterFirst, segs);
      CompleteKept(segs, sorted);
      ReversedShorterFirst(sorted);
      ReverseMultiset(sorted);
      CompleteKept(segs, Reverse(sorted));
      Reverse(sorted)
  }

  /** A permutation of complete segments holds only complete segments. */
  lemma CompleteKept(segs: seq<LineSegment>, r: seq<LineSegment>)
    requires forall s :: s in segs ==> s.Complete()
    requires multiset(r) == multiset(segs)
    ensures forall s :: s in r ==> s.Complete()
  {
    forall s | s in r ensures s.Complete() {
      assert s in multiset(r);
    }
  }

  /** The end points of the segments, the implied sites. */
  function Endpoints(segs: seq<LineSegment>): (ks: set<Key>)
    decreases |segs|
  {
    if segs == [] then {} else {segs[0].p0, segs[0].p1} + Endpoints(segs[1..])
  }

  /** A key is an end point exactly when some segment ends there. */
  lemma {:induction false} EndpointsMembers(segs: seq<LineSegment>, k: Key)
    ensures k in Endpoints(segs) <==> exists s :: s in segs && (k == s.p0 || k == s.p1)
    decreases |segs|
  {
    if segs != [] {
      EndpointsMembers(segs[1..], k);
      assert segs == [segs[0]] + segs[1..];
      if exists s :: s in segs && (k == s.p0 || k == s.p1) {
        var s :| s in segs && (k == s.p0 || k == s.p1);
        if s != segs[0] {
          assert s in segs[1..];
        }
      }
    }
  }

  /** Lists with the same elements have the same end points. */
  lemma EndpointsSameElements(a: seq<LineSegment>, b: seq<LineSegment>)
    requires multiset(a) == multiset(b)
    ensures Endpoints(a) == Endpoints(b)
  {
    forall k ensures k in Endpoints(a) <==> k in Endpoints(b) {
      EndpointsMembers(a, k);
      EndpointsMembers(b, k);
      forall s ensures s in a <==> s in b {
        assert s in a <==> s in multiset(a);
        assert s in b <==> s in multiset(b);
      }
    }
  }

  /** A node for `k`: a fresh set when unseen (its own root), else `Find`. */
  function Touch(uf: UnionFind, k: Key): (r: (Key, UnionFind))
    requires Valid(uf)
    ensures Valid(r.1) && r.1.parent.Keys == uf.parent.Keys + {k}
    ensures r.0 == Root(r.1, k)
    ensures k in uf.parent ==> r.0 == Root(uf, k)
    ensures k !in uf.parent ==> r.0 == k
  {
    if k !in uf.parent then (k, MakeSet(uf, k))
    else
      var (root, uf2) := Find(uf, k);
      assert root == Root(uf2, k);
      (root, uf2)
  }

  /** A touch changes no existing node's root. */
  lemma TouchKeepsRoot(uf: UnionFind, k: Key, x: Key)
    requires Valid(uf) && x in uf.parent
    ensures Root(Touch(uf, k).1, x) == Root(uf, x)
  {
  }

  /** Linking two different roots adds no node and removes one root. */
  lemma LinkCount(uf: UnionFind, r0: Key, r1: Key)
    requires Valid(uf) && r0 in Roots(uf) && r1 in Roots(uf) && r0 != r1
    ensures var u := Union(uf, r0, r1).0;
      Valid(u) && u.parent.Keys == uf.parent.Keys && |Roots(u)| == |Roots(uf)| - 1
  {
    var (u, winner, loser) := Union(uf, r0, r1);
    LinkCorrect(uf, winner, loser, u);
  }

  /** A touch adds a node exactly when it adds a root, so nodes minus roots stays put. */
  lemma TouchCount(uf: UnionFind, k: Key)
    requires Valid(uf)
    ensures var uf2 := Touch(uf, k).1;
      |uf2.parent.Keys| - |Roots(uf2)| == |uf.parent.Keys| - |Roots(uf)|
  {
    if k !in uf.parent {
      assert Roots(MakeSet(uf, k)) == Roots(uf) + {k};
      assert k !in Roots(uf);
    } else {
      FindKeepsRoots(uf, k);
    }
  }

  /** The nodes of both end points of `s`, created or found, with their roots. */
  function TouchBoth(uf: UnionFind, s: LineSegment): (r: (Key, Key, UnionFind))
    requires Valid(uf)
    ensures Valid(r.2) && r.2.parent.Keys == uf.parent.Keys + {s.p0, s.p1}
    ensures r.0 == Root(r.2, s.p0) && r.1 == Root(r.2, s.p1)
  {
    var t0 := Touch(uf, s.p0);
    var t1 := Touch(t0.1, s.p1);
    TouchKeepsRoot(t0.1, s.p1, s.p0);
    (t0.0, t1.0, t1.1)
  }

  /** Touching both end points adds as many nodes as roots. */
  lemma TouchBothCount(uf: UnionFind, s: LineSegment)
    requires Valid(uf)
    ensures var r := TouchBoth(uf, s).2; |r.parent.Keys| - |Roots(r)| == |uf.parent.Keys| - |Roots(uf)|
  {
    TouchCount(uf, s.p0);
    TouchCount(Touch(uf, s.p0).1, s.p1);
  }

  /** For end points that already have nodes, the roots found are their old roots. */
  lemma TouchBothOld(uf: UnionFind, s: LineSegment)
    requires Valid(uf)
    ensures s.p0 in uf.parent && s.p1 in uf.parent ==>
      var r := TouchBoth(uf, s); r.0 == Root(uf, s.p0) && r.1 == Root(uf, s.p1)
  {
    if s.p0 in uf.parent && s.p1 in uf.parent {
      TouchKeepsRoot(uf, s.p0, s.p1);
    }
  }

  /**
   * One iteration of the `Kruskal` loop: finds or creates both end points' nodes and,
   * when their roots differ, accepts the segment and merges the two sets.
   */
  function KruskalStep(uf: UnionFind, s: LineSegment): (r: (UnionFind, bool))
    requires Valid(uf)
    ensures Valid(r.0) && r.0.parent.Keys == uf.parent.Keys + {s.p0, s.p1}
    ensures |r.0.parent.Keys| - |Roots(r.0)| == |uf.parent.Keys| - |Roots(uf)| + (if r.1 then 1 else 0)
    ensures s.p0 in uf.parent && s.p1 in uf.parent ==> (r.1 <==> Root(uf, s.p0) != Root(uf, s.p1))
  {
    var t := TouchBoth(uf, s);
    TouchBothCount(uf, s);
    TouchBothOld(uf, s);
    if t.0 != t.1 then
      LinkCount(t.2, t.0, t.1);
      (Union(t.2, t.0, t.1).0, true)
    else (t.2, false)
  }

  lemma MultisetCons<T>(s: seq<T>)
    requires s != []
    ensures multiset(s) == multiset{s[0]} + multiset(s[1..])
  {
    assert s == [s[0]] + s[1..];
  }

  /** The loop of `Kruskal` over the segments in visiting order. */
  function KruskalFrom(order: seq<LineSegment>, uf: UnionFind): (r: (UnionFind, seq<LineSegment>))
    requires Valid(uf)
    ensures Valid(r.0)
    decreases |order|
  {
    if order == [] then (uf, [])
    else
      var step := KruskalStep(uf, order[0]);
      var more := KruskalFrom(order[1..], step.0);
      if step.1 then (more.0, [order[0]] + more.1) else more
  }

  lemma UnionAssoc<T>(a: set<T>, b: set<T>, c: set<T>, d: set<T>)
    requires d == (a + b) + c
    ensures d == a + (b + c)
  {
  }

  /** The loop adds a node for every end point of `order` and for nothing else. */
  lemma {:induction false} KruskalFromKeys(order: seq<LineSegment>, uf: UnionFind)
    requires Valid(uf)
    ensures KruskalFrom(order, uf).0.parent.Keys == uf.parent.Keys + Endpoints(order)
    decreases |order|
  {
    if order != [] {
      var step := KruskalStep(uf, order[0]);
      var more := KruskalFrom(order[1..], step.0);
      assert KruskalFrom(order, uf).0 == more.0;
      KruskalFromKeys(order[1..], step.0);
      UnionAssoc(uf.parent.Keys, {order[0].p0, order[0].p1}, Endpoints(order[1..]), more.0.parent.Keys);
    }
  }

  /** The loop accepts only segments it meets in `order`. */
  lemma {:induction false} KruskalFromSubset(order: seq<LineSegment>, uf: UnionFind)
    requires Valid(uf)
    ensures multiset(KruskalFrom(order, uf).1) <= multiset(order)
    decreases |order|
  {
    if order != [] {
      var step := KruskalStep(uf, order[0]);
      KruskalFromSubset(order[1..], step.0);
      MultisetCons(order);
    }
  }

  /** Each accepted segment merges two sets, so nodes minus sets grows by one per segment. */
  lemma {:induction false} KruskalFromCount(order: seq<LineSegment>, uf: UnionFind)
    requires Valid(uf)
    ensures var r := KruskalFrom(order, uf);
      |r.0.parent.Keys| - |Roots(r.0)| == |uf.parent.Keys| - |Roots(uf)| + |r.1|
    decreases |order|
  {
    if order != [] {
      var step := KruskalStep(uf, order[0]);
      KruskalFromCount(order[1..], step.0);
    }
  }

  /** A forest with nodes has at least one root. */
  lemma SomeRoot(uf: UnionFind)
    requires Valid(uf) && uf.parent.Keys != {}
    ensures |Roots(uf)| >= 1
  {
    var k :| k in uf.parent;
    assert Root(uf, k) in Roots(uf);
  }

  /**
   * `Kruskal`: the accepted segments, in visiting order. Each joins two different sets,
   * so they form a forest: with `n` distinct end points and `c` sets at the end, exactly
   * `n - c` segments are accepted, at most `n - 1`.
   */
  function Kruskal(segs: seq<LineSegment>, kind: KruskalType): (r: seq<LineSegment>)
    requires forall s :: s in segs ==> s.Complete()
    ensures multiset(r) <= multiset(segs)
    ensures segs == [] ==> r == []
    ensures segs != [] ==> |r| <= |Endpoints(segs)| - 1
  {
    var order := VisitOrder(segs, kind);
    var empty := UnionFind(map[], map[]);
    assert Ranked(empty, map[]);
    var (uf, mst) := KruskalFrom(order, empty);
    KruskalFromKeys(order, empty);
    KruskalFromSubset(order, empty);
    KruskalFromCount(order, empty);
    assert Roots(empty) == {};
    EndpointsSameElements(order, segs);
    if segs != [] then
      assert segs[0].p0 in uf.parent.Keys;
      SomeRoot(uf);
      mst
    else mst
  }
}
