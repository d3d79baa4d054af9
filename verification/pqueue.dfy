/**
 * The event queue of the sweep (Delaunay/HalfedgePriorityQueue.cs): halfedges waiting
 * for their circle event, hashed into buckets over `ystar` and kept sorted inside each
 * bucket by `(ystar, vertex.x)`.
 *
 * Each bucket is a singly linked chain through `nextInQueue`, hanging off a dummy
 * halfedge; the halfedges live in the same store as the beach line. `Queued` relates a
 * store and a queue to the ghost list of ids that each chain holds.
 */
module PriorityQueues {
  import opened Wrappers
  import opened Geom
  import opened Edges
  import opened Halfedges
  import opened EdgeLists

  /** The bucket hashing over `ystar`: the lower bound, the extent and the bucket count. */
  datatype Hashing = Hashing(ymin: real, deltay: real, size: nat)

  datatype Queue = Queue(
    hash: Hashing,
    heads: seq<HId>,
    count: int,
    minBucket: nat)

  // ------------------------------------------------------------------ keys

  /** The halfedge carries the finite vertex its key is read from. */
  predicate HasKey(h: Halfedge) {
    h.vertex.Some? && h.vertex.value.Finite?
  }

  function KeyX(h: Halfedge): real
    requires HasKey(h)
  {
    h.vertex.value.coord.x
  }

  /** The queue order: lexicographic on `(ystar, vertex.x)`. */
  predicate KeyLe(a: Halfedge, b: Halfedge)
    requires HasKey(a) && HasKey(b)
  {
    a.ystar < b.ystar || (a.ystar == b.ystar && KeyX(a) <= KeyX(b))
  }

  lemma KeyLeTransitive(a: Halfedge, b: Halfedge, c: Halfedge)
    requires HasKey(a) && HasKey(b) && HasKey(c)
    requires KeyLe(a, b) && KeyLe(b, c)
    ensures KeyLe(a, c)
  {
  }

  /**
   * The test of the insertion walk: `h` goes after `n`. `None` is the null dereference
   * when the `ystar` values tie and a vertex is missing; a vertex at infinity has a NaN
   * `x`, for which the comparison is false.
   */
  function GoesAfter(h: Halfedge, n: Halfedge): (r: Option<bool>)
    ensures HasKey(h) && HasKey(n) ==> r == Some(!KeyLe(h, n))
  {
    if h.ystar > n.ystar then Some(true)
    else if h.ystar < n.ystar then Some(false)
    else if h.vertex.None? || n.vertex.None? then None
    else if h.vertex.value.AtInfinity? || n.vertex.value.AtInfinity? then Some(false)
    else Some(h.vertex.value.coord.x > n.vertex.value.coord.x)
  }

  // --------------------------------------------------------------- chains

  /** Following `nextInQueue` from `h` visits exactly `xs`, then ends. */
  ghost predicate ChainOf(store: Store, h: HId, xs: seq<HId>)
    decreases |xs|
  {
    h in store &&
    if xs == [] then store[h].nextInQueue.None?
    else store[h].nextInQueue == Some(xs[0]) && ChainOf(store, xs[0], xs[1..])
  }

  /** No id occurs twice. */
  ghost predicate NoDup(xs: seq<HId>) {
    forall x :: multiset(xs)[x] <= 1
  }

  lemma NoDupCons(xs: seq<HId>)
    requires xs != [] && NoDup(xs)
    ensures xs[0] !in xs[1..] && NoDup(xs[1..])
  {
    assert xs == [xs[0]] + xs[1..];
    assert multiset(xs) == multiset{xs[0]} + multiset(xs[1..]);
    forall x
      ensures multiset(xs[1..])[x] <= 1
    {
      assert multiset(xs)[x] <= 1;
    }
    assert multiset(xs)[xs[0]] <= 1;
  }

  /** A chain only depends on the `nextInQueue` links of its own nodes. */
  lemma {:induction false} ChainFrame(store: Store, s2: Store, h: HId, xs: seq<HId>)
    requires ChainOf(store, h, xs)
    requires h in s2 && s2[h].nextInQueue == store[h].nextInQueue
    requires forall x :: x in xs && x in store ==> x in s2 && s2[x].nextInQueue == store[x].nextInQueue
    ensures ChainOf(s2, h, xs)
    decreases |xs|
  {
    if xs != [] {
      ChainFrame(store, s2, xs[0], xs[1..]);
    }
  }

  /** Every node of a chain is in the store. */
  lemma {:induction false} ChainInStore(store: Store, h: HId, xs: seq<HId>)
    requires ChainOf(store, h, xs)
    ensures forall x :: x in xs ==> x in store
    decreases |xs|
  {
    if xs != [] {
      ChainInStore(store, xs[0], xs[1..]);
      assert xs == [xs[0]] + xs[1..];
    }
  }

  // ------------------------------------------------------- sorted buckets

  /** Every id is a keyed halfedge, and earlier ids never have larger keys. */
  ghost predicate SortedKeys(store: Store, xs: seq<HId>) {
    (forall i :: 0 <= i < |xs| ==> xs[i] in store && HasKey(store[xs[i]])) &&
    (forall i, j :: 0 <= i < j < |xs| ==> KeyLe(store[xs[i]], store[xs[j]]))
  }

  /** Sortedness only reads the key fields of the listed halfedges. */
  lemma SortedKeysFrame(store: Store, s2: Store, xs: seq<HId>)
    requires SortedKeys(store, xs)
    requires forall i :: 0 <= i < |xs| ==> xs[i] in s2 && s2[xs[i]].ystar == store[xs[i]].ystar && s2[xs[i]].vertex == store[xs[i]].vertex
    ensures SortedKeys(s2, xs)
  {
  }

  /** A sorted list stays sorted without its first entry. */
  lemma SortedTail(store: Store, xs: seq<HId>)
    requires SortedKeys(store, xs) && xs != []
    ensures SortedKeys(store, xs[1..])
    ensures forall j :: 0 <= j < |xs| - 1 ==> xs[1..][j] == xs[j + 1]
  {
  }

  /**
   * Where the insertion walk puts `h`: before the first entry that is not smaller than
   * it, or at the end.
   */
  ghost function InsertByKey(store: Store, h: HId, xs: seq<HId>): (r: seq<HId>)
    requires h in store && HasKey(store[h])
    requires forall i :: 0 <= i < |xs| ==> xs[i] in store && HasKey(store[xs[i]])
    ensures |r| == |xs| + 1 && multiset(r) == multiset(xs) + multiset{h}
    ensures r[0] == h || (xs != [] && r[0] == xs[0])
    decreases |xs|
  {
    if xs == [] then [h]
    else if KeyLe(store[h], store[xs[0]]) then [h] + xs
    else
      assert xs == [xs[0]] + xs[1..];
      [xs[0]] + InsertByKey(store, h, xs[1..])
  }

  /** Every entry of the result was in the list or is `h`. */
  lemma InsertByKeyMembers(store: Store, h: HId, xs: seq<HId>)
    requires h in store && HasKey(store[h])
    requires forall i :: 0 <= i < |xs| ==> xs[i] in store && HasKey(store[xs[i]])
    ensures forall x :: x in InsertByKey(store, h, xs) ==> x in xs || x == h
  {
    var r := InsertByKey(store, h, xs);
    forall x | x in r
      ensures x in xs || x == h
    {
      assert x in multiset(r);
    }
  }

  /** Adding an absent id keeps a list duplicate-free. */
  lemma NoDupAdd(xs: seq<HId>, h: HId, r: seq<HId>)
    requires NoDup(xs) && h !in xs
    requires multiset(r) == multiset(xs) + multiset{h}
    ensures NoDup(r)
  {
    forall x
      ensures multiset(r)[x] <= 1
    {
      assert multiset(r)[x] == multiset(xs)[x] + multiset{h}[x];
    }
  }

  /** Taking an id out of a duplicate-free list leaves it duplicate-free and without the id. */
  lemma NoDupDrop(xs: seq<HId>, h: HId, r: seq<HId>)
    requires NoDup(xs)
    requires multiset(r) == multiset(xs) - multiset{h}
    ensures NoDup(r) && h !in r
  {
    forall x
      ensures multiset(r)[x] <= 1
    {
      assert multiset(r)[x] <= multiset(xs)[x];
    }
    assert multiset(xs)[h] <= 1;
  }

  /** The first entry of a sorted list is no greater than any entry. */
  lemma HeadLeast(store: Store, xs: seq<HId>)
    requires SortedKeys(store, xs) && xs != []
    ensures forall y :: y in xs ==> y in store && HasKey(store[y]) && KeyLe(store[xs[0]], store[y])
  {
    forall y | y in xs
      ensures y in store && HasKey(store[y]) && KeyLe(store[xs[0]], store[y])
    {
      var k :| 0 <= k < |xs| && xs[k] == y;
      if k == 0 {
        assert KeyLe(store[y], store[y]);
      }
    }
  }

  /** Putting an entry no greater than the rest in front of a sorted list keeps it sorted. */
  lemma ConsSorted(store: Store, n: HId, tail: seq<HId>)
    requires n in store && HasKey(store[n]) && SortedKeys(store, tail)
    requires forall j :: 0 <= j < |tail| ==> KeyLe(store[n], store[tail[j]])
    ensures SortedKeys(store, [n] + tail)
  {
    var r := [n] + tail;
    assert forall j :: 1 <= j < |r| ==> r[j] == tail[j - 1];
  }

  /** Inserting by key keeps a bucket sorted. */
  lemma {:induction false} InsertByKeySorted(store: Store, h: HId, xs: seq<HId>)
    requires h in store && HasKey(store[h])
    requires SortedKeys(store, xs)
    ensures SortedKeys(store, InsertByKey(store, h, xs))
    decreases |xs|
  {
    if xs == [] {
    } else if KeyLe(store[h], store[xs[0]]) {
      HeadLeast(store, xs);
      forall j | 0 <= j < |xs|
        ensures KeyLe(store[h], store[xs[j]])
      {
        KeyLeTransitive(store[h], store[xs[0]], store[xs[j]]);
      }
      ConsSorted(store, h, xs);
    } else {
      var rest := xs[1..];
      SortedTail(store, xs);
      InsertByKeySorted(store, h, rest);
      InsertByKeyMembers(store, h, rest);
      HeadLeast(store, xs);
      var tail := InsertByKey(store, h, rest);
      forall j | 0 <= j < |tail|
        ensures KeyLe(store[xs[0]], store[tail[j]])
      {
        if tail[j] != h {
          assert tail[j] in rest;
          assert tail[j] in xs;
        }
      }
      ConsSorted(store, xs[0], tail);
    }
  }

  /** `xs` with the occurrence of `x` taken out. */
  ghost function Without(xs: seq<HId>, x: HId): (r: seq<HId>)
    ensures x in xs ==> |r| == |xs| - 1
    ensures multiset(r) == multiset(xs) - multiset{x}
    decreases |xs|
  {
    if xs == [] then []
    else if xs[0] == x then
      assert xs == [xs[0]] + xs[1..];
      xs[1..]
    else
      assert xs == [xs[0]] + xs[1..];
      [xs[0]] + Without(xs[1..], x)
  }

  /** Every entry of the result was in the list. */
  lemma WithoutMembers(xs: seq<HId>, x: HId)
    ensures forall y :: y in Without(xs, x) ==> y in xs
  {
    var r := Without(xs, x);
    forall y | y in r
      ensures y in xs
    {
      assert y in multiset(r);
    }
  }

  /** Taking an entry out of a sorted bucket leaves it sorted. */
  lemma {:induction false} WithoutSorted(store: Store, xs: seq<HId>, x: HId)
    requires SortedKeys(store, xs)
    ensures SortedKeys(store, Without(xs, x))
    decreases |xs|
  {
    if xs != [] {
      var rest := xs[1..];
      SortedTail(store, xs);
      if xs[0] != x {
        WithoutSorted(store, rest, x);
        WithoutMembers(rest, x);
        HeadLeast(store, xs);
        var tail := Without(rest, x);
        forall j | 0 <= j < |tail|
          ensures KeyLe(store[xs[0]], store[tail[j]])
        {
          assert tail[j] in rest;
          assert tail[j] in xs;
        }
        ConsSorted(store, xs[0], tail);
      }
    }
  }

  // ------------------------------------------------------------ the queue

  /** Number of entries over all buckets. */
  function Total(bs: seq<seq<HId>>): nat
    decreases |bs|
  {
    if bs == [] then 0 else |bs[0]| + Total(bs[1..])
  }

  /** Replacing one bucket changes the total by the difference in its length. */
  lemma {:induction false} TotalUpdate(bs: seq<seq<HId>>, b: nat, xs: seq<HId>)
    requires b < |bs|
    ensures Total(bs[b := xs]) == Total(bs) - |bs[b]| + |xs|
    ensures |bs[b]| <= Total(bs)
    decreases |bs|
  {
    if b > 0 {
      TotalUpdate(bs[1..], b - 1, xs);
      assert bs[b := xs][1..] == bs[1..][b - 1 := xs];
    }
  }

  /** The total is zero exactly when every bucket is empty. */
  lemma {:induction false} TotalZero(bs: seq<seq<HId>>)
    ensures Total(bs) == 0 <==> forall b :: 0 <= b < |bs| ==> bs[b] == []
    decreases |bs|
  {
    if bs != [] {
      TotalZero(bs[1..]);
      assert forall b :: 1 <= b < |bs| ==> bs[b] == bs[1..][b - 1];
    }
  }

  /** `HalfedgePriorityQueue.Bucket`: the clamped bucket of a `ystar` value. */
  function QueueBucket(hs: Hashing, ystar: real): (b: nat)
    requires hs.size >= 1
    ensures b < hs.size
  {
    if hs.deltay == 0.0 then 0
    else Clamp(Trunc(Scaled(hs, ystar)), hs.size)
  }

  /** The unclamped, untruncated bucket position of `ystar`. */
  function Scaled(hs: Hashing, ystar: real): real
    requires hs.deltay != 0.0
  {
    (ystar - hs.ymin) / hs.deltay * hs.size as real
  }

  /** With a positive extent the position grows with `ystar`. */
  lemma ScaledMonotone(hs: Hashing, y1: real, y2: real)
    requires hs.deltay > 0.0 && y1 <= y2
    ensures Scaled(hs, y1) <= Scaled(hs, y2)
  {
    DivMonotone(y1 - hs.ymin, y2 - hs.ymin, hs.deltay);
    MulMonotone((y1 - hs.ymin) / hs.deltay, (y2 - hs.ymin) / hs.deltay, hs.size as real);
  }

  /** Truncation toward zero is monotone. */
  lemma TruncMonotone(r1: real, r2: real)
    requires r1 <= r2
    ensures Trunc(r1) <= Trunc(r2)
  {
  }

  lemma MulMonotone(a: real, b: real, k: real)
    requires a <= b && k >= 0.0
    ensures a * k <= b * k
  {
    assert b * k - a * k == (b - a) * k;
  }

  lemma DivMonotone(a: real, b: real, d: real)
    requires a <= b && d > 0.0
    ensures a / d <= b / d
  {
    assert b / d - a / d == (b - a) / d;
  }

  /** With a non-negative extent, a larger `ystar` never lands in a lower bucket. */
  lemma QueueBucketMonotone(hs: Hashing, y1: real, y2: real)
    requires hs.size >= 1 && hs.deltay >= 0.0
    requires y1 <= y2
    ensures QueueBucket(hs, y1) <= QueueBucket(hs, y2)
  {
    if hs.deltay != 0.0 {
      ScaledMonotone(hs, y1, y2);
      TruncMonotone(Scaled(hs, y1), Scaled(hs, y2));
    }
  }

  /** Each dummy head starts the chain of its bucket. */
  ghost predicate Chains(store: Store, heads: seq<HId>, bs: seq<seq<HId>>) {
    |heads| == |bs| &&
    forall b :: 0 <= b < |bs| ==> ChainOf(store, heads[b], bs[b])
  }

  /** Every bucket is duplicate-free and sorted by key. */
  ghost predicate Buckets(store: Store, bs: seq<seq<HId>>) {
    forall b :: 0 <= b < |bs| ==> NoDup(bs[b]) && SortedKeys(store, bs[b])
  }

  /** No id is in two places: heads are distinct, buckets disjoint, heads never queued. */
  ghost predicate Separate(heads: seq<HId>, bs: seq<seq<HId>>) {
    && |heads| == |bs|
    && (forall b, c :: 0 <= b < c < |bs| ==> heads[b] != heads[c])
    && (forall b, c, x :: 0 <= b < |bs| && 0 <= c < |bs| && b != c && x in bs[b] ==> x !in bs[c])
    && (forall b, c :: 0 <= b < |bs| && 0 <= c < |bs| ==> heads[b] !in bs[c])
  }

  /** Every entry is hashed to the bucket it sits in. */
  ghost predicate Hashed(store: Store, hs: Hashing, bs: seq<seq<HId>>) {
    hs.size >= 1 &&
    forall b, x :: 0 <= b < |bs| && x in bs[b] ==> x in store && HasKey(store[x]) && QueueBucket(hs, store[x].ystar) == b
  }

  /**
   * The queue holds the ghost buckets `bs`: the chains, keys and hashing agree with
   * them, `count` is the number of entries and buckets below `minBucket` are empty.
   */
  ghost predicate Queued(store: Store, q: Queue, bs: seq<seq<HId>>) {
    && q.hash.size >= 1 && |q.heads| == q.hash.size && |bs| == q.hash.size
    && q.minBucket < q.hash.size
    && Chains(store, q.heads, bs) && Buckets(store, bs) && Separate(q.heads, bs) && Hashed(store, q.hash, bs)
    && q.count == Total(bs)
    && (forall b :: 0 <= b < q.minBucket ==> bs[b] == [])
  }

  /** `h` is neither a dummy head nor queued. */
  ghost predicate Outside(heads: seq<HId>, bs: seq<seq<HId>>, h: HId) {
    (forall b :: 0 <= b < |heads| ==> heads[b] != h) &&
    (forall b :: 0 <= b < |bs| ==> h !in bs[b])
  }

  /** An entry taken out of its bucket is nowhere in the queue any more. */
  lemma OutsideAfterDrop(heads: seq<HId>, bs: seq<seq<HId>>, c: nat, nb: seq<HId>, h: HId)
    requires Separate(heads, bs) && c < |bs| && h in bs[c] && h !in nb
    ensures Outside(heads, bs[c := nb], h)
  {
  }

  // ------------------------------------------- replacing one bucket's chain

  /** The chains of the other buckets survive a change confined to bucket `b` and `h`. */
  lemma ChainsReplace(store: Store, s: Store, q: Queue, bs: seq<seq<HId>>, b: nat, nb: seq<HId>, h: HId)
    requires Chains(store, q.heads, bs) && Separate(q.heads, bs) && b < |bs|
    requires ChainOf(s, q.heads[b], nb)
    requires forall c :: 0 <= c < |bs| ==> q.heads[c] != h
    requires forall c :: 0 <= c < |bs| && c != b ==> h !in bs[c]
    requires forall id :: id in store && id != q.heads[b] && id !in bs[b] && id != h ==> id in s && s[id].nextInQueue == store[id].nextInQueue
    ensures Chains(s, q.heads, bs[b := nb])
  {
    forall c | 0 <= c < |bs| && c != b
      ensures ChainOf(s, q.heads[c], bs[c])
    {
      assert ChainOf(store, q.heads[c], bs[c]);
      assert q.heads[c] != q.heads[b] by {
        if c < b {
          assert q.heads[c] != q.heads[b];
        } else {
          assert q.heads[b] != q.heads[c];
        }
      }
      assert q.heads[c] !in bs[b];
      forall x | x in bs[c] && x in store
        ensures x in s && s[x].nextInQueue == store[x].nextInQueue
      {
        assert x !in bs[b];
        assert x != q.heads[b];
      }
      ChainFrame(store, s, q.heads[c], bs[c]);
    }
  }

  /** The other buckets stay sorted when no key of theirs changes. */
  lemma BucketsReplace(store: Store, s: Store, bs: seq<seq<HId>>, b: nat, nb: seq<HId>, h: HId)
    requires Buckets(store, bs) && b < |bs|
    requires NoDup(nb) && SortedKeys(s, nb)
    requires forall c :: 0 <= c < |bs| && c != b ==> h !in bs[c]
    requires forall id :: id in store && id != h ==> id in s && s[id].ystar == store[id].ystar && s[id].vertex == store[id].vertex
    ensures Buckets(s, bs[b := nb])
  {
    forall c | 0 <= c < |bs| && c != b
      ensures SortedKeys(s, bs[c])
    {
      assert SortedKeys(store, bs[c]);
      SortedKeysFrame(store, s, bs[c]);
    }
  }

  /** Separation survives when the new bucket holds old members of `b` and possibly `h`. */
  lemma SeparateReplace(q: Queue, bs: seq<seq<HId>>, b: nat, nb: seq<HId>, h: HId)
    requires Separate(q.heads, bs) && b < |bs|
    requires forall x :: x in nb ==> x in bs[b] || x == h
    requires forall c :: 0 <= c < |bs| ==> q.heads[c] != h
    requires forall c :: 0 <= c < |bs| && c != b ==> h !in bs[c]
    ensures Separate(q.heads, bs[b := nb])
  {
  }

  /** Hashing survives when keys are kept and a newcomer hashes to `b`. */
  lemma HashedReplace(store: Store, s: Store, hs: Hashing, bs: seq<seq<HId>>, b: nat, nb: seq<HId>, h: HId)
    requires Hashed(store, hs, bs) && b < |bs|
    requires SortedKeys(s, nb)
    requires forall x :: x in nb ==> x in bs[b] || x == h
    requires forall i :: 0 <= i < |nb| && nb[i] == h ==> QueueBucket(hs, s[h].ystar) == b
    requires forall c :: 0 <= c < |bs| && c != b ==> h !in bs[c]
    requires forall id :: id in store && id != h ==> id in s && s[id].ystar == store[id].ystar && s[id].vertex == store[id].vertex
    ensures Hashed(s, hs, bs[b := nb])
  {
    forall x | x in nb
      ensures x in s && HasKey(s[x]) && QueueBucket(hs, s[x].ystar) == b
    {
      var i :| 0 <= i < |nb| && nb[i] == x;
    }
    forall c, x | 0 <= c < |bs| && c != b && x in bs[c]
      ensures x in s && HasKey(s[x]) && QueueBucket(hs, s[x].ystar) == c
    {
    }
  }

  /**
   * The general step behind `Insert`, `Remove` and `ExtractMin`: bucket `b` becomes the
   * chain `nb` of old members and possibly `h`, nothing outside bucket `b` and `h` is
   * relinked, and no key other than `h`'s changes.
   */
  lemma QueuedReplace(store: Store, s: Store, q: Queue, q2: Queue, bs: seq<seq<HId>>, b: nat, nb: seq<HId>, h: HId)
    requires Queued(store, q, bs) && b < |bs|
    requires q2.hash == q.hash && q2.heads == q.heads
    requires q2.minBucket <= b && q2.count == Total(bs[b := nb])
    requires forall c :: 0 <= c < q2.minBucket ==> bs[c] == []
    requires ChainOf(s, q.heads[b], nb) && NoDup(nb) && SortedKeys(s, nb)
    requires forall x :: x in nb ==> x in bs[b] || x == h
    requires forall i :: 0 <= i < |nb| && nb[i] == h ==> QueueBucket(q.hash, s[h].ystar) == b
    requires forall c :: 0 <= c < |bs| ==> q.heads[c] != h
    requires forall c :: 0 <= c < |bs| && c != b ==> h !in bs[c]
    requires forall id :: id in store && id != q.heads[b] && id !in bs[b] && id != h ==> id in s && s[id].nextInQueue == store[id].nextInQueue
    requires forall id :: id in store && id != h ==> id in s && s[id].ystar == store[id].ystar && s[id].vertex == store[id].vertex
    ensures Queued(s, q2, bs[b := nb])
  {
    ChainsReplace(store, s, q, bs, b, nb, h);
    BucketsReplace(store, s, bs, b, nb, h);
    SeparateReplace(q, bs, b, nb, h);
    HashedReplace(store, s, q.hash, bs, b, nb, h);
  }

  // --------------------------------------------------------- construction

  /**
   * The constructor and `Initialize`: `4 * sqrtNSites` buckets, each a fresh dummy
   * halfedge with an empty chain; no entries and `minBucket` 0.
   */
  function NewQueue(store: Store, ymin: real, deltay: real, sqrtNSites: nat, ids: seq<HId>): (r: (Store, Queue))
    requires sqrtNSites >= 1 && |ids| == 4 * sqrtNSites
    requires forall i, j :: 0 <= i < j < |ids| ==> ids[i] != ids[j]
    ensures r.1.hash == Hashing(ymin, deltay, 4 * sqrtNSites) && r.1.count == 0 && r.1.minBucket == 0
    ensures Queued(r.0, r.1, seq(4 * sqrtNSites, _ => []))
    ensures forall id :: id in store && id !in ids ==> id in r.0 && r.0[id] == store[id]
  {
    var s := map id | id in store.Keys + set i | 0 <= i < |ids| :: ids[i] ::
      if id in ids then CreateDummy() else store[id];
    var q := Queue(Hashing(ymin, deltay, 4 * sqrtNSites), ids, 0, 0);
    assert forall b :: 0 <= b < |ids| ==> ids[b] in s && s[ids[b]].nextInQueue.None?;
    EmptyQueued(s, q);
    (s, q)
  }

  /** Distinct dummy heads without successors make a queue with every bucket empty. */
  lemma EmptyQueued(s: Store, q: Queue)
    requires q.hash.size >= 1 && |q.heads| == q.hash.size && q.count == 0 && q.minBucket == 0
    requires forall i, j :: 0 <= i < j < |q.heads| ==> q.heads[i] != q.heads[j]
    requires forall b :: 0 <= b < |q.heads| ==> q.heads[b] in s && s[q.heads[b]].nextInQueue.None?
    ensures Queued(s, q, seq(q.hash.size, _ => []))
  {
    var bs: seq<seq<HId>> := seq(q.hash.size, _ => []);
    assert forall b :: 0 <= b < |bs| ==> ChainOf(s, q.heads[b], bs[b]);
    TotalZero(bs);
  }

  /** `IsEmpty`: the bucket's dummy has no successor. */
  predicate BucketEmpty(store: Store, q: Queue, b: nat)
    requires b < |q.heads| && q.heads[b] in store
  {
    store[q.heads[b]].nextInQueue.None?
  }

  /** The heads are present and the fields agree in size. */
  predicate Shaped(store: Store, q: Queue) {
    q.hash.size >= 1 && |q.heads| == q.hash.size && q.minBucket < q.hash.size &&
    forall b :: 0 <= b < |q.heads| ==> q.heads[b] in store
  }

  /** A well-formed queue is shaped, and a bucket reads empty exactly when it is. */
  lemma QueuedShaped(store: Store, q: Queue, bs: seq<seq<HId>>)
    requires Queued(store, q, bs)
    ensures Shaped(store, q)
    ensures forall b :: 0 <= b < q.hash.size ==> (BucketEmpty(store, q, b) <==> bs[b] == [])
  {
    forall b | 0 <= b < q.hash.size
      ensures q.heads[b] in store && (BucketEmpty(store, q, b) <==> bs[b] == [])
    {
      assert ChainOf(store, q.heads[b], bs[b]);
    }
  }

  /** `Empty`: no entries are counted. */
  predicate Empty(q: Queue) {
    q.count == 0
  }

  /** The count is honest: the queue is empty exactly when every bucket is. */
  lemma EmptyIff(store: Store, q: Queue, bs: seq<seq<HId>>)
    requires Queued(store, q, bs)
    ensures Empty(q) <==> forall b :: 0 <= b < |bs| ==> bs[b] == []
  {
    TotalZero(bs);
  }

  // ---------------------------------------------------------------- Insert

  /** Links `h` in right after `prev`. */
  function Link(store: Store, prev: HId, h: HId): (r: Store)
    requires prev in store && h in store
    ensures r.Keys == store.Keys
    ensures r[prev].nextInQueue == Some(h)
    ensures prev != h ==> r[h].nextInQueue == store[prev].nextInQueue
    ensures forall id :: id in store ==> r[id] == store[id].(nextInQueue := r[id].nextInQueue)
    ensures forall id :: id in store && id != prev && id != h ==> r[id] == store[id]
  {
    var s1 := store[h := store[h].(nextInQueue := store[prev].nextInQueue)];
    s1[prev := s1[prev].(nextInQueue := Some(h))]
  }

  /** The insertion walk from `prev`; `None` is a null dereference or a walk without end. */
  function InsertFrom(store: Store, prev: HId, h: HId, fuel: nat): Option<Store>
    decreases fuel
  {
    if fuel == 0 || prev !in store || h !in store then None
    else match store[prev].nextInQueue
      case None => Some(Link(store, prev, h))
      case Some(n) =>
        if n !in store then None
        else match GoesAfter(store[h], store[n])
          case None => None
          case Some(after) =>
            if after then InsertFrom(store, n, h, fuel - 1) else Some(Link(store, prev, h))
  }

  /** `s` differs from `store` in `nextInQueue` links only. */
  ghost predicate LinksOnly(store: Store, s: Store) {
    s.Keys == store.Keys &&
    forall id :: id in store ==> s[id] == store[id].(nextInQueue := s[id].nextInQueue)
  }

  /** `s` agrees with `store` except at `prev`, the ids of `xs` and `h`. */
  ghost predicate Untouched(store: Store, s: Store, prev: HId, xs: seq<HId>, h: HId) {
    forall id :: id in store && id != prev && id !in xs && id != h ==> id in s && s[id] == store[id]
  }

  /** Linking `h` in right after `prev` puts it at the front of the chain. */
  lemma LinkHere(store: Store, prev: HId, xs: seq<HId>, h: HId)
    requires ChainOf(store, prev, xs) && prev !in xs
    requires h in store && h != prev && h !in xs
    ensures var s := Link(store, prev, h);
      ChainOf(s, prev, [h] + xs) && LinksOnly(store, s) && Untouched(store, s, prev, xs, h)
  {
    var s := Link(store, prev, h);
    if xs != [] {
      ChainFrame(store, s, xs[0], xs[1..]);
    }
    assert ([h] + xs)[1..] == xs;
  }

  /** A link change further down the chain keeps `prev`'s own link to it. */
  lemma LinkFurther(store: Store, s: Store, prev: HId, n: HId, rest: seq<HId>, tail: seq<HId>, h: HId)
    requires prev in store && store[prev].nextInQueue == Some(n)
    requires prev != n && prev !in rest && prev != h
    requires ChainOf(s, n, tail) && LinksOnly(store, s) && Untouched(store, s, n, rest, h)
    ensures ChainOf(s, prev, [n] + tail) && Untouched(store, s, prev, [n] + rest, h)
  {
    assert ([n] + tail)[1..] == tail;
    assert s[prev] == store[prev];
  }

  /** One step of the insertion walk past an entry `h` goes after. */
  lemma InsertFromStep(store: Store, prev: HId, n: HId, h: HId, fuel: nat)
    requires fuel > 0 && prev in store && h in store && n in store
    requires store[prev].nextInQueue == Some(n) && GoesAfter(store[h], store[n]) == Some(true)
    ensures InsertFrom(store, prev, h, fuel) == InsertFrom(store, n, h, fuel - 1)
  {
  }

  /** The walk links `h` into the chain where `InsertByKey` says, touching only links. */
  lemma {:induction false} InsertFromCorrect(store: Store, prev: HId, xs: seq<HId>, h: HId, fuel: nat)
    requires ChainOf(store, prev, xs) && NoDup(xs) && prev !in xs
    requires forall i :: 0 <= i < |xs| ==> xs[i] in store && HasKey(store[xs[i]])
    requires h in store && HasKey(store[h]) && h != prev && h !in xs
    requires fuel > |xs|
    ensures InsertFrom(store, prev, h, fuel).Some?
    ensures var s := InsertFrom(store, prev, h, fuel).value;
      && ChainOf(s, prev, InsertByKey(store, h, xs))
      && LinksOnly(store, s) && Untouched(store, s, prev, xs, h)
    decreases |xs|
  {
    if xs == [] || KeyLe(store[h], store[xs[0]]) {
      LinkHere(store, prev, xs, h);
    } else {
      var n := xs[0];
      var rest := xs[1..];
      assert store[prev].nextInQueue == Some(n) && ChainOf(store, n, rest);
      assert n in store && HasKey(store[n]) && !KeyLe(store[h], store[n]);
      NoDupCons(xs);
      assert forall j :: 0 <= j < |rest| ==> rest[j] == xs[j + 1];
      InsertFromCorrect(store, n, rest, h, fuel - 1);
      var s := InsertFrom(store, n, h, fuel - 1).value;
      InsertFromStep(store, prev, n, h, fuel);
      assert prev != n && prev !in rest;
      var tail := InsertByKey(store, h, rest);
      assert InsertByKey(store, h, xs) == [n] + tail;
      LinkFurther(store, s, prev, n, rest, tail, h);
    }
  }

  /**
   * `Insert`: hashes `h` to its bucket, lowers `minBucket` to it when needed, links it
   * into the bucket's chain in key order and counts it.
   */
  function Insert(store: Store, q: Queue, h: HId, fuel: nat): (r: Option<(Store, Queue)>)
    requires q.hash.size >= 1 && |q.heads| == q.hash.size && h in store
    ensures r.Some? ==> r.value.1 == q.(count := q.count + 1, minBucket := r.value.1.minBucket)
    ensures r.Some? ==> r.value.1.minBucket == (if QueueBucket(q.hash, store[h].ystar) < q.minBucket then QueueBucket(q.hash, store[h].ystar) else q.minBucket)
  {
    var b := QueueBucket(q.hash, store[h].ystar);
    var mb := if b < q.minBucket then b else q.minBucket;
    match InsertFrom(store, q.heads[b], h, fuel)
    case None => None
    case Some(s) => Some((s, q.(minBucket := mb, count := q.count + 1)))
  }

  /**
   * Inserting a keyed halfedge that is not queued yet keeps the queue well formed, with
   * `h` placed in key order in its own bucket; only `nextInQueue` links change.
   */
  lemma InsertCorrect(store: Store, q: Queue, bs: seq<seq<HId>>, h: HId, fuel: nat)
    requires Queued(store, q, bs) && h in store && HasKey(store[h]) && Outside(q.heads, bs, h)
    requires fuel > Total(bs)
    ensures Insert(store, q, h, fuel).Some?
    ensures var (s, q2) := Insert(store, q, h, fuel).value;
      var b := QueueBucket(q.hash, store[h].ystar);
      && Queued(s, q2, bs[b := InsertByKey(store, h, bs[b])])
      && LinksOnly(store, s)
  {
    var b := QueueBucket(q.hash, store[h].ystar);
    var head := q.heads[b];
    assert ChainOf(store, head, bs[b]);
    assert NoDup(bs[b]) && SortedKeys(store, bs[b]);
    TotalUpdate(bs, b, bs[b]);
    InsertFromCorrect(store, head, bs[b], h, fuel);
    var s := InsertFrom(store, head, h, fuel).value;
    var q2 := Insert(store, q, h, fuel).value.1;
    var nb := InsertByKey(store, h, bs[b]);
    TotalUpdate(bs, b, nb);
    InsertByKeySorted(store, h, bs[b]);
    NoDupAdd(bs[b], h, nb);
    InsertByKeyMembers(store, h, bs[b]);
    SortedKeysFrame(store, s, nb);
    QueuedReplace(store, s, q, q2, bs, b, nb, h);
  }

  // ---------------------------------------------------------------- Remove

  /** The walk for `h`'s predecessor; `None` is the null dereference past the end. */
  function FindPrevious(store: Store, prev: HId, h: HId, fuel: nat): (r: Option<HId>)
    ensures r.Some? ==> r.value in store && store[r.value].nextInQueue == Some(h)
    decreases fuel
  {
    if fuel == 0 || prev !in store then None
    else if store[prev].nextInQueue == Some(h) then Some(prev)
    else match store[prev].nextInQueue
      case None => None
      case Some(n) => FindPrevious(store, n, h, fuel - 1)
  }

  /** Unlinks the successor of `prev`, which is `h`. */
  function Unlink(store: Store, prev: HId, h: HId): (r: Store)
    requires prev in store && h in store
    ensures r.Keys == store.Keys
    ensures r[prev].nextInQueue == store[h].nextInQueue
    ensures forall id :: id in store && id != prev ==> r[id] == store[id]
  {
    store[prev := store[prev].(nextInQueue := store[h].nextInQueue)]
  }

  /** One step of the predecessor walk past an entry other than `h`. */
  lemma FindPreviousStep(store: Store, prev: HId, n: HId, h: HId, fuel: nat)
    requires fuel > 0 && prev in store && store[prev].nextInQueue == Some(n) && n != h
    ensures FindPrevious(store, prev, h, fuel) == FindPrevious(store, n, h, fuel - 1)
  {
  }

  /** The predecessor walk finds `h`'s predecessor, and unlinking there drops `h` from the chain. */
  lemma {:induction false} FindPreviousCorrect(store: Store, prev: HId, xs: seq<HId>, h: HId, fuel: nat)
    requires ChainOf(store, prev, xs) && NoDup(xs) && prev !in xs
    requires h in xs && fuel >= |xs|
    ensures FindPrevious(store, prev, h, fuel).Some?
    ensures var p := FindPrevious(store, prev, h, fuel).value;
      && (p == prev || p in xs) && p != h && p in store && h in store
      && ChainOf(Unlink(store, p, h), prev, Without(xs, h))
    decreases |xs|
  {
    var n := xs[0];
    var rest := xs[1..];
    assert xs == [n] + rest;
    NoDupCons(xs);
    ChainInStore(store, prev, xs);
    if n == h {
      var s := Unlink(store, prev, h);
      if rest != [] {
        ChainFrame(store, s, rest[0], rest[1..]);
      }
    } else {
      assert h in rest;
      FindPreviousCorrect(store, n, rest, h, fuel - 1);
      var p := FindPrevious(store, n, h, fuel - 1).value;
      FindPreviousStep(store, prev, n, h, fuel);
      var s := Unlink(store, p, h);
      assert s[prev] == store[prev];
      assert Without(xs, h) == [n] + Without(rest, h);
      assert ([n] + Without(rest, h))[1..] == Without(rest, h);
    }
  }

  /**
   * The unlinking step of `Remove` once the predecessor `p` is known: `p` takes over
   * `h`'s successor, and `h` loses its vertex and successor and is disposed.
   */
  function RemoveAfter(store: Store, p: HId, h: HId): (s: Store)
    requires p in store && h in store
    ensures s.Keys == store.Keys
    ensures p != h ==> s[p].nextInQueue == store[h].nextInQueue
    ensures s[h] == Dispose(store[h].(vertex := None, nextInQueue := None))
    ensures forall id :: id in store && id != p && id != h ==> s[id] == store[id]
    ensures forall id :: id in store && id != h ==> s[id] == store[id].(nextInQueue := s[id].nextInQueue)
  {
    var s1 := Unlink(store, p, h);
    s1[h := Dispose(s1[h].(vertex := None, nextInQueue := None))]
  }

  /**
   * `Remove`: a halfedge without a vertex is not queued and is left alone; otherwise it
   * is unlinked from its bucket, uncounted, loses its vertex and successor, and is then
   * disposed (which clears it only when it is in no list any more).
   */
  function Remove(store: Store, q: Queue, h: HId, fuel: nat): (r: Option<(Store, Queue)>)
    requires q.hash.size >= 1 && |q.heads| == q.hash.size && h in store
    ensures store[h].vertex.None? ==> r == Some((store, q))
    ensures r.Some? ==> r.value.0.Keys == store.Keys
    ensures r.Some? && store[h].vertex.Some? ==>
      && r.value.1 == q.(count := q.count - 1)
      && r.value.0[h] == Dispose(store[h].(vertex := None, nextInQueue := None))
      && r.value.0[h].nextInQueue.None? && r.value.0[h].vertex.None?
    ensures r.Some? ==> forall id :: id in store && id != h ==>
      r.value.0[id] == store[id].(nextInQueue := r.value.0[id].nextInQueue)
  {
    if store[h].vertex.None? then Some((store, q))
    else
      var b := QueueBucket(q.hash, store[h].ystar);
      match FindPrevious(store, q.heads[b], h, fuel)
      case None => None
      case Some(p) => Some((RemoveAfter(store, p, h), q.(count := q.count - 1)))
  }

  /** `Remove` of a keyed halfedge whose predecessor walk succeeds, spelled out. */
  lemma RemoveUnfold(store: Store, q: Queue, h: HId, fuel: nat, c: nat)
    requires q.hash.size >= 1 && |q.heads| == q.hash.size && h in store && store[h].vertex.Some?
    requires c == QueueBucket(q.hash, store[h].ystar)
    requires FindPrevious(store, q.heads[c], h, fuel).Some?
    ensures FindPrevious(store, q.heads[c], h, fuel).value in store
    ensures Remove(store, q, h, fuel)
      == Some((RemoveAfter(store, FindPrevious(store, q.heads[c], h, fuel).value, h), q.(count := q.count - 1)))
  {
  }

  /**
   * Within one bucket: the predecessor walk succeeds, and removing `h` after it leaves a
   * sorted, duplicate-free chain of the other entries; only the predecessor and `h` change.
   */
  lemma RemoveFromBucket(store: Store, head: HId, xs: seq<HId>, h: HId, fuel: nat)
    requires ChainOf(store, head, xs) && NoDup(xs) && SortedKeys(store, xs) && head !in xs
    requires h in xs && fuel >= |xs|
    ensures FindPrevious(store, head, h, fuel).Some? && h in store
    ensures var p := FindPrevious(store, head, h, fuel).value;
      var s := RemoveAfter(store, p, h);
      var nb := Without(xs, h);
      && ChainOf(s, head, nb) && NoDup(nb) && h !in nb
      && (forall x :: x in nb ==> x in xs)
      && |nb| == |xs| - 1
      && (forall id :: id in store && id != head && id !in xs && id != h ==> id in s && s[id] == store[id])
  {
    FindPreviousCorrect(store, head, xs, h, fuel);
    var p := FindPrevious(store, head, h, fuel).value;
    var s := RemoveAfter(store, p, h);
    var nb := Without(xs, h);
    NoDupDrop(xs, h, nb);
    ChainFrame(Unlink(store, p, h), s, head, nb);
    WithoutMembers(xs, h);
  }

  /** The entries left after removing `h` keep their keys, so they stay sorted. */
  lemma RemoveSorted(store: Store, xs: seq<HId>, p: HId, h: HId)
    requires SortedKeys(store, xs) && NoDup(xs) && p in store && h in store
    ensures SortedKeys(RemoveAfter(store, p, h), Without(xs, h))
  {
    var nb := Without(xs, h);
    NoDupDrop(xs, h, nb);
    WithoutSorted(store, xs, h);
    SortedKeysFrame(store, RemoveAfter(store, p, h), nb);
  }

  /** Removing a queued halfedge keeps the queue well formed without it. */
  lemma RemoveCorrect(store: Store, q: Queue, bs: seq<seq<HId>>, c: nat, h: HId, fuel: nat)
    requires Queued(store, q, bs) && c < |bs| && h in bs[c]
    requires fuel >= Total(bs)
    ensures h in store && Remove(store, q, h, fuel).Some?
    ensures var (s, q2) := Remove(store, q, h, fuel).value;
      && Queued(s, q2, bs[c := Without(bs[c], h)])
      && Outside(q2.heads, bs[c := Without(bs[c], h)], h)
  {
    var head := q.heads[c];
    assert ChainOf(store, head, bs[c]);
    assert NoDup(bs[c]) && SortedKeys(store, bs[c]);
    assert head !in bs[c];
    TotalUpdate(bs, c, bs[c]);
    RemoveFromBucket(store, head, bs[c], h, fuel);
    var p := FindPrevious(store, head, h, fuel).value;
    var s := RemoveAfter(store, p, h);
    var q2 := q.(count := q.count - 1);
    RemoveUnfold(store, q, h, fuel, c);
    RemoveSorted(store, bs[c], p, h);
    var nb := Without(bs[c], h);
    TotalUpdate(bs, c, nb);
    OutsideAfterDrop(q.heads, bs, c, nb, h);
    QueuedReplace(store, s, q, q2, bs, c, nb, h);
  }

  // ---------------------------------------------------------- Min, ExtractMin

  /** `AdjustMinBucket`: moves `minBucket` up past empty buckets, stopping at the last one. */
  function AdjustMinBucket(store: Store, q: Queue): (r: Queue)
    requires Shaped(store, q)
    ensures Shaped(store, r) && r == q.(minBucket := r.minBucket)
    ensures q.minBucket <= r.minBucket
    ensures forall b :: q.minBucket <= b < r.minBucket ==> store[q.heads[b]].nextInQueue.None?
    ensures r.minBucket == q.hash.size - 1 || store[q.heads[r.minBucket]].nextInQueue.Some?
    decreases q.hash.size - q.minBucket
  {
    if q.minBucket < q.hash.size - 1 && BucketEmpty(store, q, q.minBucket)
    then AdjustMinBucket(store, q.(minBucket := q.minBucket + 1))
    else q
  }

  /** Raising `minBucket` over empty buckets keeps the queue well formed. */
  lemma QueuedMinBucket(store: Store, q: Queue, bs: seq<seq<HId>>, m: nat)
    requires Queued(store, q, bs) && m < q.hash.size
    requires forall b :: 0 <= b < m ==> bs[b] == []
    ensures Queued(store, q.(minBucket := m), bs)
  {
  }

  /**
   * `Min`: adjusts `minBucket`, then reports the first entry of that bucket as
   * `(vertex.x, ystar)`. `None` is the null dereference on an empty queue (and a vertex at
   * infinity, whose NaN coordinate a `Point` cannot hold).
   */
  function Min(store: Store, q: Queue): (r: (Queue, Option<Point>))
    requires Shaped(store, q)
    ensures r.0 == AdjustMinBucket(store, q)
  {
    var q1 := AdjustMinBucket(store, q);
    match store[q1.heads[q1.minBucket]].nextInQueue
    case None => (q1, None)
    case Some(a) =>
      if a !in store || !HasKey(store[a]) then (q1, None)
      else (q1, Some(Point(KeyX(store[a]), store[a].ystar)))
  }

  /**
   * With bucket `m` the first non-empty one, its first entry is no greater than any
   * queued entry.
   */
  lemma FirstBucketLeast(store: Store, q: Queue, bs: seq<seq<HId>>, m: nat)
    requires Queued(store, q, bs) && q.hash.deltay >= 0.0
    requires m < |bs| && bs[m] != [] && forall b :: 0 <= b < m ==> bs[b] == []
    ensures bs[m][0] in store && HasKey(store[bs[m][0]])
    ensures forall b, i :: 0 <= b < |bs| && 0 <= i < |bs[b]| ==>
      bs[b][i] in store && HasKey(store[bs[b][i]]) && KeyLe(store[bs[m][0]], store[bs[b][i]])
  {
    var a := bs[m][0];
    assert a in bs[m];
    forall b, i | 0 <= b < |bs| && 0 <= i < |bs[b]|
      ensures bs[b][i] in store && HasKey(store[bs[b][i]]) && KeyLe(store[a], store[bs[b][i]])
    {
      var e := bs[b][i];
      assert e in bs[b];
      if b == m {
        assert SortedKeys(store, bs[m]);
      } else if store[e].ystar <= store[a].ystar {
        QueueBucketMonotone(q.hash, store[e].ystar, store[a].ystar);
      }
    }
  }

  /**
   * On a non-empty queue, `Min` keeps the queue well formed and reports the key of an
   * entry no greater than any queued entry, which heads the adjusted `minBucket`.
   */
  lemma MinIsLeast(store: Store, q: Queue, bs: seq<seq<HId>>)
    requires Queued(store, q, bs) && !Empty(q) && q.hash.deltay >= 0.0
    ensures var (q1, p) := Min(store, q);
      && Queued(store, q1, bs)
      && bs[q1.minBucket] != []
      && var a := bs[q1.minBucket][0];
      && a in store && HasKey(store[a])
      && p == Some(Point(KeyX(store[a]), store[a].ystar))
      && forall b, i :: 0 <= b < |bs| && 0 <= i < |bs[b]| ==>
        bs[b][i] in store && HasKey(store[bs[b][i]]) && KeyLe(store[a], store[bs[b][i]])
  {
    QueuedShaped(store, q, bs);
    EmptyIff(store, q, bs);
    var q1 := AdjustMinBucket(store, q);
    var m := q1.minBucket;
    assert forall b :: 0 <= b < m ==> bs[b] == [];
    assert bs[m] != [];
    QueuedMinBucket(store, q, bs, m);
    assert ChainOf(store, q.heads[m], bs[m]);
    FirstBucketLeast(store, q, bs, m);
  }

  /**
   * `ExtractMin`: unlinks the first entry of bucket `minBucket`, uncounts it and clears
   * its successor. `None` is the null dereference when that bucket is empty.
   */
  function ExtractMin(store: Store, q: Queue): (r: Option<(Store, Queue, HId)>)
    requires Shaped(store, q)
    ensures r.Some? ==> r.value.0.Keys == store.Keys && r.value.1 == q.(count := q.count - 1)
    ensures r.Some? ==> r.value.2 in store && store[q.heads[q.minBucket]].nextInQueue == Some(r.value.2)
    ensures r.Some? ==> r.value.0[r.value.2] == store[r.value.2].(nextInQueue := None)
  {
    var head := q.heads[q.minBucket];
    match store[head].nextInQueue
    case None => None
    case Some(a) =>
      if a !in store then None
      else Some((Detach(store, head, a), q.(count := q.count - 1), a))
  }

  /** The unlinking step of `ExtractMin`: `head` takes over `a`'s successor, which `a` loses. */
  function Detach(store: Store, head: HId, a: HId): (s: Store)
    requires head in store && a in store
    ensures s.Keys == store.Keys
    ensures head != a ==> s[head].nextInQueue == store[a].nextInQueue
    ensures s[a] == store[a].(nextInQueue := None)
    ensures forall id :: id in store && id != head && id != a ==> s[id] == store[id]
    ensures forall id :: id in store ==> s[id] == store[id].(nextInQueue := s[id].nextInQueue)
  {
    var s1 := Unlink(store, head, a);
    s1[a := s1[a].(nextInQueue := None)]
  }

  /** Detaching the first entry of a chain leaves the chain of the others. */
  lemma DetachChain(store: Store, head: HId, xs: seq<HId>)
    requires ChainOf(store, head, xs) && xs != [] && NoDup(xs) && head !in xs
    ensures xs[0] in store && ChainOf(Detach(store, head, xs[0]), head, xs[1..])
  {
    var a := xs[0];
    var nb := xs[1..];
    NoDupCons(xs);
    assert ChainOf(store, a, nb);
    var s := Detach(store, head, a);
    if nb != [] {
      ChainFrame(store, s, nb[0], nb[1..]);
    }
  }

  /**
   * When bucket `minBucket` holds entries, `ExtractMin` returns its first one and leaves
   * a well-formed queue without it; only links change.
   */
  lemma ExtractMinCorrect(store: Store, q: Queue, bs: seq<seq<HId>>)
    requires Queued(store, q, bs) && bs[q.minBucket] != []
    ensures Shaped(store, q)
    ensures ExtractMin(store, q).Some?
    ensures var (s, q2, a) := ExtractMin(store, q).value;
      var m := q.minBucket;
      && a == bs[m][0]
      && Queued(s, q2, bs[m := bs[m][1..]])
      && Outside(q2.heads, bs[m := bs[m][1..]], a)
      && LinksOnly(store, s)
  {
    QueuedShaped(store, q, bs);
    var m := q.minBucket;
    var head := q.heads[m];
    var xs := bs[m];
    assert ChainOf(store, head, xs);
    assert NoDup(xs) && SortedKeys(store, xs);
    assert head !in xs;
    var a := xs[0];
    DetachChain(store, head, xs);
    var s := Detach(store, head, a);
    var q2 := q.(count := q.count - 1);
    assert ExtractMin(store, q) == Some((s, q2, a));
    var nb := xs[1..];
    TotalUpdate(bs, m, nb);
    NoDupCons(xs);
    SortedTail(store, xs);
    SortedKeysFrame(store, s, nb);
    assert forall x :: x in nb ==> x in xs;
    assert a in xs;
    OutsideAfterDrop(q.heads, bs, m, nb, a);
    QueuedReplace(store, s, q, q2, bs, m, nb, a);
  }
}
