/**
 * The beach line of the sweep (Delaunay/EdgeList.cs): a doubly linked list of halfedges
 * between two dummy ends, plus a hash of buckets over x that remembers recently found
 * halfedges so that a lookup can start close to its answer.
 *
 * Halfedges live in a store (`map<HId, Halfedge>`); the list is given by their
 * `leftNeighbor`/`rightNeighbor` links. `Linked` relates a store to the left-to-right
 * order of ids that the links describe.
 */
module EdgeLists {
  import opened Wrappers
  import opened LR
  import opened Geom
  import opened Edges
  import opened Halfedges

  type Store = map<HId, Halfedge>

  datatype EdgeList = EdgeList(
    xmin: real,
    deltax: real,
    hashsize: nat,
    hash: seq<Option<HId>>,
    leftEnd: HId,
    rightEnd: HId)

  // --------------------------------------------------------- representation

  /** The ids of `order` are pairwise distinct. */
  ghost predicate Distinct(order: seq<HId>) {
    forall i, j :: 0 <= i < j < |order| ==> order[i] != order[j]
  }

  /**
   * The store's links spell out `order`, from the left dummy to the right dummy; the
   * halfedges strictly between the ends carry live edges on which `IsLeftOf` is defined.
   */
  ghost predicate Linked(store: Store, el: EdgeList, order: seq<HId>) {
    && |order| >= 2
    && order[0] == el.leftEnd && order[|order| - 1] == el.rightEnd
    && Distinct(order)
    && (forall i :: 0 <= i < |order| ==> order[i] in store)
    && (forall i :: 0 <= i < |order| ==>
          store[order[i]].leftNeighbor == (if i == 0 then None else Some(order[i - 1])))
    && (forall i :: 0 <= i < |order| ==>
          store[order[i]].rightNeighbor == (if i == |order| - 1 then None else Some(order[i + 1])))
    && (forall i :: 0 < i < |order| - 1 ==>
          store[order[i]].edge.Live? && SlopeDefined(store[order[i]].edge.line))
  }

  /**
   * The hash has `hashsize` slots; the first holds the left dummy and the last the right
   * dummy; every other remembered halfedge is either on the beach line or deleted.
   */
  ghost predicate HashOk(store: Store, el: EdgeList, order: seq<HId>) {
    && el.hashsize >= 2 && |el.hash| == el.hashsize
    && el.hash[0] == Some(el.leftEnd) && el.hash[el.hashsize - 1] == Some(el.rightEnd)
    && (forall b :: 0 <= b < |el.hash| && el.hash[b].Some? ==>
          el.hash[b].value in store && (el.hash[b].value in order || store[el.hash[b].value].edge == Deleted))
  }

  /** The dummies never carry an edge, so they are never mistaken for deleted halfedges. */
  ghost predicate EndsAreDummies(store: Store, el: EdgeList) {
    el.leftEnd in store && el.rightEnd in store
    && store[el.leftEnd].edge == NoEdge && store[el.rightEnd].edge == NoEdge
  }

  // ----------------------------------------------------------- construction

  /**
   * The `EdgeList` constructor: two dummies linked to each other, `2 * sqrtNSites`
   * buckets, the left dummy in the first bucket and the right dummy in the last.
   */
  function NewEdgeList(store: Store, xmin: real, deltax: real, sqrtNSites: nat, left: HId, right: HId): (r: (Store, EdgeList))
    requires sqrtNSites >= 1
    requires left != right
    ensures r.1.hashsize == 2 * sqrtNSites && r.1.leftEnd == left && r.1.rightEnd == right
    ensures Linked(r.0, r.1, [left, right])
    ensures HashOk(r.0, r.1, [left, right]) && EndsAreDummies(r.0, r.1)
    ensures forall b :: 0 < b < r.1.hashsize - 1 ==> r.1.hash[b].None?
    ensures forall id :: id in store && id != left && id != right ==> id in r.0 && r.0[id] == store[id]
  {
    var size := 2 * sqrtNSites;
    var l := CreateDummy().(rightNeighbor := Some(right));
    var rt := CreateDummy().(leftNeighbor := Some(left));
    var hash := seq(size, b => if b == 0 then Some(left) else if b == size - 1 then Some(right) else None);
    (store[left := l][right := rt], EdgeList(xmin, deltax, size, hash, left, right))
  }

  // ---------------------------------------------------------------- Insert

  /**
   * `EdgeList.Insert(lb, nh)`: links `nh` in immediately right of `lb`. The source
   * dereferences `lb`'s right neighbour, so `lb` must not be the right end.
   */
  function Insert(store: Store, lb: HId, nh: HId): (r: Store)
    requires lb in store && nh in store && lb != nh
    requires store[lb].rightNeighbor.Some? && store[lb].rightNeighbor.value in store
    requires store[lb].rightNeighbor.value != nh
    ensures r.Keys == store.Keys
    ensures r[nh].leftNeighbor == Some(lb) && r[nh].rightNeighbor == store[lb].rightNeighbor
    ensures r[lb].rightNeighbor == Some(nh)
    ensures r[store[lb].rightNeighbor.value].leftNeighbor == Some(nh)
    ensures forall id :: id in store ==> r[id].edge == store[id].edge && r[id].nextInQueue == store[id].nextInQueue
    ensures store[lb].rightNeighbor.value != lb ==> r[lb] == store[lb].(rightNeighbor := Some(nh))
    ensures store[lb].rightNeighbor.value != lb ==>
      r[store[lb].rightNeighbor.value] == store[store[lb].rightNeighbor.value].(leftNeighbor := Some(nh))
    ensures forall id :: id in store && id != lb && id != nh && id != store[lb].rightNeighbor.value ==> r[id] == store[id]
  {
    var rb := store[lb].rightNeighbor.value;
    var s1 := store[nh := store[nh].(leftNeighbor := Some(lb), rightNeighbor := Some(rb))];
    var s2 := s1[rb := s1[rb].(leftNeighbor := Some(nh))];
    s2[lb := s2[lb].(rightNeighbor := Some(nh))]
  }

  /** Insertion right of position `i` keeps the list linked, with `nh` at position `i + 1`. */
  lemma InsertKeepsLinked(store: Store, el: EdgeList, order: seq<HId>, i: nat, nh: HId)
    requires Linked(store, el, order)
    requires i < |order| - 1
    requires nh in store && nh !in order
    requires store[nh].edge.Live? && SlopeDefined(store[nh].edge.line)
    ensures store[order[i]].rightNeighbor == Some(order[i + 1]) && order[i + 1] in store && order[i + 1] != nh
    ensures Linked(Insert(store, order[i], nh), el, order[..i + 1] + [nh] + order[i + 1..])
  {
    LinkedAt(store, el, order, i);
    LinkedAt(store, el, order, i + 1);
    var o := order[..i + 1] + [nh] + order[i + 1..];
    var r := Insert(store, order[i], nh);
    InsertedDistinct(order, i, nh);
    forall k | 0 <= k < |o|
      ensures o[k] in r
      ensures r[o[k]].leftNeighbor == (if k == 0 then None else Some(o[k - 1]))
      ensures r[o[k]].rightNeighbor == (if k == |o| - 1 then None else Some(o[k + 1]))
      ensures 0 < k < |o| - 1 ==> r[o[k]].edge.Live? && SlopeDefined(r[o[k]].edge.line)
    {
      InsertLinksAt(store, el, order, i, nh, k);
    }
    assert o[0] == order[0] && o[|o| - 1] == order[|order| - 1];
    assert Linked(r, el, o);
  }

  /** Inserting a new id into a list of distinct ids keeps them distinct. */
  lemma InsertedDistinct(order: seq<HId>, i: nat, nh: HId)
    requires Distinct(order) && i < |order| && nh !in order
    ensures Distinct(order[..i + 1] + [nh] + order[i + 1..])
  {
    var o := order[..i + 1] + [nh] + order[i + 1..];
    forall a, b | 0 <= a < b < |o|
      ensures o[a] != o[b]
    {
      if a == i + 1 {
        assert o[b] == order[b - 1];
      } else if b == i + 1 {
        assert o[a] == order[a];
      } else {
        var a' := if a <= i then a else a - 1;
        var b' := if b <= i then b else b - 1;
        assert o[a] == order[a'] && o[b] == order[b'];
      }
    }
  }

  /** The links `Linked` promises at one position. */
  lemma LinkedAt(store: Store, el: EdgeList, order: seq<HId>, j: nat)
    requires Linked(store, el, order) && j < |order|
    ensures order[j] in store
    ensures store[order[j]].leftNeighbor == (if j == 0 then None else Some(order[j - 1]))
    ensures store[order[j]].rightNeighbor == (if j == |order| - 1 then None else Some(order[j + 1]))
  {
  }

  /** The links of one position of the list after an insertion. */
  lemma InsertLinksAt(store: Store, el: EdgeList, order: seq<HId>, i: nat, nh: HId, k: nat)
    requires Linked(store, el, order)
    requires i < |order| - 1 && k <= |order|
    requires nh in store && nh !in order
    requires store[nh].edge.Live? && SlopeDefined(store[nh].edge.line)
    ensures store[order[i]].rightNeighbor == Some(order[i + 1]) && order[i + 1] in store && order[i + 1] != nh
    ensures var o := order[..i + 1] + [nh] + order[i + 1..];
      var r := Insert(store, order[i], nh);
      && o[k] in r
      && r[o[k]].leftNeighbor == (if k == 0 then None else Some(o[k - 1]))
      && r[o[k]].rightNeighbor == (if k == |o| - 1 then None else Some(o[k + 1]))
      && (0 < k < |o| - 1 ==> r[o[k]].edge.Live? && SlopeDefined(r[o[k]].edge.line))
  {
    LinkedAt(store, el, order, i);
    LinkedAt(store, el, order, i + 1);
    var o := order[..i + 1] + [nh] + order[i + 1..];
    var r := Insert(store, order[i], nh);
    assert order[i + 1] != order[i];
    if k < i {
      LinkedAt(store, el, order, k);
      assert o[k] == order[k] && o[k + 1] == order[k + 1];
      assert o[k] != order[i] && o[k] != order[i + 1] && o[k] != nh;
      assert r[o[k]] == store[o[k]];
      if k > 0 { assert o[k - 1] == order[k - 1]; }
    } else if k == i {
      assert o[k] == order[i] && o[k + 1] == nh;
      assert r[o[k]] == store[order[i]].(rightNeighbor := Some(nh));
      if k > 0 { assert o[k - 1] == order[k - 1]; }
    } else if k == i + 1 {
      assert o[k] == nh && o[k - 1] == order[i] && o[k + 1] == order[i + 1];
    } else if k == i + 2 {
      assert o[k] == order[i + 1] && o[k - 1] == nh;
      assert r[o[k]] == store[order[i + 1]].(leftNeighbor := Some(nh));
      if k < |o| - 1 { assert o[k + 1] == order[k]; }
    } else {
      LinkedAt(store, el, order, k - 1);
      assert o[k] == order[k - 1] && o[k - 1] == order[k - 2];
      assert o[k] != order[i] && o[k] != order[i + 1] && o[k] != nh;
      assert r[o[k]] == store[o[k]];
      if k < |o| - 1 { assert o[k + 1] == order[k]; }
    }
  }

  /** Insertion keeps the hash consistent: it only adds to the beach line. */
  lemma InsertKeepsHash(store: Store, el: EdgeList, order: seq<HId>, i: nat, nh: HId)
    requires Linked(store, el, order) && HashOk(store, el, order) && EndsAreDummies(store, el)
    requires i < |order| - 1
    requires nh in store && nh !in order
    ensures store[order[i]].rightNeighbor == Some(order[i + 1]) && order[i + 1] in store && order[i + 1] != nh
    ensures var o := order[..i + 1] + [nh] + order[i + 1..];
      HashOk(Insert(store, order[i], nh), el, o) && EndsAreDummies(Insert(store, order[i], nh), el)
  {
    var o := order[..i + 1] + [nh] + order[i + 1..];
    forall id | id in order
      ensures id in o
    {
      var k :| 0 <= k < |order| && order[k] == id;
      if k <= i {
        assert o[k] == id;
      } else {
        assert o[k + 1] == id;
      }
    }
  }

  // ---------------------------------------------------------------- Remove

  /**
   * `EdgeList.Remove(h)`: splices `h` out between its neighbours, marks it with the
   * `DELETED` tombstone and clears its own links. The source dereferences both
   * neighbours, so `h` must have them.
   */
  function Remove(store: Store, h: HId): (r: Store)
    requires h in store
    requires store[h].leftNeighbor.Some? && store[h].rightNeighbor.Some?
    requires store[h].leftNeighbor.value in store && store[h].rightNeighbor.value in store
    requires store[h].leftNeighbor.value != h && store[h].rightNeighbor.value != h
    requires store[h].leftNeighbor.value != store[h].rightNeighbor.value
    ensures r.Keys == store.Keys
    ensures r[h].edge == Deleted && r[h].leftNeighbor.None? && r[h].rightNeighbor.None?
    ensures r[store[h].leftNeighbor.value].rightNeighbor == store[h].rightNeighbor
    ensures r[store[h].rightNeighbor.value].leftNeighbor == store[h].leftNeighbor
    ensures forall id :: id in store && id != h ==> r[id].edge == store[id].edge && r[id].nextInQueue == store[id].nextInQueue
    ensures r[h].nextInQueue == store[h].nextInQueue && r[h].vertex == store[h].vertex && r[h].side == store[h].side
    ensures r[store[h].leftNeighbor.value] == store[store[h].leftNeighbor.value].(rightNeighbor := store[h].rightNeighbor)
    ensures r[store[h].rightNeighbor.value] == store[store[h].rightNeighbor.value].(leftNeighbor := store[h].leftNeighbor)
    ensures forall id :: id in store && id != h && id != store[h].leftNeighbor.value && id != store[h].rightNeighbor.value ==> r[id] == store[id]
  {
    var lb := store[h].leftNeighbor.value;
    var rb := store[h].rightNeighbor.value;
    var s1 := store[lb := store[lb].(rightNeighbor := Some(rb))];
    var s2 := s1[rb := s1[rb].(leftNeighbor := Some(lb))];
    s2[h := s2[h].(edge := Deleted, leftNeighbor := None, rightNeighbor := None)]
  }

  /** Removing an interior halfedge keeps the list linked, without it. */
  lemma RemoveKeepsLinked(store: Store, el: EdgeList, order: seq<HId>, i: nat)
    requires Linked(store, el, order)
    requires 0 < i < |order| - 1
    ensures store[order[i]].leftNeighbor == Some(order[i - 1])
    ensures store[order[i]].rightNeighbor == Some(order[i + 1])
    ensures Linked(Remove(store, order[i]), el, order[..i] + order[i + 1..])
  {
    var o := order[..i] + order[i + 1..];
    assert forall k :: 0 <= k < i ==> o[k] == order[k];
    assert forall k :: i <= k < |o| ==> o[k] == order[k + 1];
    forall a, b | 0 <= a < b < |o|
      ensures o[a] != o[b]
    {
      var a' := if a < i then a else a + 1;
      var b' := if b < i then b else b + 1;
      assert o[a] == order[a'] && o[b] == order[b'];
    }
    LinkedAt(store, el, order, i);
    var r := Remove(store, order[i]);
    forall k | 0 <= k < |o|
      ensures o[k] in r
      ensures r[o[k]].leftNeighbor == (if k == 0 then None else Some(o[k - 1]))
      ensures r[o[k]].rightNeighbor == (if k == |o| - 1 then None else Some(o[k + 1]))
    {
      RemoveLinksAt(store, el, order, i, k);
    }
    forall k | 0 < k < |o| - 1
      ensures r[o[k]].edge.Live? && SlopeDefined(r[o[k]].edge.line)
    {
      if k < i {
        assert o[k] == order[k];
      } else {
        assert o[k] == order[k + 1];
      }
    }
    assert o[0] == el.leftEnd && o[|o| - 1] == el.rightEnd;
    assert Linked(r, el, o);
  }

  /** The links of one position of the list after a removal. */
  lemma RemoveLinksAt(store: Store, el: EdgeList, order: seq<HId>, i: nat, k: nat)
    requires Linked(store, el, order)
    requires 0 < i < |order| - 1 && k < |order| - 1
    ensures store[order[i]].leftNeighbor == Some(order[i - 1])
    ensures store[order[i]].rightNeighbor == Some(order[i + 1])
    ensures var o := order[..i] + order[i + 1..];
      var r := Remove(store, order[i]);
      && o[k] in r
      && r[o[k]].leftNeighbor == (if k == 0 then None else Some(o[k - 1]))
      && r[o[k]].rightNeighbor == (if k == |o| - 1 then None else Some(o[k + 1]))
  {
    LinkedAt(store, el, order, i - 1);
    LinkedAt(store, el, order, i);
    LinkedAt(store, el, order, i + 1);
    var o := order[..i] + order[i + 1..];
    var r := Remove(store, order[i]);
    if k < i - 1 {
      LinkedAt(store, el, order, k);
      assert o[k] == order[k] && o[k + 1] == order[k + 1];
      assert o[k] != order[i - 1] && o[k] != order[i] && o[k] != order[i + 1];
      assert r[o[k]] == store[o[k]];
      if k > 0 { assert o[k - 1] == order[k - 1]; }
    } else if k == i - 1 {
      assert o[k] == order[i - 1] && o[k + 1] == order[i + 1];
      assert r[o[k]] == store[order[i - 1]].(rightNeighbor := Some(order[i + 1]));
      if k > 0 { assert o[k - 1] == order[k - 1]; }
    } else if k == i {
      assert o[k] == order[i + 1] && o[k - 1] == order[i - 1];
      assert r[o[k]] == store[order[i + 1]].(leftNeighbor := Some(order[i - 1]));
      if k < |o| - 1 { assert o[k + 1] == order[k + 2]; }
    } else {
      LinkedAt(store, el, order, k + 1);
      assert o[k] == order[k + 1] && o[k - 1] == order[k];
      assert o[k] != order[i - 1] && o[k] != order[i] && o[k] != order[i + 1];
      assert r[o[k]] == store[o[k]];
      if k < |o| - 1 { assert o[k + 1] == order[k + 2]; }
    }
  }

  /** Removal keeps the hash consistent: a removed halfedge is a deleted one. */
  lemma RemoveKeepsHash(store: Store, el: EdgeList, order: seq<HId>, i: nat)
    requires Linked(store, el, order) && HashOk(store, el, order) && EndsAreDummies(store, el)
    requires 0 < i < |order| - 1
    ensures store[order[i]].leftNeighbor == Some(order[i - 1])
    ensures store[order[i]].rightNeighbor == Some(order[i + 1])
    ensures HashOk(Remove(store, order[i]), el, order[..i] + order[i + 1..])
    ensures EndsAreDummies(Remove(store, order[i]), el)
  {
    var o := order[..i] + order[i + 1..];
    LinkedAt(store, el, order, i);
    forall id | id in order && id != order[i]
      ensures id in o
    {
      var k :| 0 <= k < |order| && order[k] == id;
      if k < i {
        assert o[k] == id;
      } else {
        assert o[k - 1] == id;
      }
    }
  }

  // ---------------------------------------------------------------- buckets

  /**
   * C#'s `(int)` conversion of a finite float: truncation toward zero (the model does
   * not bound the value to 32 bits).
   */
  function Trunc(r: real): (n: int)
    ensures r >= 0.0 ==> n as real <= r < n as real + 1.0
    ensures r < 0.0 ==> n as real - 1.0 < r <= n as real
  {
    if r >= 0.0 then r.Floor else -((-r).Floor)
  }

  /** Clamps a bucket number into `[0, size - 1]`. */
  function Clamp(b: int, size: nat): (r: nat)
    requires size >= 1
    ensures r < size
    ensures 0 <= b < size ==> r == b
    ensures b < 0 ==> r == 0
    ensures b >= size ==> r == size - 1
  {
    if b < 0 then 0 else if b >= size then size - 1 else b
  }

  /**
   * The bucket `EdgeListLeftNeighbor` starts from. A zero extent (every site on one
   * vertical line) divides 0 by 0; the x86 conversion of the resulting NaN is the
   * smallest `int`, which the clamp turns into bucket 0.
   */
  function BucketOf(el: EdgeList, p: Point): (b: nat)
    requires el.hashsize >= 1
    ensures b < el.hashsize
  {
    if el.deltax == 0.0 then 0
    else Clamp(Trunc((p.x - el.xmin) / el.deltax * el.hashsize as real), el.hashsize)
  }

  /**
   * `EdgeList.GetHash(b)`: the halfedge remembered in bucket `b`, or nothing for a bucket
   * out of range, an empty one, or one whose halfedge has since been deleted; in that
   * last case the slot is cleared.
   */
  function GetHash(store: Store, el: EdgeList, b: int): (r: (EdgeList, Option<HId>))
    requires |el.hash| == el.hashsize
    ensures r.0.hashsize == el.hashsize && |r.0.hash| == el.hashsize
    ensures r.0 == el.(hash := r.0.hash)
    ensures b < 0 || b >= el.hashsize ==> r == (el, None)
    ensures 0 <= b < el.hashsize && el.hash[b].Some? && el.hash[b].value in store && store[el.hash[b].value].edge == Deleted ==>
      r.1.None? && r.0.hash == el.hash[b := None]
    ensures r.1.Some? ==> 0 <= b < el.hashsize && el.hash[b] == r.1 && r.0 == el
    ensures r.1.Some? ==> r.1.value !in store || store[r.1.value].edge != Deleted
    ensures 0 <= b < el.hashsize && el.hash[b].Some? && (el.hash[b].value !in store || store[el.hash[b].value].edge != Deleted) ==>
      r.1 == el.hash[b]
  {
    if b < 0 || b >= el.hashsize then (el, None)
    else
      var h := el.hash[b];
      if h.Some? && h.value in store && store[h.value].edge == Deleted then
        (el.(hash := el.hash[b := None]), None)
      else (el, h)
  }

  /** Clearing a slot that holds a deleted halfedge keeps the hash consistent. */
  lemma GetHashKeepsHash(store: Store, el: EdgeList, order: seq<HId>, b: int)
    requires HashOk(store, el, order) && EndsAreDummies(store, el)
    ensures HashOk(store, GetHash(store, el, b).0, order)
    ensures 0 <= b < el.hashsize && (b == 0 || b == el.hashsize - 1) ==> GetHash(store, el, b).1.Some?
  {
  }

  /**
   * The outward scan of `EdgeListLeftNeighbor` from an empty bucket: tries `b - i`, then
   * `b + i`, for `i = 1, 2, ...`. The source loops for ever once both run out of range
   * without a hit; the model answers `None` then.
   */
  function Scan(store: Store, el: EdgeList, b: int, i: nat): (r: (EdgeList, Option<HId>))
    requires |el.hash| == el.hashsize
    ensures r.0.hashsize == el.hashsize && |r.0.hash| == el.hashsize
    ensures r.0 == el.(hash := r.0.hash)
    decreases el.hashsize + (if b < 0 then -b else b) + 1 - i
  {
    if i > el.hashsize + (if b < 0 then -b else b) then (el, None)
    else
      var (el1, h1) := GetHash(store, el, b - i);
      if h1.Some? then (el1, h1)
      else
        var (el2, h2) := GetHash(store, el1, b + i);
        if h2.Some? then (el2, h2)
        else Scan(store, el2, b, i + 1)
  }

  /**
   * Under a consistent hash the scan from a bucket in range reaches the left dummy in
   * bucket 0 at the latest, and what it finds is on the beach line.
   */
  lemma {:induction false} ScanFinds(store: Store, el: EdgeList, order: seq<HId>, b: nat, i: nat)
    requires HashOk(store, el, order) && EndsAreDummies(store, el)
    requires b < el.hashsize && 1 <= i <= b
    ensures var r := Scan(store, el, b, i);
      r.1.Some? && r.1.value in order && HashOk(store, r.0, order)
    decreases b - i
  {
    var (el1, h1) := GetHash(store, el, b - i);
    GetHashKeepsHash(store, el, order, b - i);
    if h1.Some? {
    } else {
      assert b - i != 0;
      var (el2, h2) := GetHash(store, el1, b + i);
      GetHashKeepsHash(store, el1, order, b + i);
      if h2.Some? {
      } else {
        ScanFinds(store, el2, order, b, i + 1);
      }
    }
  }

  // ---------------------------------------------------------- the lookup

  /** `h` is an interior halfedge that lies left of `p`. */
  predicate LeftOfPoint(store: Store, h: HId, p: Point) {
    h in store && store[h].edge.Live? && SlopeDefined(store[h].edge.line) && IsLeftOf(store[h], p)
  }

  /** `h` is an interior halfedge on which `IsLeftOf` can be asked. */
  predicate Testable(store: Store, h: HId) {
    h in store && store[h].edge.Live? && SlopeDefined(store[h].edge.line)
  }

  /**
   * The rightward walk: `do h := h.right while (h != rightEnd && h.IsLeftOf(p));` and then
   * the left neighbour of where it stopped. `None` is a null dereference or running out
   * of fuel.
   */
  function WalkRight(store: Store, el: EdgeList, h: HId, p: Point, fuel: nat): Option<HId>
    decreases fuel
  {
    if fuel == 0 || h !in store || store[h].rightNeighbor.None? then None
    else
      var n := store[h].rightNeighbor.value;
      if n != el.rightEnd && Testable(store, n) && IsLeftOf(store[n], p) then
        WalkRight(store, el, n, p, fuel - 1)
      else if n != el.rightEnd && !Testable(store, n) then None
      else if n !in store then None
      else store[n].leftNeighbor
  }

  /** The leftward walk: `do h := h.left while (h != leftEnd && !h.IsLeftOf(p));`. */
  function WalkLeft(store: Store, el: EdgeList, h: HId, p: Point, fuel: nat): Option<HId>
    decreases fuel
  {
    if fuel == 0 || h !in store || store[h].leftNeighbor.None? then None
    else
      var n := store[h].leftNeighbor.value;
      if n == el.leftEnd then Some(n)
      else if !Testable(store, n) then None
      else if IsLeftOf(store[n], p) then Some(n)
      else WalkLeft(store, el, n, p, fuel - 1)
  }

  /** The answer `EdgeListLeftNeighbor` promises: the rightmost halfedge left of `p`. */
  ghost predicate LeftNeighborOf(store: Store, el: EdgeList, order: seq<HId>, j: int, p: Point) {
    && 0 <= j < |order| - 1
    && (j == 0 || LeftOfPoint(store, order[j], p))
    && (j + 1 == |order| - 1 || !LeftOfPoint(store, order[j + 1], p))
  }

  lemma {:induction false} WalkRightFinds(store: Store, el: EdgeList, order: seq<HId>, i: nat, p: Point, fuel: nat)
    requires Linked(store, el, order)
    requires i < |order| - 1 && (i == 0 || LeftOfPoint(store, order[i], p))
    requires fuel >= |order| - 1 - i
    ensures var r := WalkRight(store, el, order[i], p, fuel);
      r.Some? && exists j :: i <= j < |order| - 1 && order[j] == r.value && LeftNeighborOf(store, el, order, j, p)
    decreases |order| - i
  {
    var n := order[i + 1];
    assert store[order[i]].rightNeighbor == Some(n);
    assert store[n].leftNeighbor == Some(order[i]);
    if i + 1 < |order| - 1 {
      assert n != el.rightEnd by { assert order[|order| - 1] == el.rightEnd; }
      if IsLeftOf(store[n], p) {
        WalkRightFinds(store, el, order, i + 1, p, fuel - 1);
      } else {
        assert LeftNeighborOf(store, el, order, i, p);
      }
    } else {
      assert LeftNeighborOf(store, el, order, i, p);
    }
  }

  lemma {:induction false} WalkLeftFinds(store: Store, el: EdgeList, order: seq<HId>, i: nat, p: Point, fuel: nat)
    requires Linked(store, el, order)
    requires 0 < i < |order| && (i == |order| - 1 || !LeftOfPoint(store, order[i], p))
    requires fuel >= i
    ensures var r := WalkLeft(store, el, order[i], p, fuel);
      r.Some? && exists j :: 0 <= j < i && order[j] == r.value && LeftNeighborOf(store, el, order, j, p)
    decreases i
  {
    var n := order[i - 1];
    assert store[order[i]].leftNeighbor == Some(n);
    if i - 1 == 0 {
      assert LeftNeighborOf(store, el, order, 0, p);
    } else {
      assert n != el.leftEnd by { assert order[0] == el.leftEnd; }
      if IsLeftOf(store[n], p) {
        assert LeftNeighborOf(store, el, order, i - 1, p);
      } else {
        WalkLeftFinds(store, el, order, i - 1, p, fuel - 1);
      }
    }
  }

  /**
   * Where `EdgeListLeftNeighbor` starts: the halfedge hashed for `p`'s bucket, or the
   * nearest one the outward scan finds.
   */
  function Start(store: Store, el: EdgeList, p: Point): (r: (EdgeList, Option<HId>))
    requires |el.hash| == el.hashsize && el.hashsize >= 1
    ensures r.0.hashsize == el.hashsize && |r.0.hash| == el.hashsize
    ensures r.0 == el.(hash := r.0.hash)
  {
    var b := BucketOf(el, p);
    var (el1, h0) := GetHash(store, el, b);
    if h0.Some? then (el1, h0) else Scan(store, el1, b, 1)
  }

  /** Under a consistent hash the start is a halfedge of the beach line. */
  lemma StartFound(store: Store, el: EdgeList, order: seq<HId>, p: Point)
    requires HashOk(store, el, order) && EndsAreDummies(store, el)
    ensures var r := Start(store, el, p);
      r.1.Some? && r.1.value in order && HashOk(store, r.0, order)
  {
    var b := BucketOf(el, p);
    var (el1, h0) := GetHash(store, el, b);
    GetHashKeepsHash(store, el, order, b);
    if h0.None? {
      assert b != 0 && b != el.hashsize - 1;
      ScanFinds(store, el1, order, b, 1);
    } else {
      assert el.hash[b] == h0;
    }
  }

  /**
   * `EdgeList.EdgeListLeftNeighbor(p)`: start from the hashed bucket of `p` (or the
   * nearest nonempty one), walk right while halfedges are left of `p` or left while they
   * are not, and remember the answer in the starting bucket unless that is an end bucket.
   * `None` is a fault of the source (a null dereference or an endless scan) or fuel
   * running out.
   */
  function LeftNeighbor(store: Store, el: EdgeList, p: Point, fuel: nat): (r: Option<(EdgeList, HId)>)
    requires |el.hash| == el.hashsize && el.hashsize >= 1
    ensures r.Some? ==> r.value.0.hashsize == el.hashsize && |r.value.0.hash| == el.hashsize
    ensures r.Some? ==> r.value.0 == el.(hash := r.value.0.hash)
  {
    var b := BucketOf(el, p);
    var (el2, start) := Start(store, el, p);
    if start.None? then None
    else
      var found := Walk(store, el, start.value, p, fuel);
      if found.None? then None
      else
        var el3 := if 0 < b < el.hashsize - 1 then el2.(hash := el2.hash[b := found]) else el2;
        Some((el3, found.value))
  }

  /** The walk from the start: right while halfedges are left of `p`, else left. */
  function Walk(store: Store, el: EdgeList, h: HId, p: Point, fuel: nat): Option<HId> {
    if h == el.leftEnd || (h != el.rightEnd && Testable(store, h) && IsLeftOf(store[h], p)) then
      WalkRight(store, el, h, p, fuel)
    else if h != el.rightEnd && !Testable(store, h) then None
    else WalkLeft(store, el, h, p, fuel)
  }

  /** From any halfedge of a linked beach line the walk ends at the left neighbour of `p`. */
  lemma WalkFinds(store: Store, el: EdgeList, order: seq<HId>, k: nat, p: Point, fuel: nat)
    requires Linked(store, el, order) && k < |order|
    requires fuel >= |order|
    ensures var r := Walk(store, el, order[k], p, fuel);
      r.Some? && exists j :: 0 <= j < |order| - 1 && order[j] == r.value && LeftNeighborOf(store, el, order, j, p)
  {
    var h := order[k];
    if h == el.leftEnd || (h != el.rightEnd && Testable(store, h) && IsLeftOf(store[h], p)) {
      if h == el.leftEnd {
        assert k == 0;
      } else {
        assert k != |order| - 1;
      }
      WalkRightFinds(store, el, order, k, p, fuel);
    } else {
      assert k != 0;
      if k != |order| - 1 {
        assert Testable(store, h);
      }
      WalkLeftFinds(store, el, order, k, p, fuel);
    }
  }

  /**
   * With a linked beach line, a consistent hash and enough fuel the lookup succeeds; it
   * answers the rightmost halfedge left of `p` (the left dummy if none is), and only an
   * interior bucket is overwritten, with the answer, so the hash stays consistent.
   */
  lemma LeftNeighborCorrect(store: Store, el: EdgeList, order: seq<HId>, p: Point, fuel: nat)
    requires Linked(store, el, order) && HashOk(store, el, order) && EndsAreDummies(store, el)
    requires fuel >= |order|
    ensures var r := LeftNeighbor(store, el, p, fuel);
      && r.Some?
      && (exists j :: 0 <= j < |order| - 1 && order[j] == r.value.1 && LeftNeighborOf(store, el, order, j, p))
      && HashOk(store, r.value.0, order)
      && r.value.0.hash[0] == el.hash[0] && r.value.0.hash[el.hashsize - 1] == el.hash[el.hashsize - 1]
  {
    StartFound(store, el, order, p);
    var (el2, start) := Start(store, el, p);
    var k :| 0 <= k < |order| && order[k] == start.value;
    WalkFinds(store, el, order, k, p, fuel);
  }
}
