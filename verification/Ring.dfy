/**
 The abstract value of a kernel list: the items in list order, and where the walking
 index stands. Index 0 is the end marker; index k > 0 is item number k-1.
 */
module Rings {
  const COUNT_MODULUS := 256  // list counters have type UBaseType_t, an unsigned char on this port

  datatype Ring<T> = Ring(items: seq<T>, index: nat) {
    predicate Valid() {
      index <= |items|
    }

    /** The order in which the walking index will visit the items from now on. */
    function Queue(): (q: seq<T>)
      requires Valid()
      ensures |q| == |items|
    {
      items[index..] + items[..index]
    }

    /** Links `x` in front of item number `p` (`p == |items|`: in front of the end marker). */
    function InsertAt(p: nat, x: T): (r: Ring<T>)
      requires Valid() && p <= |items|
    {
      Ring(items[..p] + [x] + items[p..], if index > p then index + 1 else index)
    }

    /** Links `x` just behind the walking index. */
    function InsertEnd(x: T): (r: Ring<T>)
      requires Valid()
    {
      InsertAt(if index == 0 then |items| else index - 1, x)
    }

    /** Unlinks item number `p`; an index standing on it steps back to the previous node. */
    function RemoveAt(p: nat): (r: Ring<T>)
      requires Valid() && p < |items|
    {
      Ring(items[..p] + items[p + 1..], if index > p then index - 1 else index)
    }

    /** Advances the walking index, stepping over the end marker. */
    function Next(): (r: Ring<T>)
      requires Valid() && items != []
    {
      Ring(items, if index == |items| then 1 else index + 1)
    }

    /** The item under the walking index. */
    function Current(): T
      requires Valid() && index > 0
    {
      items[index - 1]
    }
  }

  /** The first position whose value exceeds `v`, or the length when there is none. */
  function InsertPosition(values: seq<nat>, v: nat): (p: nat)
    ensures p <= |values|
    ensures forall i :: 0 <= i < p ==> values[i] <= v
    ensures p < |values| ==> values[p] > v
  {
    if values == [] || values[0] > v then 0 else 1 + InsertPosition(values[1..], v)
  }

  lemma InsertPositionUnique(values: seq<nat>, v: nat, p: nat)
    requires p <= |values|
    requires forall i :: 0 <= i < p ==> values[i] <= v
    requires p < |values| ==> values[p] > v
    ensures p == InsertPosition(values, v)
  {
  }

  predicate Ascending(values: seq<nat>) {
    forall i, j :: 0 <= i < j < |values| ==> values[i] <= values[j]
  }

  predicate Distinct<T(==)>(s: seq<T>) {
    forall i, j :: 0 <= i < j < |s| ==> s[i] != s[j]
  }

  /** The items the walking index delivers in `k` consecutive advances. */
  function Picks<T>(r: Ring<T>, k: nat): seq<T>
    requires r.Valid() && r.items != []
    decreases k
  {
    if k == 0 then [] else [r.Next().Current()] + Picks(r.Next(), k - 1)
  }

  function Advance<T>(r: Ring<T>, k: nat): (s: Ring<T>)
    requires r.Valid() && r.items != []
    ensures s.Valid() && s.items == r.items
    decreases k
  {
    if k == 0 then r else Advance(r.Next(), k - 1)
  }

  /** Inserting by value keeps an ascending list ascending. */
  lemma SplicedAscending(values: seq<nat>, v: nat, p: nat, all: seq<nat>)
    requires Ascending(values) && p == InsertPosition(values, v)
    requires |all| == |values| + 1
    requires forall i :: 0 <= i < p ==> all[i] == values[i]
    requires all[p] == v
    requires forall i :: p < i < |all| ==> all[i] == values[i - 1]
    ensures Ascending(all)
  {
    forall i | p <= i < |values|
      ensures values[i] > v
    {
      if p < i { assert values[p] <= values[i]; }
    }
    forall i, j | 0 <= i < j < |all|
      ensures all[i] <= all[j]
    {
      assert i < p ==> values[i] <= v;
    }
  }

  lemma CutAscending(values: seq<nat>, p: nat, all: seq<nat>)
    requires Ascending(values) && p < |values| && |all| == |values| - 1
    requires forall i :: 0 <= i < |all| ==> all[i] == values[if i < p then i else i + 1]
    ensures Ascending(all)
  {
  }

  /** In an ascending list a new item goes behind exactly the items of no greater value, so
      items of equal value stay first in, first out. */
  lemma InsertIsStable(values: seq<nat>, v: nat)
    requires Ascending(values)
    ensures var p := InsertPosition(values, v);
            && Ascending(values[..p] + [v] + values[p..])
            && (forall i :: 0 <= i < |values| ==> (values[i] <= v <==> i < p))
  {
    var p := InsertPosition(values, v);
    SplicedAscending(values, v, p, values[..p] + [v] + values[p..]);
    forall i | p <= i < |values|
      ensures values[i] > v
    {
      if p < i { assert values[p] <= values[i]; }
    }
  }

  /** One advance runs the head of the queue and sends it to the back. */
  lemma NextRotates<T>(r: Ring<T>)
    requires r.Valid() && r.items != []
    ensures r.Next().Valid() && r.Next().index > 0
    ensures r.Next().Current() == r.Queue()[0]
    ensures r.Next().Queue() == r.Queue()[1..] + [r.Queue()[0]]
  {
    var q := r.Queue();
    if r.index == |r.items| {
      assert q == r.items;
      assert r.Next().Queue() == r.items[1..] + [r.items[0]];
    } else {
      assert r.items[r.index..] == [r.items[r.index]] + r.items[r.index + 1..];
      assert q[1..] == r.items[r.index + 1..] + r.items[..r.index];
      assert r.items[..r.index + 1] == r.items[..r.index] + [r.items[r.index]];
    }
  }

  /** Over an unchanged list of n items, k <= n picks deliver the first k of the queue; so
      n consecutive picks run every item exactly once and leave the queue as it was. */
  lemma {:induction false} PicksAreFair<T>(r: Ring<T>, k: nat)
    requires r.Valid() && r.items != [] && k <= |r.items|
    ensures Picks(r, k) == r.Queue()[..k]
    ensures Advance(r, k).Queue() == r.Queue()[k..] + r.Queue()[..k]
    decreases k
  {
    if k == 0 {
      assert r.Queue()[..0] == [] && r.Queue()[0..] + r.Queue()[..0] == r.Queue();
    } else {
      PicksAreFair(r, k - 1);
      PicksStep(r, k - 1, Advance(r, k - 1), r.Queue());
    }
  }

  lemma PicksStep<T>(r: Ring<T>, k: nat, s: Ring<T>, q: seq<T>)
    requires r.Valid() && r.items != [] && k < |r.items| && |q| == |r.items|
    requires s == Advance(r, k) && s.Queue() == q[k..] + q[..k]
    requires Picks(r, k) == q[..k]
    ensures Picks(r, k + 1) == q[..k + 1]
    ensures Advance(r, k + 1).Queue() == q[k + 1..] + q[..k + 1]
  {
    PicksLast(r, k);
    NextRotates(s);
  }

  lemma PicksFirst<T>(r: Ring<T>, k: nat)
    requires r.Valid() && r.items != []
    ensures r.Next().Valid() && r.Next().items == r.items
    ensures Picks(r, k + 1) == [r.Next().Current()] + Picks(r.Next(), k)
    ensures Advance(r, k + 1) == Advance(r.Next(), k)
  {
  }

  lemma PicksNone<T>(r: Ring<T>)
    requires r.Valid() && r.items != []
    ensures Picks(r, 0) == [] && Advance(r, 0) == r
  {
  }

  lemma {:induction false} PicksLast<T>(r: Ring<T>, k: nat)
    requires r.Valid() && r.items != []
    ensures Picks(r, k + 1) == Picks(r, k) + [Advance(r, k).Next().Current()]
    ensures Advance(r, k + 1) == Advance(r, k).Next()
    decreases k
  {
    PicksFirst(r, k);
    if k == 0 {
      PicksNone(r);
      PicksNone(r.Next());
    } else {
      PicksLast(r.Next(), k - 1);
      PicksFirst(r, k - 1);
    }
    hide *;
  }

  /** An item added at the end waits behind every other item, except the one that was
      picked last, when there is one. */
  lemma InsertEndQueue<T>(r: Ring<T>, x: T)
    requires r.Valid()
    ensures r.InsertEnd(x).Valid()
    ensures r.index == 0 ==> r.InsertEnd(x).Queue() == r.Queue() + [x]
    ensures r.index > 0 ==>
              && r.Queue()[|r.items| - 1] == r.Current()
              && r.InsertEnd(x).Queue() == r.Queue()[..|r.items| - 1] + [x, r.Current()]
  {
    var s := r.InsertEnd(x);
    if r.index > 0 {
      var p := r.index - 1;
      assert s.items[r.index + 1..] == r.items[r.index..];
      assert s.items[..r.index + 1] == r.items[..p] + [x, r.items[p]];
      assert r.items[..r.index] == r.items[..p] + [r.items[p]];
      assert r.Queue()[..|r.items| - 1] == r.items[r.index..] + r.items[..p];
    } else {
      assert s.items == r.items + [x];
    }
  }

  /** On a list that is never walked, adding at the end appends. */
  lemma InsertEndAppends<T>(r: Ring<T>, x: T)
    requires r.Valid() && r.index == 0
    ensures r.InsertEnd(x) == Ring(r.items + [x], 0)
  {
    assert r.items[..|r.items|] == r.items;
  }

  /** Removing an item leaves the others in the order they had. */
  lemma RemoveQueue<T>(r: Ring<T>, p: nat)
    requires r.Valid() && p < |r.items|
    ensures r.RemoveAt(p).Valid()
    ensures var q := r.Queue();
            var k := if p >= r.index then p - r.index else |r.items| - r.index + p;
            && q[k] == r.items[p]
            && r.RemoveAt(p).Queue() == q[..k] + q[k + 1..]
  {
    if p >= r.index {
    } else {
      RemoveAhead(r, p);
    }
  }

  lemma RemoveAhead<T>(r: Ring<T>, p: nat)
    requires r.Valid() && p < |r.items| && p < r.index
    ensures var k := |r.items| - r.index + p;
            && r.RemoveAt(p).Valid() && r.Queue()[k] == r.items[p]
            && r.RemoveAt(p).Queue() == r.Queue()[..k] + r.Queue()[k + 1..]
  {
    var q, s, k := r.Queue(), r.RemoveAt(p), |r.items| - r.index + p;
    assert s.items[s.index..] == r.items[r.index..];
    assert s.items[..s.index] == r.items[..p] + r.items[p + 1..r.index];
    assert q[..k] == r.items[r.index..] + r.items[..p];
    assert q[k + 1..] == r.items[p + 1..r.index];
  }
}
