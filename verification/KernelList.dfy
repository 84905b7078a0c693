/**
 The kernel's intrusive list: a circular doubly linked ring through an end marker, changed
 in place. Every method is tied to the same operation on the abstract `Ring`.
 */
module KernelLists {
  import opened Rings

  /** A list item. The end marker of a list is an item whose value is the maximal delay. */
  class ListItem {
    const owner: nat         // the control block it is part of
    var value: nat
    var next: ListItem?
    var previous: ListItem?
    var container: List?

    /** vListInitialiseItem: the item is recorded as being on no list. */
    constructor (value: nat, owner: nat)
      ensures this.value == value && this.owner == owner && container == null
    {
      this.owner := owner;
      this.value, next, previous, container := value, null, null, null;
    }
  }

  function Succ(i: nat, n: nat): nat {
    if i + 1 == n then 0 else i + 1
  }

  function Pred(i: nat, n: nat): int {
    if i == 0 then n - 1 else i - 1
  }

  /** The next and previous fields of `ns` are inverse and run once around `ns`. */
  ghost predicate Linked(ns: seq<ListItem>)
    reads ns`next, ns`previous
  {
    && Distinct(ns)
    && (forall i {:trigger ns[i].next} :: 0 <= i < |ns| ==> ns[i].next == ns[Succ(i, |ns|)])
    && (forall i {:trigger ns[i].previous} :: 0 <= i < |ns| ==> ns[i].previous == ns[Pred(i, |ns|)])
  }

  lemma CountDown(n: nat)
    requires n > 0
    ensures (n % COUNT_MODULUS - 1) % COUNT_MODULUS == (n - 1) % COUNT_MODULUS
  {
  }

  /** `ms` is `ns` with `x` added behind position `p`. */
  ghost predicate Spliced<T>(ns: seq<T>, p: nat, x: T, ms: seq<T>) {
    && p < |ns| && |ms| == |ns| + 1
    && (forall i :: 0 <= i <= p ==> ms[i] == ns[i])
    && ms[p + 1] == x
    && (forall i :: p + 1 < i < |ms| ==> ms[i] == ns[i - 1])
  }

  lemma Splice<T>(ns: seq<T>, p: nat, x: T) returns (ms: seq<T>)
    requires p < |ns|
    ensures Spliced(ns, p, x, ms)
    ensures ms[1..] == ns[1..][..p] + [x] + ns[1..][p..]
    ensures forall n :: n in ms ==> n in ns || n == x
  {
    ms := ns[..p + 1] + [x] + ns[p + 1..];
  }

  /** `x` has been linked in behind node `p` of what was the ring `ns`. */
  lemma SpliceLinks(ns: seq<ListItem>, p: nat, x: ListItem, ms: seq<ListItem>)
    requires Spliced(ns, p, x, ms)
    requires Distinct(ns) && x !in ns
    requires forall i {:trigger ns[i].next} :: 0 <= i < |ns| && i != p ==> ns[i].next == ns[Succ(i, |ns|)]
    requires forall i {:trigger ns[i].previous} :: 0 <= i < |ns| && i != Succ(p, |ns|) ==>
               ns[i].previous == ns[Pred(i, |ns|)]
    requires ns[p].next == x && x.previous == ns[p]
    requires x.next == ns[Succ(p, |ns|)] && ns[Succ(p, |ns|)].previous == x
    ensures Linked(ms)
  {
    SplicedDistinct(ns, p, x, ms);
    forall i | 0 <= i < |ms|
      ensures ms[i].next == ms[Succ(i, |ms|)] && ms[i].previous == ms[Pred(i, |ms|)]
    {
      if i > p + 1 {
        assert ms[i] == ns[i - 1];
      }
    }
  }

  lemma SplicedDistinct(ns: seq<ListItem>, p: nat, x: ListItem, ms: seq<ListItem>)
    requires Spliced(ns, p, x, ms) && Distinct(ns) && x !in ns
    ensures Distinct(ms)
  {
    forall i, j | 0 <= i < j < |ms|
      ensures ms[i] != ms[j]
    {
      var a, b := if i <= p then i else i - 1, if j <= p then j else j - 1;
      assert i == p + 1 || ms[i] == ns[a];
      assert j == p + 1 || ms[j] == ns[b];
    }
  }

  /** `ms` is `ns` without position `p`. */
  ghost predicate Cut<T>(ns: seq<T>, p: nat, ms: seq<T>) {
    && p < |ns| && |ms| == |ns| - 1
    && (forall i :: 0 <= i < p ==> ms[i] == ns[i])
    && (forall i :: p <= i < |ms| ==> ms[i] == ns[i + 1])
  }

  lemma CutOut<T>(ns: seq<T>, p: nat) returns (ms: seq<T>)
    requires 1 <= p < |ns|
    ensures Cut(ns, p, ms)
    ensures ms[1..] == ns[1..][..p - 1] + ns[1..][p..]
    ensures forall n :: n in ms ==> n in ns
  {
    ms := ns[..p] + ns[p + 1..];
  }

  /** The index steps back if it stood on the node. */
  lemma CutRing(ns: seq<ListItem>, ms: seq<ListItem>, p: nat, stood: nat, at: nat)
    requires 1 <= p < |ns| && Cut(ns, p, ms) && stood < |ns| && at == if stood >= p then stood - 1 else stood
    requires ms[1..] == ns[1..][..p - 1] + ns[1..][p..]
    ensures at < |ms| && ms[0] == ns[0] && ms[at] == if stood == p then ns[p - 1] else ns[stood]
    ensures Ring(ms[1..], at) == Ring(ns[1..], stood).RemoveAt(p - 1)
  {
  }

  /** The neighbours of node `p` of what was the ring `ns` have been linked to each other. */
  lemma CutLinks(ns: seq<ListItem>, p: nat, ms: seq<ListItem>)
    requires 1 <= p < |ns| && Cut(ns, p, ms)
    requires Distinct(ns)
    requires forall i {:trigger ns[i].next} :: 0 <= i < |ns| && i != p && i != p - 1 ==> ns[i].next == ns[Succ(i, |ns|)]
    requires forall i {:trigger ns[i].previous} :: 0 <= i < |ns| && i != p && i != Succ(p, |ns|) ==>
               ns[i].previous == ns[Pred(i, |ns|)]
    requires ns[p - 1].next == ns[Succ(p, |ns|)] && ns[Succ(p, |ns|)].previous == ns[p - 1]
    ensures Linked(ms)
    ensures ns[p] !in ms
  {
    forall i | 0 <= i < |ms|
      ensures ms[i].next == ms[Succ(i, |ms|)] && ms[i].previous == ms[Pred(i, |ms|)]
    {
      var a := if i < p then i else i + 1;
      assert ms[i] == ns[a];
    }
  }

  class List {
    const maxDelay: nat  // portMAX_DELAY
    const end: ListItem
    var index: ListItem
    var count: nat
    ghost var nodes: seq<ListItem>  // the ring, from the end marker on
    ghost var at: nat               // where in the ring the index stands

    ghost predicate Valid()
      reads `index, `count, `nodes, `at
      reads nodes`next, nodes`previous, nodes`container, nodes`value, end`container, end`value
    {
      && Linked(nodes)
      && at < |nodes| && index == nodes[at]
      && nodes[0] == end
      && count == (|nodes| - 1) % COUNT_MODULUS
      && end.value == maxDelay && end.container == null
      && Members(nodes)
    }

    /** Every node but the end marker records this list as its container. */
    ghost predicate Members(ns: seq<ListItem>)
      reads ns`container, ns`value
    {
      forall n :: n in ns && n != end ==> n.container == this && n.value <= maxDelay
    }

    /** The ring this list stands for. */
    ghost function Model(): (r: Ring<ListItem>)
      reads `index, `count, `nodes, `at
      reads nodes`next, nodes`previous, nodes`container, nodes`value, end`container, end`value
      requires Valid()
      ensures r.Valid() && |r.items| == |nodes| - 1
    {
      Ring(nodes[1..], at)
    }

    ghost function Values(): (v: seq<nat>)
      reads this, nodes, end
      requires Valid()
      ensures |v| == |nodes| - 1
      ensures forall i :: 0 <= i < |v| ==> v[i] == nodes[i + 1].value
    {
      seq(|nodes| - 1, i requires 0 <= i < |nodes| - 1 reads this, nodes => nodes[i + 1].value)
    }

    /** vListInitialise */
    constructor (maxDelay: nat)
      ensures Valid() && fresh(end) && nodes == [end]
      ensures Model() == Ring([], 0)
      ensures this.maxDelay == maxDelay
    {
      this.maxDelay := maxDelay;
      var marker := new ListItem(maxDelay, 0);
      marker.next, marker.previous := marker, marker;
      end, index, count := marker, marker, 0;
      nodes, at := [marker], 0;
    }

    /** listLIST_IS_EMPTY: the counter is a machine word, so a list whose length is a
        multiple of the modulus also looks empty. */
    method IsEmpty() returns (empty: bool)
      requires Valid()
      ensures empty <==> |Model().items| % COUNT_MODULUS == 0
    {
      empty := count == 0;
    }

    /** The four pointer writes: `x` comes to stand behind `before`, node number `p`. */
    method Link(x: ListItem, before: ListItem, ghost p: nat)
      requires Linked(nodes) && p < |nodes| && nodes[p] == before && x !in nodes && at < |nodes|
      modifies this`nodes, this`at, nodes`next, nodes`previous, x`next, x`previous
      ensures Linked(nodes) && |nodes| == old(|nodes|) + 1 && nodes[0] == old(nodes[0])
      ensures at < |nodes| && nodes[at] == old(nodes[at])
      ensures Ring(nodes[1..], at) == old(Ring(nodes[1..], at)).InsertAt(p, x)
      ensures Spliced(old(nodes), p, x, nodes)
      ensures forall n :: n in nodes ==> n in old(nodes) || n == x
    {
      ghost var was := nodes;
      nodes := Splice(was, p, x);
      at := if at > p then at + 1 else at;
      x.next := before.next;
      x.next.previous := x;
      x.previous := before;
      before.next := x;
      SpliceLinks(was, p, x, nodes);
    }

    /** What vListInsert and vListInsertEnd do once they know where `x` goes. */
    method Add(x: ListItem, before: ListItem, ghost p: nat)
      requires Valid() && x.container == null && x != end && x.value <= maxDelay
      requires p < |nodes| && nodes[p] == before
      modifies `count, `nodes, `at, nodes`next, nodes`previous, x`next, x`previous, x`container
      ensures Valid() && Model() == old(Model()).InsertAt(p, x)
      ensures Spliced(old(nodes), p, x, nodes)
    {
      hide Linked, Spliced, Ring.InsertAt;
      assert ((|nodes| - 1) % COUNT_MODULUS + 1) % COUNT_MODULUS == ((|nodes| - 1) + 1) % COUNT_MODULUS;
      Link(x, before, p);
      x.container := this;
      count := (count + 1) % COUNT_MODULUS;
      assert Members(nodes);
    }

    /** vListInsertEnd */
    method InsertEnd(x: ListItem)
      requires Valid() && x.container == null && x != end && x.value <= maxDelay
      modifies `count, `nodes, `at, nodes`next, nodes`previous, x`next, x`previous, x`container
      ensures Valid() && Model() == old(Model()).InsertEnd(x)
    {
      Add(x, index.previous, if at == 0 then |nodes| - 1 else at - 1);
    }

    /** The node to insert behind. The end marker's value stops the search. */
    method FindPlace(value: nat) returns (cursor: ListItem, ghost p: nat)
      requires Valid() && value <= maxDelay
      ensures p == InsertPosition(Values(), value) && p < |nodes|
      ensures cursor == nodes[InsertPosition(Values(), value)]
    {
      p := 0;
      if value == maxDelay {
        cursor := end.previous;
        p := |nodes| - 1;
      } else {
        cursor := end;
        while cursor.next.value <= value
          invariant p < |nodes| && cursor == nodes[p]
          invariant forall i :: 1 <= i <= p ==> nodes[i].value <= value
          decreases |nodes| - p
        {
          assert cursor.next == nodes[Succ(p, |nodes|)];
          cursor := cursor.next;
          p := p + 1;
        }
      }
      InsertPositionUnique(Values(), value, p);
    }

    /** vListInsert */
    method Insert(x: ListItem)
      requires Valid() && x.container == null && x != end && x.value <= maxDelay
      modifies `count, `nodes, `at, nodes`next, nodes`previous, x`next, x`previous, x`container
      ensures Valid() && Model() == old(Model()).InsertAt(old(InsertPosition(Values(), x.value)), x)
      ensures old(Ascending(Values())) ==> Ascending(Values())
    {
      var cursor, p := FindPlace(x.value);
      ghost var was, values := nodes, Values();
      Add(x, cursor, p);
      if Ascending(values) {
        InsertedAscending(was, values, p, x);
      }
    }

    lemma InsertedAscending(was: seq<ListItem>, values: seq<nat>, p: nat, x: ListItem)
      requires Valid() && Spliced(was, p, x, nodes)
      requires |values| == |was| - 1 && forall i :: 0 <= i < |values| ==> values[i] == was[i + 1].value
      requires Ascending(values) && p == InsertPosition(values, x.value)
      ensures Ascending(Values())
    {
      SplicedAscending(values, x.value, p, Values());
    }

    /** The two pointer writes of uxListRemove. */
    method Unlink(x: ListItem, ghost p: nat)
      requires Linked(nodes) && 1 <= p < |nodes| && nodes[p] == x && at < |nodes|
      modifies this`nodes, this`at, nodes`next, nodes`previous
      ensures Linked(nodes) && |nodes| == old(|nodes|) - 1 && nodes[0] == old(nodes[0])
      ensures at < |nodes|
      ensures nodes[at] == if old(nodes[at]) == x then x.previous else old(nodes[at])
      ensures x.previous == old(x.previous)
      ensures Ring(nodes[1..], at) == old(Ring(nodes[1..], at)).RemoveAt(p - 1)
      ensures x !in nodes && forall n :: n in nodes ==> n in old(nodes)
    {
      ghost var was, stood := nodes, at;
      nodes := CutOut(was, p);
      at := if at >= p then at - 1 else at;
      CutRing(was, nodes, p, stood, at);
      hide Cut, Ring.RemoveAt;
      x.next.previous := x.previous;
      x.previous.next := x.next;
      CutLinks(was, p, nodes);
    }

    /** uxListRemove: the item knows the list it is in. */
    static method Remove(x: ListItem, ghost p: nat) returns (left: nat)
      requires x.container != null && x.container.Valid()
      requires 1 <= p < |x.container.nodes| && x.container.nodes[p] == x
      modifies x.container`index, x.container`count, x.container`nodes, x.container`at, x.container.nodes`next,
               x.container.nodes`previous, x`container
      ensures var list := old(x.container);
              && x.container == null
              && list.Valid() && list.Model() == old(x.container.Model()).RemoveAt(p - 1)
              && left == |list.Model().items| % COUNT_MODULUS
    {
      hide Linked, Ring.RemoveAt;
      var list := x.container;
      CountDown(|list.nodes| - 1);
      list.Unlink(x, p);
      if list.index == x {
        list.index := x.previous;
      }
      x.container := null;
      list.count := (list.count - 1) % COUNT_MODULUS;
      assert list.Members(list.nodes);
      left := list.count;
    }

    /** listGET_OWNER_OF_NEXT_ENTRY: advances the index, stepping over the end marker. */
    method NextEntry() returns (x: ListItem)
      requires Valid() && Model().items != []
      modifies this`index, this`at
      ensures Valid() && Model() == old(Model()).Next()
      ensures x == Model().Current()
    {
      index := index.next;
      at := Succ(at, |nodes|);
      if index == end {
        index := index.next;
        at := 1;
      }
      x := index;
    }

    /** listGET_OWNER_OF_HEAD_ENTRY */
    method HeadEntry() returns (x: ListItem)
      requires Valid() && Model().items != []
      ensures x == Model().items[0]
    {
      x := end.next;
    }
  }

  /** Two well-formed lists share no node: the back pointers tell them apart. */
  lemma ListsAreApart(a: List, b: List)
    requires a.Valid() && b.Valid() && a != b && a.end != b.end
    ensures forall i, j :: 0 <= i < |a.nodes| && 0 <= j < |b.nodes| ==> a.nodes[i] != b.nodes[j]
  {
    forall i, j | 0 <= i < |a.nodes| && 0 <= j < |b.nodes|
      ensures a.nodes[i] != b.nodes[j]
    {
      assert a.nodes[i] == a.end || a.nodes[i].container == a;
      assert b.nodes[j] == b.end || b.nodes[j].container == b;
    }
  }
}
