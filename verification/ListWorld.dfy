/**
 All kernel lists at once, each standing for its ring: which items are on which list, the
 back pointer of each item and its value. One item is on at most one list.
 */
module ListWorlds {
  import opened Rings

  type Id = nat

  /** The two list items of a co-routine control block. */
  datatype Item = Generic(owner: Id) | Event(owner: Id)

  datatype ListId = Ready(priority: nat) | Delayed(which: bool) | Pending | Waiting(queue: nat)

  datatype World = World(lists: map<ListId, Ring<Item>>, container: map<Item, ListId>, value: map<Item, nat>) {
    /** The value of an item; of one never set, nothing is known but that it is a number. */
    function Value(x: Item): nat {
      if x in value then value[x] else 0
    }

    function Values(s: seq<Item>): (v: seq<nat>)
      ensures |v| == |s| && forall i :: 0 <= i < |s| ==> v[i] == Value(s[i])
    {
      seq(|s|, i requires 0 <= i < |s| => Value(s[i]))
    }

    predicate On(x: Item, l: ListId) {
      x in container && container[x] == l
    }

    /** Back pointers and list contents agree, and every list is a ring of distinct items. */
    ghost predicate Valid() {
      && (forall l :: l in lists ==> lists[l].Valid() && Distinct(lists[l].items))
      && (forall l, x :: l in lists ==> (x in lists[l].items <==> On(x, l)))
      && (forall x :: x in container ==> container[x] in lists)
    }

    /** The list is in ascending order and its index has never left the end marker. */
    ghost predicate Sorted(l: ListId)
      requires l in lists
    {
      lists[l].index == 0 && Ascending(Values(lists[l].items))
    }

    /** listLIST_IS_EMPTY */
    predicate Empty(l: ListId)
      requires Has(l)
    {
      |lists[l].items| % COUNT_MODULUS == 0
    }

    function SetValue(x: Item, v: nat): World {
      this.(value := value[x := v])
    }

    /** The list exists and is a ring. */
    predicate Has(l: ListId) {
      l in lists && lists[l].Valid()
    }

    predicate Holds(x: Item) {
      x in container && Has(container[x]) && x in lists[container[x]].items
    }

    function InsertEnd(l: ListId, x: Item): World
      requires Has(l)
    {
      this.(lists := lists[l := lists[l].InsertEnd(x)], container := container[x := l])
    }

    function Insert(l: ListId, x: Item): World
      requires Has(l)
    {
      var p := InsertPosition(Values(lists[l].items), Value(x));
      this.(lists := lists[l := lists[l].InsertAt(p, x)], container := container[x := l])
    }

    function Remove(x: Item): World
      requires Holds(x)
    {
      var l := container[x];
      this.(lists := lists[l := lists[l].RemoveAt(IndexOf(lists[l].items, x))], container := container - {x})
    }
  }

  function IndexOf<T(==)>(s: seq<T>, x: T): (i: nat)
    requires x in s
    ensures i < |s| && s[i] == x
  {
    if s[0] == x then 0 else 1 + IndexOf(s[1..], x)
  }

  /** What is on the other lists, and where the other items are, does not change. */
  ghost predicate Elsewhere(w: World, v: World, l: ListId, x: Item) {
    && v.lists.Keys == w.lists.Keys
    && (forall y :: y != x ==> (y in v.container <==> y in w.container))
    && (forall m :: m in w.lists && m != l ==> v.lists[m] == w.lists[m])
    && (forall y :: y in w.container && y != x ==> v.container[y] == w.container[y])
    && v.value == w.value
  }

  lemma InsertAtKeeps(w: World, l: ListId, x: Item, p: nat, v: World)
    requires w.Valid() && l in w.lists && x !in w.container && p <= |w.lists[l].items|
    requires v == w.(lists := w.lists[l := w.lists[l].InsertAt(p, x)], container := w.container[x := l])
    ensures v.Valid() && v.On(x, l) && Elsewhere(w, v, l, x)
  {
    hide Distinct;
    var s := w.lists[l].items;
    assert x !in s;
    WithItem(s, p, x);
    forall m, y | m in v.lists
      ensures y in v.lists[m].items <==> v.On(y, m)
    {
      if m == l {
        assert y in v.lists[l].items <==> y in s || y == x;
      }
    }
  }

  lemma WithItem<T>(s: seq<T>, p: nat, x: T)
    requires Distinct(s) && p <= |s| && x !in s
    ensures var t := s[..p] + [x] + s[p..];
            && Distinct(t)
            && (forall y :: y in t <==> y in s || y == x)
  {
    var t := s[..p] + [x] + s[p..];
    assert t[p] == x;
    forall y | y in s
      ensures y in t
    {
      var k :| 0 <= k < |s| && s[k] == y;
      assert y == t[if k < p then k else k + 1];
    }
  }

  lemma InsertEndKeeps(w: World, l: ListId, x: Item)
    requires w.Valid() && l in w.lists && x !in w.container
    ensures var v := w.InsertEnd(l, x);
            && v.Valid() && v.On(x, l) && Elsewhere(w, v, l, x)
            && v.lists[l] == w.lists[l].InsertEnd(x)
  {
    var r := w.lists[l];
    InsertAtKeeps(w, l, x, if r.index == 0 then |r.items| else r.index - 1, w.InsertEnd(l, x));
  }

  lemma InsertKeeps(w: World, l: ListId, x: Item)
    requires w.Valid() && l in w.lists && x !in w.container && w.Sorted(l)
    ensures var v := w.Insert(l, x);
            && v.Valid() && v.On(x, l) && v.Sorted(l) && Elsewhere(w, v, l, x)
  {
    hide World.Valid, Elsewhere, World.Value;
    ListIsThere(w, l);
    var s := w.lists[l].items;
    var v := w.Insert(l, x);
    var p := InsertPosition(w.Values(s), w.Value(x));
    InsertAtKeeps(w, l, x, p, v);
    SameValues(w, v);
    SplicedAscending(w.Values(s), w.Value(x), p, v.Values(v.lists[l].items));
  }

  lemma ListIsThere(w: World, l: ListId)
    requires w.Valid() && l in w.lists
    ensures w.Has(l)
  {
  }

  lemma SameValues(w: World, v: World)
    requires v.value == w.value
    ensures forall x :: v.Value(x) == w.Value(x)
  {
  }

  lemma RemoveAtKeeps(w: World, l: ListId, x: Item, p: nat, v: World)
    requires w.Valid() && w.On(x, l) && l in w.lists && p < |w.lists[l].items| && w.lists[l].items[p] == x
    requires v == w.(lists := w.lists[l := w.lists[l].RemoveAt(p)], container := w.container - {x})
    ensures v.Valid() && x !in v.container && Elsewhere(w, v, l, x)
  {
    hide Distinct;
    var s := w.lists[l].items;
    WithoutItem(s, p);
    forall m, y | m in v.lists
      ensures y in v.lists[m].items <==> v.On(y, m)
    {
      if m == l {
        assert y in v.lists[l].items <==> y in s && y != x;
      }
    }
  }

  lemma RemoveKeeps(w: World, x: Item)
    requires w.Valid() && x in w.container
    ensures var l := w.container[x];
            var v := w.Remove(x);
            && v.Valid() && x !in v.container && Elsewhere(w, v, l, x)
            && v.lists[l] == w.lists[l].RemoveAt(IndexOf(w.lists[l].items, x))
  {
    hide Elsewhere, Distinct;
    var l := w.container[x];
    assert w.On(x, l);
    RemoveAtKeeps(w, l, x, IndexOf(w.lists[l].items, x), w.Remove(x));
  }

  lemma WithoutItem<T>(s: seq<T>, p: nat)
    requires Distinct(s) && p < |s|
    ensures var t := s[..p] + s[p + 1..];
            && Distinct(t)
            && (forall y :: y in t <==> y in s && y != s[p])
  {
    var t := s[..p] + s[p + 1..];
    forall y | y in s && y != s[p]
      ensures y in t
    {
      var k :| 0 <= k < |s| && s[k] == y;
      assert y == t[if k < p then k else k - 1];
    }
  }

  lemma RemoveKeepsSorted(w: World, x: Item)
    requires w.Valid() && x in w.container && w.Sorted(w.container[x])
    requires x in w.lists[w.container[x]].items
    ensures w.Remove(x).Sorted(w.container[x])
  {
    var s := w.lists[w.container[x]].items;
    var p := IndexOf(s, x);
    var t := s[..p] + s[p + 1..];
    var v := w.Remove(x);
    hide Ascending, World.Value, World.Valid;
    CutAscending(w.Values(s), p, v.Values(t));
  }

  lemma SameListSorted(w: World, u: World, l: ListId)
    requires l in w.lists && l in u.lists && u.lists[l] == w.lists[l] && u.value == w.value
    requires w.Sorted(l)
    ensures u.Sorted(l)
  {
    assert u.Values(u.lists[l].items) == w.Values(w.lists[l].items);
  }

  /** Setting the value of an item that is on no list leaves every list in order. */
  lemma NewItemKeepsSorted(w: World, v: World, l: ListId, x: Item)
    requires w.Valid() && l in w.lists && w.Sorted(l) && x !in w.container
    requires v.lists == w.lists && forall y :: y != x ==> v.Value(y) == w.Value(y)
    ensures v.Sorted(l)
  {
    var items := w.lists[l].items;
    forall i | 0 <= i < |items|
      ensures v.Value(items[i]) == w.Value(items[i])
    {
      assert items[i] in items && w.On(items[i], l);
    }
    assert v.Values(items) == w.Values(items);
  }

  /** The counter has one byte: a list of 256 items looks empty. */
  lemma LooksEmpty(w: World, l: ListId)
    requires w.Has(l)
    ensures |w.lists[l].items| < 256 ==> (w.Empty(l) <==> w.lists[l].items == [])
    ensures |w.lists[l].items| == 256 ==> w.Empty(l)
  {
  }
}
