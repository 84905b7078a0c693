/**
 All kernel lists in one heap. Whatever the scheduler does to a `World` of rings is done here to
 linked nodes, and the heap goes on representing the world.
 */
module KernelHeaps {
  import opened Rings
  import opened KernelLists
  import opened ListWorlds

  /** What a list operation is about. */
  datatype Focus = Focus(world: World, list: ListId, item: Item)

  class KernelHeap {
    const maxDelay: nat
    var lists: map<ListId, List>
    var items: map<Item, ListItem>  // the node of each item
    ghost var Repr: set<object>

    ghost predicate Separate()
      reads this
    {
      this !in Repr && Apart(lists, items, Repr)
    }

    /** No two lists, and no two items, are the same; an item is no end marker. */
    ghost predicate Apart(lists: map<ListId, List>, items: map<Item, ListItem>, repr: set<object>) {
      && (forall l :: l in lists ==> lists[l] in repr && lists[l].end in repr && lists[l].maxDelay == maxDelay)
      && (forall x :: x in items ==> items[x] in repr)
      && (forall l, m :: l in lists && m in lists && l != m ==> lists[l] != lists[m] && lists[l].end != lists[m].end)
      && (forall x, y :: x in items && y in items && x != y ==> items[x] != items[y])
      && (forall x, l :: x in items && l in lists ==> items[x] != lists[l].end)
    }

    lemma ApartWith(was: map<Item, ListItem>, repr: set<object>, x: Item, n: ListItem)
      requires Apart(lists, was, repr) && n !in repr && x !in was
      ensures Apart(lists, was[x := n], repr + {n})
    {
    }

    /** The items of ring `r` are known. */
    ghost predicate Known(r: Ring<Item>)
      reads this
    {
      forall x :: x in r.items ==> x in items
    }

    /** List `l` is its ring, item by item. */
    ghost predicate Stands(l: ListId, w: World)
      requires l in lists && l in w.lists
      reads this, Repr
    {
      && lists[l] in Repr && lists[l].end in Repr && (forall n :: n in lists[l].nodes ==> n in Repr)
      && Known(w.lists[l]) && lists[l].Valid() && lists[l].Model() == Image(items, w.lists[l])
    }

    /** The nodes of a list that is a ring of known items are in the heap. */
    lemma NodesOwned(l: ListId, w: World)
      requires Separate() && l in lists && l in w.lists
      requires Known(w.lists[l]) && lists[l].Valid() && lists[l].Model() == Image(items, w.lists[l])
      ensures Stands(l, w)
    {
      forall n | n in lists[l].nodes
        ensures n in Repr
      {
        var i :| 0 <= i < |lists[l].nodes| && lists[l].nodes[i] == n;
        if i > 0 {
          assert lists[l].nodes[i] == lists[l].Model().items[i - 1];
        }
      }
    }

    /** Item `x` has its value, and its back pointer leads to its list. */
    ghost predicate ItemStands(x: Item, w: World)
      requires x in items
      reads this, Repr
    {
      && items[x] in Repr && items[x].owner == x.owner && items[x].value == w.Value(x) <= maxDelay
      && if x in w.container then w.container[x] in lists && items[x].container == lists[w.container[x]]
         else items[x].container == null
    }

    ghost predicate Represents(w: World)
      reads this, Repr
    {
      && Separate() && w.Valid() && lists.Keys == w.lists.Keys
      && (forall l :: l in lists ==> Stands(l, w))
      && (forall x :: x in items ==> ItemStands(x, w))
      && (forall x :: x in w.container ==> x in items)
    }

    /** What the scheduler needs to know of a heap that stands for `w`. */
    lemma Sound(w: World)
      requires Represents(w)
      ensures this !in Repr && w.Valid() && lists.Keys == w.lists.Keys
      ensures forall x :: x in w.container ==> x in items
      ensures forall x :: x in items ==> items[x] in Repr && items[x].owner == x.owner && items[x].value == w.Value(x)
      ensures forall x :: x in items ==> (items[x].container == null <==> x !in w.container)
    {
      forall x | x in items
        ensures items[x] in Repr && items[x].owner == x.owner && items[x].value == w.Value(x)
        ensures items[x].container == null <==> x !in w.container
      {
        assert ItemStands(x, w);
      }
    }

    /** The lists other than `l` and the items other than `x` are as in `w`. */
    ghost predicate OthersStand(w: World, l: ListId, x: Item)
      reads *
    {
      && lists.Keys == w.lists.Keys
      && (forall m :: m in lists && m != l ==> Stands(m, w))
      && (forall y :: y in items && y != x ==> ItemStands(y, w))
      && (forall y :: y in w.container ==> y in items)
    }

    /** What separates list `l` and the item `n` from the other lists. */
    ghost predicate Surrounded(l: ListId, n: ListItem)
      requires l in lists
      reads *
    {
      && lists[l].Valid() && lists[l] in Repr && n in Repr && n != lists[l].end && lists[l].maxDelay == maxDelay
      && (forall i :: 0 <= i < |lists[l].nodes| ==> lists[l].nodes[i] in Repr)
      && (forall m :: m in lists && m != l ==>
            lists[m].Valid() && lists[m] in Repr && lists[m] != lists[l] &&
            |lists[m].nodes| > 0 && lists[m].nodes[0] == lists[m].end)
      && (forall m, i :: m in lists && m != l && 0 <= i < |lists[m].nodes| ==> lists[m].nodes[i] != n)
      && (forall m, i, j :: m in lists && m != l && 0 <= i < |lists[m].nodes| && 0 <= j < |lists[l].nodes| ==>
            lists[m].nodes[i] != lists[l].nodes[j])
    }

    lemma IsSurrounded(w: World, l: ListId, x: Item)
      requires Represents(w) && l in lists && x in items && (x in w.container ==> w.container[x] == l)
      ensures Separate() && Surrounded(l, items[x])
    {
      assert Stands(l, w) && ItemStands(x, w);
      forall i | 0 <= i < |lists[l].nodes|
        ensures lists[l].nodes[i] in Repr
      {
        if i > 0 {
          assert lists[l].nodes[i] == lists[l].Model().items[i - 1];
        }
      }
      forall m | m in lists && m != l
        ensures lists[m].Valid()
        ensures forall i :: 0 <= i < |lists[m].nodes| ==> lists[m].nodes[i] != items[x]
        ensures forall i, j :: 0 <= i < |lists[m].nodes| && 0 <= j < |lists[l].nodes| ==>
                  lists[m].nodes[i] != lists[l].nodes[j]
      {
        assert Stands(m, w);
        ListsAreApart(lists[m], lists[l]);
      }
    }

    /** A change to one list, and to the node of one item, leaves the others standing. */
    twostate lemma OthersKept(f: Focus)
      requires unchanged(this) && f.list in lists && f.item in items
      requires old(Separate() && Surrounded(f.list, items[f.item]) && OthersStand(f.world, f.list, f.item))
      requires forall m :: m in lists && m != f.list ==> unchanged(lists[m])
      requires forall m, i :: m in lists && m != f.list && 0 <= i < |lists[m].nodes| ==> unchanged(lists[m].nodes[i])
      requires forall y :: y in items && y != f.item ==>
                 items[y].value == old(items[y].value) && items[y].container == old(items[y].container)
      ensures OthersStand(f.world, f.list, f.item)
    {
      hide Separate, List.Valid, Stands, ItemStands;
      forall m | m in lists && m != f.list
        ensures Stands(m, f.world)
      {
        assert old(Stands(m, f.world));
        ListKept(Focus(f.world, m, f.item));
      }
      forall y | y in items && y != f.item
        ensures ItemStands(y, f.world)
      {
        assert old(ItemStands(y, f.world));
        ItemKept(Focus(f.world, f.list, y));
      }
    }

    twostate lemma ListKept(f: Focus)
      requires unchanged(this) && f.list in lists && f.list in f.world.lists
      requires old(Stands(f.list, f.world)) && unchanged(lists[f.list])
      requires forall i :: 0 <= i < |lists[f.list].nodes| ==> unchanged(lists[f.list].nodes[i])
      ensures Stands(f.list, f.world)
    {
      hide Linked, Image;
    }

    twostate lemma ItemKept(f: Focus)
      requires unchanged(this) && f.item in items && old(ItemStands(f.item, f.world))
      requires items[f.item].value == old(items[f.item].value)
               && items[f.item].container == old(items[f.item].container)
      ensures ItemStands(f.item, f.world)
    {
      hide World.Value;
    }

    method Cut(n: ListItem, ghost w: World, ghost l: ListId, ghost x: Item, ghost p: nat)
      requires l in lists && x in items && items[x] == n && Separate() && Surrounded(l, items[x])
               && OthersStand(w, l, x) && items[x].container == lists[l]
      requires 1 <= p < |lists[l].nodes| && lists[l].nodes[p] == items[x]
      modifies Repr
      ensures lists[l].Valid() && lists[l].Model() == old(lists[l].Model()).RemoveAt(p - 1)
      ensures items[x].container == null && items[x].value == old(items[x].value)
      ensures OthersStand(w, l, x)
    {
      hide List.Valid, List.Model, Linked, Ring.RemoveAt, OthersStand;
      var left := List.Remove(n, p);
      OthersKept(Focus(w, l, x));
    }

    method Append(l: ListId, n: ListItem, ghost w: World, ghost x: Item)
      requires l in lists && x in items && items[x] == n && Separate() && Surrounded(l, items[x])
               && OthersStand(w, l, x) && items[x].container == null && items[x].value <= maxDelay
      modifies Repr
      ensures lists[l].Valid() && lists[l].Model() == old(lists[l].Model()).InsertEnd(items[x])
      ensures items[x].value == old(items[x].value)
      ensures OthersStand(w, l, x)
    {
      hide List.Valid, List.Model, Linked, Ring.InsertEnd, OthersStand;
      lists[l].InsertEnd(n);
      OthersKept(Focus(w, l, x));
    }

    method Place(l: ListId, n: ListItem, ghost w: World, ghost x: Item)
      requires l in lists && x in items && items[x] == n && Separate() && Surrounded(l, items[x])
               && OthersStand(w, l, x) && items[x].container == null && items[x].value <= maxDelay
      modifies Repr
      ensures lists[l].Valid()
      ensures lists[l].Model()
              == old(lists[l].Model()).InsertAt(old(InsertPosition(lists[l].Values(), items[x].value)), items[x])
      ensures items[x].value == old(items[x].value)
      ensures OthersStand(w, l, x)
    {
      hide List.Valid, List.Model, List.Values, Linked, InsertPosition, Ascending, Ring.InsertAt, OthersStand;
      lists[l].Insert(n);
      OthersKept(Focus(w, l, x));
    }

    /** A heap of no lists and no items yet. */
    constructor (maxDelay: nat)
      ensures this.maxDelay == maxDelay && lists == map[] && items == map[] && Repr == {}
      ensures Represents(World(map[], map[], map[]))
    {
      this.maxDelay := maxDelay;
      lists, items, Repr := map[], map[], {};
    }

    /** vListInitialise, for one more list. */
    method NewList(l: ListId, ghost w: World)
      requires Represents(w) && l !in lists
      modifies this`lists, this`Repr
      ensures lists.Keys == old(lists.Keys) + {l} && items == old(items) && fresh(Repr - old(Repr)) && old(Repr) <= Repr
      ensures Represents(w.(lists := w.lists[l := Ring([], 0)]))
    {
      hide *;
      ghost var was := lists;
      ToEarlierLists(w);
      AddList(l, w);
      FromEarlierLists(was, w, l);
    }

    method AddList(l: ListId, ghost w: World)
      requires l !in lists && Separate() && EarlierLists(lists, w)
      modifies this`lists, this`Repr
      ensures l in lists && lists == old(lists)[l := lists[l]] && fresh(Repr - old(Repr)) && old(Repr) <= Repr
      ensures Separate() && EarlierLists(old(lists), w) && lists[l].Valid() && lists[l].Model() == Ring([], 0)
    {
      hide List.Valid, List.Model, Linked, Apart, EarlierLists;
      var list := new List(maxDelay);
      ApartWithList(lists, items, Repr, l, list);
      lists := lists[l := list];
      Repr := Repr + {list, list.end};
      EarlierKept(w);
    }

    /** Another list leaves those there were as they were. */
    twostate lemma EarlierKept(w: World)
      requires old(Separate() && EarlierLists(lists, w)) && items == old(items)
      requires forall m :: m in old(lists) ==> unchanged(old(lists)[m]) && unchanged(old(lists)[m].end)
      requires forall m, i :: m in old(lists) && 0 <= i < |old(lists)[m].nodes| ==> unchanged(old(lists)[m].nodes[i])
      requires forall y :: y in items ==> unchanged(items[y])
      ensures EarlierLists(old(lists), w)
    {
      hide Linked, Image, World.Value, Apart;
      var was := old(lists);
      forall m | m in was
        ensures was[m].Valid() && was[m].Model() == old(was[m].Model())
      {
        assert old(was[m].Valid());
      }
    }

    lemma ApartWithList(lists: map<ListId, List>, items: map<Item, ListItem>, repr: set<object>, l: ListId, list: List)
      requires Apart(lists, items, repr) && list !in repr && list.end !in repr && list.maxDelay == maxDelay
               && l !in lists
      ensures Apart(lists[l := list], items, repr + {list, list.end})
    {
    }

    /** The lists `was`, and all items, are as in `w`. */
    ghost predicate EarlierLists(was: map<ListId, List>, w: World)
      reads *
    {
      && was.Keys == w.lists.Keys && (forall y :: y in w.container ==> y in items)
      && (forall m :: m in was ==> Known(w.lists[m]) && was[m].Valid() && was[m].Model() == Image(items, w.lists[m]))
      && (forall y :: y in items ==> ItemIs(was, y, w))
    }

    ghost predicate ItemIs(was: map<ListId, List>, y: Item, w: World)
      requires y in items
      reads this, items[y]
    {
      && items[y].owner == y.owner && items[y].value == w.Value(y) <= maxDelay
      && if y in w.container then w.container[y] in was && items[y].container == was[w.container[y]]
         else items[y].container == null
    }

    lemma ToEarlierLists(w: World)
      requires Represents(w)
      ensures Separate() && EarlierLists(lists, w) && w.Valid()
    {
      forall m | m in lists
        ensures Known(w.lists[m]) && lists[m].Valid() && lists[m].Model() == Image(items, w.lists[m])
      {
        assert Stands(m, w);
      }
      forall y | y in items
        ensures ItemIs(lists, y, w)
      {
        assert ItemStands(y, w);
      }
    }

    lemma FromEarlierLists(was: map<ListId, List>, w: World, l: ListId)
      requires Separate() && EarlierLists(was, w) && w.Valid() && l !in was && l in lists && lists == was[l := lists[l]]
      requires lists[l].Valid() && lists[l].Model() == Ring([], 0)
      ensures Represents(w.(lists := w.lists[l := Ring([], 0)]))
    {
      var v := w.(lists := w.lists[l := Ring([], 0)]);
      hide Stands, ItemStands, ItemIs, World.Valid, Separate, List.Valid, List.Model, Known;
      WorldWithList(w, l);
      ListsStand(was, w, v, l);
      forall y | y in items
        ensures ItemStands(y, v)
      {
        ItemFrom(was, w, v, y);
      }
    }

    lemma ItemFrom(was: map<ListId, List>, w: World, v: World, y: Item)
      requires Separate() && y in items && ItemIs(was, y, w) && v.value == w.value && v.container == w.container
      requires forall m :: m in was ==> m in lists && lists[m] == was[m]
      ensures ItemStands(y, v)
    {
    }

    lemma ListsStand(was: map<ListId, List>, w: World, v: World, l: ListId)
      requires Separate() && EarlierLists(was, w) && l !in was && l in lists && lists == was[l := lists[l]]
      requires lists[l].Valid() && lists[l].Model() == Ring([], 0) && v.lists == w.lists[l := Ring([], 0)]
      ensures forall m :: m in lists ==> Stands(m, v)
    {
      hide List.Valid, List.Model, Linked, Separate, Apart, World.Valid;
      forall m | m in lists
        ensures Stands(m, v)
      {
        NodesOwned(m, v);
      }
    }

    /** uxListRemove */
    method Remove(n: ListItem, ghost x: Item, ghost w: World)
      requires Represents(w) && x in w.container && x in items && items[x] == n
      modifies Repr
      ensures w.Holds(x) && Represents(w.Remove(x))
    {
      hide *;
      ghost var l, p := CanRemove(w, x);
      Cut(n, w, l, x, p + 1);
      IsRemoved(w, w.Remove(x), l, x, p);
    }

    lemma CanRemove(w: World, x: Item) returns (l: ListId, p: nat)
      requires Represents(w) && x in w.container
      ensures l in lists && l in w.lists && x in items && Separate() && Surrounded(l, items[x]) && OthersStand(w, l, x)
      ensures items[x].container == lists[l] && items[x].owner == x.owner && items[x].value == w.Value(x) <= maxDelay
      ensures p + 1 < |lists[l].nodes| && lists[l].nodes[p + 1] == items[x]
      ensures Stands(l, w) && p < |w.lists[l].items| && w.lists[l].Valid()
      ensures w.Holds(x) && w.Remove(x).Valid() && Elsewhere(w, w.Remove(x), l, x) && x !in w.Remove(x).container
      ensures l in w.Remove(x).lists && w.Remove(x).lists[l] == w.lists[l].RemoveAt(p)
    {
      l, p := w.container[x], IndexOf(w.lists[w.container[x]].items, x);
      RemoveKeeps(w, x);
      IsSurrounded(w, l, x);
    }

    lemma IsRemoved(w: World, v: World, l: ListId, x: Item, p: nat)
      requires Separate() && v.Valid() && Elsewhere(w, v, l, x) && OthersStand(w, l, x)
      requires l in lists && l in w.lists && w.lists[l].Valid() && Known(w.lists[l]) && p < |w.lists[l].items|
      requires lists[l].Valid() && lists[l].Model() == Image(items, w.lists[l]).RemoveAt(p)
      requires l in v.lists && v.lists[l] == w.lists[l].RemoveAt(p)
      requires x in items && x !in v.container && items[x].container == null
      requires items[x].owner == x.owner && items[x].value == w.Value(x) <= maxDelay
      ensures Represents(v)
    {
      ImageRemoved(items, w.lists[l], p);
      NodesOwned(l, v);
      Rejoined(w, v, l, x);
    }

    /** vListInsertEnd */
    method InsertEnd(l: ListId, n: ListItem, ghost x: Item, ghost w: World)
      requires Represents(w) && l in lists && x in items && items[x] == n && x !in w.container
      modifies Repr
      ensures w.Has(l) && Represents(w.InsertEnd(l, x))
    {
      hide *;
      CanInsert(w, l, x);
      InsertEndKeeps(w, l, x);
      ghost var p := EndOf(items, w, l, x);
      Append(l, n, w, x);
      IsInserted(w, w.InsertEnd(l, x), l, x, p);
    }

    /** vListInsert */
    method Insert(l: ListId, n: ListItem, ghost x: Item, ghost w: World)
      requires Represents(w) && l in lists && x in items && items[x] == n && x !in w.container && w.Has(l)
               && w.Sorted(l)
      modifies Repr
      ensures Represents(w.Insert(l, x))
    {
      hide *;
      CanInsert(w, l, x);
      InsertKeeps(w, l, x);
      ghost var p := PlaceOf(w, l, x);
      Place(l, n, w, x);
      IsInserted(w, w.Insert(l, x), l, x, p);
    }

    lemma CanInsert(w: World, l: ListId, x: Item)
      requires Represents(w) && l in lists && x in items && x !in w.container
      ensures l in w.lists && Separate() && Surrounded(l, items[x]) && OthersStand(w, l, x)
      ensures items[x].container == null && items[x].owner == x.owner && items[x].value == w.Value(x) <= maxDelay
      ensures w.Valid() && w.Has(l) && w.lists[l].Valid() && Stands(l, w) && Known(w.lists[l])
      ensures lists[l].Values() == w.Values(w.lists[l].items)
    {
      IsSurrounded(w, l, x);
      assert ItemStands(x, w) && Stands(l, w);
      var s := w.lists[l].items;
      forall i | 0 <= i < |s|
        ensures lists[l].Values()[i] == w.Values(s)[i]
      {
        assert lists[l].Model().items[i] == items[s[i]];
        assert ItemStands(s[i], w);
      }
    }

    lemma IsInserted(w: World, v: World, l: ListId, x: Item, p: nat)
      requires Separate() && v.Valid() && Elsewhere(w, v, l, x) && OthersStand(w, l, x)
      requires l in lists && l in w.lists && w.lists[l].Valid() && Known(w.lists[l]) && p <= |w.lists[l].items|
      requires x in items && v.On(x, l) && items[x].owner == x.owner && items[x].value == w.Value(x) <= maxDelay
      requires lists[l].Valid() && lists[l].Model() == Image(items, w.lists[l]).InsertAt(p, items[x])
      requires l in v.lists && v.lists[l] == w.lists[l].InsertAt(p, x)
      ensures Represents(v)
    {
      ImageInserted(items, w.lists[l], p, x);
      NodesOwned(l, v);
      Rejoined(w, v, l, x);
    }

    /** listLIST_IS_EMPTY */
    method IsEmpty(l: ListId, ghost w: World) returns (empty: bool)
      requires Represents(w) && l in lists
      ensures w.Has(l) && empty == w.Empty(l)
    {
      assert Stands(l, w);
      empty := lists[l].IsEmpty();
    }

    /** listGET_OWNER_OF_HEAD_ENTRY */
    method HeadEntry(l: ListId, ghost w: World) returns (n: ListItem)
      requires Represents(w) && l in lists && l in w.lists && w.lists[l].items != []
      ensures w.lists[l].items[0] in items && n == items[w.lists[l].items[0]]
    {
      assert Stands(l, w);
      n := lists[l].HeadEntry();
    }

    /** listGET_OWNER_OF_NEXT_ENTRY */
    method NextEntry(l: ListId, ghost w: World) returns (n: ListItem)
      requires Represents(w) && l in lists && w.Has(l) && w.lists[l].items != []
      modifies Repr
      ensures Represents(w.(lists := w.lists[l := w.lists[l].Next()]))
      ensures var x := w.lists[l].Next().Current(); x in items && n == items[x]
    {
      ghost var x, v := w.lists[l].items[0], w.(lists := w.lists[l := w.lists[l].Next()]);
      hide *;
      CanWalk(w, v, l, x);
      n := Walk(l, w, x);
      IsWalked(w, v, l, x);
    }

    method Walk(l: ListId, ghost w: World, ghost x: Item) returns (n: ListItem)
      requires l in lists && x in items && Separate() && Surrounded(l, items[x]) && OthersStand(w, l, x)
      requires lists[l].Model().items != []
      modifies Repr
      ensures lists[l].Valid() && lists[l].Model() == old(lists[l].Model()).Next() && n == lists[l].Model().Current()
      ensures items[x].container == old(items[x].container) && items[x].value == old(items[x].value)
      ensures OthersStand(w, l, x)
    {
      hide List.Valid, List.Model, Linked, OthersStand;
      n := lists[l].NextEntry();
      OthersKept(Focus(w, l, x));
    }

    lemma CanWalk(w: World, v: World, l: ListId, x: Item)
      requires Represents(w) && l in lists && w.Has(l) && w.lists[l].items != [] && x == w.lists[l].items[0]
      requires v == w.(lists := w.lists[l := w.lists[l].Next()])
      ensures x in items && Separate() && Surrounded(l, items[x]) && OthersStand(w, l, x)
      ensures Stands(l, w) && ItemStands(x, v) && v.Valid() && Elsewhere(w, v, l, x)
      ensures lists[l].Model().items != [] && Known(w.lists[l]) && w.lists[l].Next().Valid()
              && w.lists[l].Next().index > 0
      ensures w.lists[l].Next().Current() in items
    {
      hide Separate, Surrounded, World.Valid, List.Valid, Linked, List.Model;
      WalkedWorld(w, v, l);
      HeadStands(w, l, x);
      IsSurrounded(w, l, x);
    }

    lemma HeadStands(w: World, l: ListId, x: Item)
      requires Represents(w) && l in lists && w.Has(l) && w.lists[l].items != [] && x == w.lists[l].items[0]
      ensures w.On(x, l) && x in items && Stands(l, w) && ItemStands(x, w) && lists[l].Model().items != []
    {
    }

    lemma IsWalked(w: World, v: World, l: ListId, x: Item)
      requires Separate() && v.Valid() && Elsewhere(w, v, l, x) && OthersStand(w, l, x)
      requires l in lists && w.Has(l) && w.lists[l].items != [] && Known(w.lists[l]) && x in items && ItemStands(x, v)
      requires lists[l].Valid() && lists[l].Model() == Image(items, w.lists[l]).Next()
      requires l in v.lists && v.lists[l] == w.lists[l].Next()
      ensures Represents(v)
      ensures Image(items, w.lists[l]).Next().Current() == items[w.lists[l].Next().Current()]
    {
      assert v.lists[l].items == w.lists[l].items;
      NodesOwned(l, v);
      Rejoined(w, v, l, x);
    }

    /** listSET_LIST_ITEM_VALUE, for an item that is on no list. */
    method SetValue(n: ListItem, value: nat, ghost x: Item, ghost w: World)
      requires Represents(w) && x in items && items[x] == n && x !in w.container && value <= maxDelay
      modifies Repr
      ensures Represents(w.SetValue(x, value))
    {
      CanAssign(w, x);
      hide *;
      Assign(n, value, w, x);
      IsAssigned(w, x, value);
    }

    method Assign(n: ListItem, value: nat, ghost w: World, ghost x: Item)
      requires x in items && items[x] == n && Separate() && NoNode(n) && AllStand(w, x)
      modifies n`value
      ensures AllStand(w, x) && n.value == value && n.container == old(n.container)
    {
      hide List.Valid, List.Model, Linked;
      n.value := value;
    }

    /** vListInitialiseItem, for an item of a new control block. */
    method NewItem(x: Item, ghost w: World)
      requires Represents(w) && x !in items && w.Value(x) == 0
      modifies this`items, this`Repr
      ensures items.Keys == old(items.Keys) + {x} && fresh(Repr - old(Repr)) && old(Repr) <= Repr
      ensures Represents(w)
    {
      CanAssign(w, x);
      hide *;
      var n := Allocate(0, w, x);
    }

    method Allocate(value: nat, ghost w: World, x: Item) returns (n: ListItem)
      requires x !in items && Separate() && AllStand(w, x)
      modifies this`items, this`Repr
      ensures fresh(n) && items == old(items)[x := n] && Repr == old(Repr) + {n}
      ensures AllStand(w, x) && n.value == value && n.owner == x.owner && n.container == null && Separate()
    {
      hide List.Valid, List.Model, Linked, Image, AllStand, Stands, ItemStands, Apart, StandEarlier;
      ghost var was := items;
      ToEarlier(w, x);
      n := new ListItem(value, x.owner);
      ApartWith(items, Repr, x, n);
      items := items[x := n];
      Repr := Repr + {n};
      NodesKept(w);
      FromEarlier(was, w, x, n);
    }

    /** Another node leaves those there were as they were. */
    twostate lemma NodesKept(w: World)
      requires old(Separate() && StandEarlier(items, w)) && lists == old(lists) && old(Repr) <= Repr
      requires forall y :: y in old(items) ==>
                 y in items && items[y] == old(items)[y] && unchanged(old(items)[y]) && old(ItemStands(y, w))
      requires forall m :: m in lists ==> unchanged(lists[m]) && unchanged(lists[m].end)
      requires forall m, i :: m in lists && 0 <= i < |lists[m].nodes| ==> unchanged(lists[m].nodes[i])
      ensures StandEarlier(old(items), w) && forall y :: y in old(items) ==> ItemStands(y, w)
    {
      hide Linked, Image, World.Value, Apart;
      forall m | m in lists
        ensures lists[m].Valid() && lists[m].Model() == old(lists[m].Model())
      {
        assert old(lists[m].Valid());
      }
    }

    /** The lists are as in `w`, with nodes `was` for the items. */
    ghost predicate StandEarlier(was: map<Item, ListItem>, w: World)
      reads *
    {
      && lists.Keys == w.lists.Keys && (forall y :: y in w.container ==> y in was)
      && (forall m, y :: m in lists && y in w.lists[m].items ==> y in was)
      && (forall m :: m in lists ==> lists[m].Valid() && lists[m].Model() == Image(was, w.lists[m]))
    }

    lemma ToEarlier(w: World, x: Item)
      requires AllStand(w, x) && x !in items
      ensures StandEarlier(items, w) && forall y :: y in items ==> ItemStands(y, w)
    {
      assert forall m :: m in lists ==> Stands(m, w);
    }

    lemma FromEarlier(was: map<Item, ListItem>, w: World, x: Item, n: ListItem)
      requires StandEarlier(was, w) && x !in was && items == was[x := n] && Separate()
      requires forall y :: y in was ==> ItemStands(y, w)
      ensures AllStand(w, x)
    {
      forall m | m in lists
        ensures Stands(m, w)
      {
        ImageExtended(was, w.lists[m], x, n);
        NodesOwned(m, w);
      }
    }

    /** All lists, and the items other than `x`, are as in `w`. */
    ghost predicate AllStand(w: World, x: Item)
      reads this, Repr
    {
      && lists.Keys == w.lists.Keys && (forall y :: y in w.container ==> y in items)
      && (forall m :: m in lists ==> Stands(m, w))
      && (forall y :: y in items && y != x ==> ItemStands(y, w))
    }

    ghost predicate NoNode(n: ListItem)
      reads *
    {
      && (forall m, i :: m in lists && 0 <= i < |lists[m].nodes| ==> lists[m].nodes[i] != n)
      && (forall m :: m in lists ==> |lists[m].nodes| > 0 && lists[m].nodes[0] == lists[m].end)
    }

    lemma CanAssign(w: World, x: Item)
      requires Represents(w) && x !in w.container
      ensures w.Valid() && Separate() && AllStand(w, x)
      ensures x in items ==> NoNode(items[x]) && items[x].container == null && items[x].owner == x.owner
    {
      hide World.Valid, World.Value;
      if x in items {
        assert ItemStands(x, w);
      }
    }

    lemma IsAssigned(w: World, x: Item, value: nat)
      requires w.Valid() && Separate() && AllStand(w, x) && x !in w.container
      requires x in items && items[x].owner == x.owner && items[x].value == value <= maxDelay
               && items[x].container == null
      ensures Represents(w.SetValue(x, value))
    {
      var v := w.SetValue(x, value);
      hide Stands, ItemStands, Separate, World.Valid;
      SameWorld(w, v);
      IsValued(v, x);
      forall m | m in lists
        ensures Stands(m, v)
      {
        SameStands(m, w, v);
      }
      forall y | y in items && y != x
        ensures ItemStands(y, v)
      {
        SameItem(y, w, v);
      }
    }

    lemma IsValued(v: World, x: Item)
      requires Separate() && x in items && x !in v.container
      requires items[x].owner == x.owner && items[x].value == v.Value(x) <= maxDelay && items[x].container == null
      ensures ItemStands(x, v)
    {
    }

    lemma SameItem(y: Item, w: World, v: World)
      requires y in items && ItemStands(y, w) && v.Value(y) == w.Value(y) && v.container == w.container
      ensures ItemStands(y, v)
    {
    }

    lemma SameStands(l: ListId, w: World, v: World)
      requires l in lists && l in w.lists && l in v.lists && v.lists[l] == w.lists[l] && Stands(l, w)
      ensures Stands(l, v)
    {
    }

    /** Only list `l` and item `x` have changed, and they are as they should be. */
    lemma Rejoined(w: World, v: World, l: ListId, x: Item)
      requires Separate() && v.Valid() && Elsewhere(w, v, l, x) && l in lists && l in v.lists
      requires OthersStand(w, l, x) && x in items && Stands(l, v) && ItemStands(x, v)
      ensures Represents(v)
    {
      hide Stands;
      forall m | m in lists && m != l
        ensures Stands(m, v)
      {
        SameStands(m, w, v);
      }
      forall y | y in items && y != x
        ensures ItemStands(y, v)
      {
        assert ItemStands(y, w);
      }
    }
  }

  function Mapped(items: map<Item, ListItem>, s: seq<Item>): (nodes: seq<ListItem>)
    requires forall x :: x in s ==> x in items
    ensures |nodes| == |s| && forall i :: 0 <= i < |s| ==> nodes[i] == items[s[i]]
  {
    seq(|s|, i requires 0 <= i < |s| => items[s[i]])
  }

  function Image(items: map<Item, ListItem>, r: Ring<Item>): Ring<ListItem>
    requires forall x :: x in r.items ==> x in items
  {
    Ring(Mapped(items, r.items), r.index)
  }

  lemma ImageRemoved(items: map<Item, ListItem>, r: Ring<Item>, p: nat)
    requires r.Valid() && p < |r.items| && forall x :: x in r.items ==> x in items
    ensures forall x :: x in r.RemoveAt(p).items ==> x in items
    ensures Image(items, r).RemoveAt(p) == Image(items, r.RemoveAt(p))
  {
  }

  lemma ImageInserted(items: map<Item, ListItem>, r: Ring<Item>, p: nat, x: Item)
    requires r.Valid() && p <= |r.items| && x in items && forall y :: y in r.items ==> y in items
    ensures forall y :: y in r.InsertAt(p, x).items ==> y in items
    ensures Image(items, r).InsertAt(p, items[x]) == Image(items, r.InsertAt(p, x))
    ensures Image(items, r).InsertAt(p, items[x]).items[p] == items[x]
  {
  }

  lemma EndOf(items: map<Item, ListItem>, w: World, l: ListId, x: Item) returns (p: nat)
    requires w.Has(l) && x in items && forall y :: y in w.lists[l].items ==> y in items
    ensures p <= |w.lists[l].items| && l in w.InsertEnd(l, x).lists
    ensures w.InsertEnd(l, x).lists[l] == w.lists[l].InsertAt(p, x)
    ensures Image(items, w.lists[l]).Valid()
            && Image(items, w.lists[l]).InsertEnd(items[x]) == Image(items, w.lists[l]).InsertAt(p, items[x])
  {
    p := if w.lists[l].index == 0 then |w.lists[l].items| else w.lists[l].index - 1;
  }

  lemma PlaceOf(w: World, l: ListId, x: Item) returns (p: nat)
    requires w.Has(l)
    ensures p <= |w.lists[l].items| && l in w.Insert(l, x).lists
    ensures p == InsertPosition(w.Values(w.lists[l].items), w.Value(x))
    ensures w.Insert(l, x).lists[l] == w.lists[l].InsertAt(p, x)
  {
    p := InsertPosition(w.Values(w.lists[l].items), w.Value(x));
  }

  lemma ImageExtended(items: map<Item, ListItem>, r: Ring<Item>, x: Item, n: ListItem)
    requires x !in items && forall y :: y in r.items ==> y in items
    ensures Image(items[x := n], r) == Image(items, r)
  {
  }

  /** Walking along a list leaves the world in order. */
  lemma WalkedWorld(w: World, v: World, l: ListId)
    requires w.Valid() && w.Has(l) && w.lists[l].items != [] && v == w.(lists := w.lists[l := w.lists[l].Next()])
    ensures v.Valid() && forall x :: Elsewhere(w, v, l, x)
    ensures w.lists[l].Next().Valid() && w.lists[l].Next().index > 0 && w.lists[l].Next().items == w.lists[l].items
    ensures w.lists[l].Next().Current() in w.lists[l].items
  {
  }

  lemma SameWorld(w: World, v: World)
    requires w.Valid() && v.lists == w.lists && v.container == w.container
    ensures v.Valid()
  {
  }

  lemma WorldWithList(w: World, l: ListId)
    requires w.Valid() && l !in w.lists
    ensures w.(lists := w.lists[l := Ring([], 0)]).Valid()
  {
  }
}
