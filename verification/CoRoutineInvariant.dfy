/** What every step of the co-routine scheduler keeps, stated on values. */
module CoRoutineInvariants {
  import opened Rings
  import opened ListWorlds
  import opened WakeLogs
  import opened Wrappers

  /** Number of priorities, of event lists, and of tick values (portMAX_DELAY + 1). The priorities
      fit a tick value. */
  datatype Config = Config(priorities: nat, queues: nat, ticks: nat) {
    predicate Valid() {
      0 < priorities < ticks
    }

    predicate HasList(l: ListId) {
      match l
      case Ready(p) => p < priorities
      case Delayed(_) => true
      case Pending => true
      case Waiting(q) => q < queues
    }
  }

  /** The co-routine, if any, whose generic item has been taken off one list and not yet been
      put on the next; `busy` while its event item may still be on a list. */
  datatype Hand = Nobody | Holding(id: Id, busy: bool)

  ghost predicate OnEventList(w: World, c: Id) {
    Event(c) in w.container && (w.container[Event(c)] == Pending || w.container[Event(c)].Waiting?)
  }

  /** Where the items of co-routine `c` may be. */
  ghost predicate Placed(w: World, priority: map<Id, nat>, hand: Hand, c: Id)
    requires c in priority
  {
    && (Event(c) in w.container ==> OnEventList(w, c))
    && if hand.Holding? && hand.id == c then
         Generic(c) !in w.container && (Event(c) in w.container ==> hand.busy)
       else
         && Generic(c) in w.container
         && (w.container[Generic(c)] == Ready(priority[c]) || w.container[Generic(c)].Delayed?)
         && (Event(c) in w.container ==> w.container[Generic(c)].Delayed?)
  }

  ghost predicate Structure(cfg: Config, w: World, priority: map<Id, nat>, hand: Hand) {
    ListsInOrder(cfg, w) && ItemsInOrder(cfg, w, priority, hand)
  }

  /** There are just the lists there should be, and those that are kept in order are. */
  ghost predicate ListsInOrder(cfg: Config, w: World) {
    && cfg.Valid() && w.Valid()
    && (forall l :: l in w.lists <==> cfg.HasList(l))
    && (forall l :: l in w.lists && (l.Delayed? || l.Waiting?) ==> w.Sorted(l))
    && w.lists[Pending].index == 0
  }

  /** The items of every co-routine are where they should be, and nobody else's are on a list. */
  ghost predicate ItemsInOrder(cfg: Config, w: World, priority: map<Id, nat>, hand: Hand) {
    && (forall x :: x in w.container ==> x.owner in priority)
    && (forall c :: c in priority ==> priority[c] < cfg.priorities && Placed(w, priority, hand, c))
    && (forall c :: c in priority ==> w.Value(Event(c)) == cfg.priorities - priority[c])
    && |priority| < COUNT_MODULUS
  }

  /** Absolute time: `base` is the time of the last tick wrap, `tick` the tick count. */
  datatype Clock = Clock(base: nat, tick: nat) {
    function Now(): nat { base + tick }
  }

  /** The wake time that a value on the current, or on the overflow, delayed list stands for. */
  function WakeTime(cfg: Config, clock: Clock, overflow: bool, value: nat): nat {
    clock.base + value + if overflow then cfg.ticks else 0
  }

  /** How many ticks a sleep lasts that is asked for with delay `d` at tick count `tick`: a delay
      of zero ends with the next tick, but one asked for at the last tick before a wrap stays
      behind on the outgoing list, for two whole turns. */
  function Lasts(cfg: Config, tick: nat, d: nat): nat {
    if d > 0 then d else if tick + 1 < cfg.ticks then 1 else 2 * cfg.ticks
  }

  /** A wake value on the current, or on the overflow, delayed list stands for the end of the
      sleep. One that the time has already reached when the sleep begins is that of a delay of
      zero. */
  ghost predicate Due(cfg: Config, clock: Clock, overflow: bool, value: nat, since: nat, ticks: nat) {
    var t := WakeTime(cfg, clock, overflow, value);
    && value < cfg.ticks
    && (ticks < cfg.ticks || (ticks == 2 * cfg.ticks && value + 1 == cfg.ticks))
    && since + ticks == (if since < t then t else t + Lasts(cfg, value, 0))
    && since <= t && (overflow ==> since < t)
  }

  /** A co-routine is asleep in the history just when it is on a delayed list, and the list
      and value it has there stand for the end of its sleep. Sleeps began before `floor`, and
      ends of sleep before `floor` have been dealt with. */
  ghost predicate Timed(cfg: Config, w: World, clock: Clock, current: bool, log: seq<Entry>, floor: nat, c: Id) {
    Generic(c) in w.container ==>
      match w.container[Generic(c)]
      case Delayed(b) =>
        var s := StateOf(log, c);
        && s.Asleep? && s.since < floor <= s.since + s.ticks
        && Due(cfg, clock, b != current, w.Value(Generic(c)), s.since, s.ticks)
      case _ => StateOf(log, c) == Awake
  }

  ghost predicate Timing(cfg: Config, w: World, priority: map<Id, nat>, clock: Clock, current: bool, log: seq<Entry>,
                         floor: nat) {
    && Punctual(log)
    && clock.tick < cfg.ticks
    && (forall c :: c in priority ==> Timed(cfg, w, clock, current, log, floor, c))
    && (forall c :: c !in priority ==> StateOf(log, c) == Awake)
  }

  /** No ready list above `top` holds anything. */
  ghost predicate TopBounds(cfg: Config, w: World, top: nat) {
    && top < cfg.priorities
    && forall p :: top < p < cfg.priorities && Ready(p) in w.lists ==> w.lists[Ready(p)].items == []
  }

  /** What an interrupt leaves alone: everything but the event lists and the pending list; and
      it takes no event item off the event and pending lists altogether. */
  ghost predicate EventStepOnly(w: World, v: World) {
    && v.lists.Keys == w.lists.Keys
    && (forall l :: l in w.lists && (l.Ready? || l.Delayed?) ==> v.lists[l] == w.lists[l])
    && (forall x :: x in v.container <==> x in w.container)
    && (forall c :: Generic(c) in w.container ==> v.container[Generic(c)] == w.container[Generic(c)])
    && v.value == w.value
    && (Pending in w.lists ==> w.lists[Pending].items <= v.lists[Pending].items)
  }

  /** Event list `q` has a head, and it is an item that can be moved to the pending list. */
  predicate CanUnblock(w: World, q: nat) {
    && w.Has(Waiting(q)) && w.lists[Waiting(q)].items != [] && w.Has(Pending)
    && w.On(w.lists[Waiting(q)].items[0], Waiting(q))
  }

  /** xCoRoutineRemoveFromEventList: the head of an event list moves to the pending list. */
  function Unblock(w: World, q: nat): World
    requires CanUnblock(w, q)
  {
    var x := w.lists[Waiting(q)].items[0];
    w.Remove(x).InsertEnd(Pending, x)
  }

  /** Event item `x` has gone from event list `q` to the end of the pending list, and nothing
      else has changed. */
  ghost predicate EventMoved(w: World, u: World, x: Item, q: nat) {
    && w.On(x, Waiting(q)) && u.On(x, Pending)
    && u.Valid() && u.value == w.value && u.lists.Keys == w.lists.Keys
    && Waiting(q) in w.lists && Pending in w.lists
    && (forall l :: l in w.lists && l != Waiting(q) && l != Pending ==> u.lists[l] == w.lists[l])
    && (forall y :: y in u.container <==> y in w.container)
    && (forall y :: y in w.container && y != x ==> u.container[y] == w.container[y])
    && u.lists[Pending] == Ring(w.lists[Pending].items + [x], 0)
    && u.Sorted(Waiting(q))
  }

  /** What an event does to the lists: whoever waits for it first goes to the end of the pending list,
      those behind move up, and nothing else moves; if nobody waits, nothing happens. */
  ghost predicate Signalled(w: World, u: World, q: nat) {
    && Waiting(q) in w.lists && Pending in w.lists
    && var items, pending := w.lists[Waiting(q)].items, w.lists[Pending].items;
       if items == [] then u == w
       else
         u == w.(lists := w.lists[Waiting(q) := Ring(items[1..], 0)][Pending := Ring(pending + [items[0]], 0)],
                 container := w.container[items[0] := Pending])
  }

  lemma UnblockIsSignal(w: World, q: nat)
    requires w.Valid() && Waiting(q) in w.lists && Pending in w.lists
    requires w.lists[Waiting(q)].items != [] && w.Sorted(Waiting(q)) && w.lists[Pending].index == 0
    ensures CanUnblock(w, q) && Signalled(w, Unblock(w, q), q)
  {
    hide World.Valid, Ascending;
    HeadUnblocks(w, q);
    var items, x := w.lists[Waiting(q)].items, w.lists[Waiting(q)].items[0];
    assert items[..0] + items[0 + 1..] == items[1..];
    assert w.lists[Waiting(q)].RemoveAt(0) == Ring(items[1..], 0);
    InsertEndAppends(w.lists[Pending], x);
    var u := Unblock(w, q);
    assert u.container == w.container[x := Pending];
    assert u.lists == w.lists[Waiting(q) := Ring(items[1..], 0)][Pending := Ring(w.lists[Pending].items + [x], 0)];
  }

  lemma UnblockMoves(w: World, q: nat)
    requires w.Valid() && Waiting(q) in w.lists && Pending in w.lists
    requires w.lists[Waiting(q)].items != [] && w.Sorted(Waiting(q)) && w.lists[Pending].index == 0
    ensures CanUnblock(w, q) && EventMoved(w, Unblock(w, q), w.lists[Waiting(q)].items[0], q)
  {
    hide World.Valid, World.Sorted, World.Value;
    var x := w.lists[Waiting(q)].items[0];
    HeadUnblocks(w, q);
    RemoveKeeps(w, x);
    RemoveKeepsSorted(w, x);
    var v := w.Remove(x);
    InsertEndKeeps(v, Pending, x);
    InsertEndAppends(w.lists[Pending], x);
    SameListSorted(v, v.InsertEnd(Pending, x), Waiting(q));
  }

  lemma HeadUnblocks(w: World, q: nat)
    requires w.Valid() && Waiting(q) in w.lists && Pending in w.lists && w.lists[Waiting(q)].items != []
    ensures CanUnblock(w, q) && w.lists[Waiting(q)].Valid() && w.lists[Pending].Valid()
  {
    assert w.lists[Waiting(q)].items[0] in w.lists[Waiting(q)].items;
  }

  lemma EventMoveIsEventStep(cfg: Config, w: World, u: World, priority: map<Id, nat>, hand: Hand, x: Item, q: nat)
    requires Structure(cfg, w, priority, hand)
    requires EventMoved(w, u, x, q)
    ensures x.Event? && EventStepOnly(w, u)
  {
    assert x.Event?;
    hide Structure;
    EventMovedOnly(w, u, x, q);
  }

  lemma EventMovedOnly(w: World, u: World, x: Item, q: nat)
    requires EventMoved(w, u, x, q) && x.Event?
    ensures EventStepOnly(w, u)
  {
    hide World.Valid, World.Sorted;
  }

  lemma EventMoveKeepsPlaces(cfg: Config, w: World, u: World, priority: map<Id, nat>, hand: Hand, x: Item, q: nat,
                             c: Id)
    requires c in priority && Placed(w, priority, hand, c)
    requires x.Event? && EventMoved(w, u, x, q)
    ensures Placed(u, priority, hand, c)
  {
  }

  lemma EventMoveKeeps(cfg: Config, w: World, u: World, priority: map<Id, nat>, hand: Hand, x: Item, q: nat)
    requires Structure(cfg, w, priority, hand)
    requires EventMoved(w, u, x, q)
    ensures Structure(cfg, u, priority, hand)
  {
    hide World.Valid, World.Sorted, Placed;
    EventMoveIsEventStep(cfg, w, u, priority, hand, x, q);
    forall l | l in u.lists && (l.Delayed? || l.Waiting?)
      ensures u.Sorted(l)
    {
      if l != Waiting(q) {
        SameListSorted(w, u, l);
      }
    }
    forall c | c in priority
      ensures Placed(u, priority, hand, c) && u.Value(Event(c)) == w.Value(Event(c))
    {
      EventMoveKeepsPlaces(cfg, w, u, priority, hand, x, q, c);
    }
  }

  /** Interrupts do not disturb the times. */
  lemma EventStepKeepsTiming(cfg: Config, w: World, v: World, priority: map<Id, nat>, clock: Clock, current: bool,
                             log: seq<Entry>, floor: nat)
    requires EventStepOnly(w, v)
    requires Timing(cfg, w, priority, clock, current, log, floor)
    ensures Timing(cfg, v, priority, clock, current, log, floor)
  {
    forall c | c in priority
      ensures Timed(cfg, v, clock, current, log, floor, c)
    {
      assert Timed(cfg, w, clock, current, log, floor, c);
    }
  }

  /** Every wake value on the overflow list is below the tick count, but for those of zero delays
      asked for at the last tick before a wrap. */
  lemma OverflowIsBelow(cfg: Config, w: World, priority: map<Id, nat>, clock: Clock, current: bool, log: seq<Entry>,
                        hand: Hand, x: Item)
    requires Structure(cfg, w, priority, hand)
    requires Timing(cfg, w, priority, clock, current, log, clock.Now() + 1)
    requires x in w.lists[Delayed(!current)].items
    ensures StateOf(log, x.owner).Asleep?
    ensures w.Value(x) < clock.tick || (w.Value(x) == cfg.ticks - 1 && StateOf(log, x.owner).ticks == 2 * cfg.ticks)
  {
    assert w.On(x, Delayed(!current));
    assert Placed(w, priority, hand, x.owner);
    assert Timed(cfg, w, clock, current, log, clock.Now() + 1, x.owner);
  }

  /** Once the current tick has been dealt with, every wake value on the current delayed list
      is above the tick count, but for those of zero delays asked for at this tick. */
  lemma CurrentIsAbove(cfg: Config, w: World, priority: map<Id, nat>, clock: Clock, current: bool, log: seq<Entry>,
                       hand: Hand, x: Item)
    requires Structure(cfg, w, priority, hand)
    requires Timing(cfg, w, priority, clock, current, log, clock.Now() + 1)
    requires x in w.lists[Delayed(current)].items
    ensures w.Value(x) < cfg.ticks
    ensures || clock.tick < w.Value(x)
            || (w.Value(x) == clock.tick && StateOf(log, x.owner) == Asleep(clock.Now(), Lasts(cfg, clock.tick, 0)))
  {
    assert w.On(x, Delayed(current));
    assert Placed(w, priority, hand, x.owner);
    assert Timed(cfg, w, clock, current, log, clock.Now() + 1, x.owner);
  }

  ghost predicate Holds(hand: Hand, d: Id) {
    hand.Holding? && hand.id == d
  }

  /** A step about item `x` and list `l` keeps the structure if it keeps the list order and
      the places of the owner of `x`. */
  lemma StepKeeps(cfg: Config, w: World, v: World, priority: map<Id, nat>, before: Hand, after: Hand, l: ListId,
                  x: Item)
    requires Structure(cfg, w, priority, before) && x.owner in priority
    requires v.Valid() && Elsewhere(w, v, l, x) && l in w.lists
    requires (l.Delayed? || l.Waiting?) ==> v.Sorted(l)
    requires l == Pending ==> v.lists[l].index == 0
    requires Placed(v, priority, after, x.owner)
    requires forall d :: d != x.owner ==> !Holds(before, d) && !Holds(after, d)
    ensures Structure(cfg, v, priority, after)
  {
    hide Placed, World.Valid, World.Sorted;
    ElsewhereSorted(cfg, w, v, l, x);
    forall d | d in priority
      ensures Placed(v, priority, after, d) && v.Value(Event(d)) == w.Value(Event(d))
    {
      if d != x.owner {
        OthersStayPlaced(w, v, priority, before, after, l, x, d);
      }
    }
  }

  lemma OthersStayPlaced(w: World, v: World, priority: map<Id, nat>, before: Hand, after: Hand, l: ListId, x: Item,
                         d: Id)
    requires d in priority && Placed(w, priority, before, d) && Elsewhere(w, v, l, x) && d != x.owner
    requires !Holds(before, d) && !Holds(after, d)
    ensures Placed(v, priority, after, d)
  {
  }

  lemma RemoveGenericKeeps(cfg: Config, w: World, v: World, priority: map<Id, nat>, c: Id, l: ListId)
    requires Structure(cfg, w, priority, Nobody) && c in priority
    requires w.On(Generic(c), l) && Generic(c) !in v.container
    requires v.Valid() && Elsewhere(w, v, l, Generic(c)) && (l.Delayed? ==> v.Sorted(l))
    ensures Structure(cfg, v, priority, Holding(c, Event(c) in w.container))
  {
    assert Placed(w, priority, Nobody, c);
    StepKeeps(cfg, w, v, priority, Nobody, Holding(c, Event(c) in w.container), l, Generic(c));
  }

  lemma RemoveEventKeeps(cfg: Config, w: World, v: World, priority: map<Id, nat>, hand: Hand, c: Id, l: ListId)
    requires Structure(cfg, w, priority, hand) && c in priority
    requires w.On(Event(c), l) && Event(c) !in v.container
    requires v.Valid() && Elsewhere(w, v, l, Event(c)) && (l.Waiting? ==> v.Sorted(l))
    requires l == Pending ==> v.lists[l].index == 0
    requires hand.Holding? ==> hand.id == c
    ensures Structure(cfg, v, priority, if hand.Holding? then Holding(c, false) else Nobody)
  {
    assert Placed(w, priority, hand, c);
    StepKeeps(cfg, w, v, priority, hand, if hand.Holding? then Holding(c, false) else Nobody, l, Event(c));
  }

  /** Putting the held co-routine on its ready list, or on a delayed list. */
  lemma InsertGenericKeeps(cfg: Config, w: World, v: World, priority: map<Id, nat>, c: Id, l: ListId)
    requires Structure(cfg, w, priority, Holding(c, false)) && c in priority
    requires l == Ready(priority[c]) || l.Delayed?
    requires v.On(Generic(c), l)
    requires v.Valid() && Elsewhere(w, v, l, Generic(c)) && (l.Delayed? ==> v.Sorted(l))
    ensures Structure(cfg, v, priority, Nobody)
  {
    assert Placed(w, priority, Holding(c, false), c);
    StepKeeps(cfg, w, v, priority, Holding(c, false), Nobody, l, Generic(c));
  }

  lemma InsertEventKeeps(cfg: Config, w: World, v: World, priority: map<Id, nat>, c: Id, q: nat)
    requires Structure(cfg, w, priority, Nobody) && c in priority && q < cfg.queues
    requires Event(c) !in w.container && Generic(c) in w.container && w.container[Generic(c)].Delayed?
    requires v.On(Event(c), Waiting(q))
    requires v.Valid() && Elsewhere(w, v, Waiting(q), Event(c)) && v.Sorted(Waiting(q))
    ensures Structure(cfg, v, priority, Nobody)
  {
    assert Placed(w, priority, Nobody, c);
    StepKeeps(cfg, w, v, priority, Nobody, Nobody, Waiting(q), Event(c));
  }

  lemma ElsewhereSorted(cfg: Config, w: World, v: World, l: ListId, x: Item)
    requires Elsewhere(w, v, l, x) && forall m :: m in w.lists && (m.Delayed? || m.Waiting?) ==> w.Sorted(m)
    requires l in w.lists && ((l.Delayed? || l.Waiting?) ==> v.Sorted(l))
    ensures forall m :: m in v.lists && (m.Delayed? || m.Waiting?) ==> v.Sorted(m)
  {
    forall m | m in v.lists && (m.Delayed? || m.Waiting?)
      ensures v.Sorted(m)
    {
      if m != l {
        SameListSorted(w, v, m);
      }
    }
  }

  lemma SetValueKeeps(cfg: Config, w: World, priority: map<Id, nat>, hand: Hand, x: Item, n: nat)
    requires Structure(cfg, w, priority, hand) && x !in w.container && x.Generic?
    ensures Structure(cfg, w.SetValue(x, n), priority, hand)
  {
    hide Placed;
    var v := w.SetValue(x, n);
    forall l | l in v.lists && (l.Delayed? || l.Waiting?)
      ensures v.Sorted(l)
    {
      NewItemKeepsSorted(w, v, l, x);
    }
    forall d | d in priority
      ensures Placed(v, priority, hand, d) && v.Value(Event(d)) == w.Value(Event(d))
    {
      SamePlaces(w, v, priority, hand, d);
    }
  }

  lemma SamePlaces(w: World, v: World, priority: map<Id, nat>, hand: Hand, d: Id)
    requires d in priority && Placed(w, priority, hand, d) && v.container == w.container
    ensures Placed(v, priority, hand, d)
  {
  }

  /** A step about the items of one co-routine leaves the times of the others alone. */
  lemma OthersKeepTime(cfg: Config, w: World, v: World, priority: map<Id, nat>, clock: Clock, current: bool,
                       log: seq<Entry>, 
                       floor: nat, l: ListId, x: Item)
    requires Timing(cfg, w, priority, clock, current, log, floor)
    requires Elsewhere(w, v, l, x)
    requires x.Event? || Timed(cfg, v, clock, current, log, floor, x.owner)
    ensures Timing(cfg, v, priority, clock, current, log, floor)
  {
    forall c | c in priority
      ensures Timed(cfg, v, clock, current, log, floor, c)
    {
      assert Timed(cfg, w, clock, current, log, floor, c);
    }
  }

  lemma {:induction false} DistinctBound(s: seq<Item>, ids: set<Id>, generic: bool)
    requires Distinct(s)
    requires forall x :: x in s ==> x.owner in ids && x.Generic? == generic
    ensures |s| <= |ids|
  {
    if s != [] {
      var n := |s| - 1;
      assert s[n] in s;
      forall x | x in s[..n]
        ensures x.owner in ids - {s[n].owner}
      {
        assert x in s;
      }
      DistinctBound(s[..n], ids - {s[n].owner}, generic);
    }
  }

  /** With fewer co-routines than the counter can tell apart, the emptiness test is right. */
  lemma EmptyIsEmpty(cfg: Config, w: World, priority: map<Id, nat>, hand: Hand, l: ListId)
    requires Structure(cfg, w, priority, hand) && cfg.HasList(l)
    ensures w.Has(l)
    ensures w.Empty(l) <==> w.lists[l].items == []
    ensures |w.lists[l].items| <= |priority|
  {
    hide Structure;
    CountedList(cfg, w, priority, hand, l);
    var s := w.lists[l].items;
    forall x | x in s
      ensures x.owner in priority.Keys && x.Generic? == (l.Ready? || l.Delayed?)
    {
      ItemOn(cfg, w, priority, hand, l, x);
    }
    DistinctBound(s, priority.Keys, l.Ready? || l.Delayed?);
  }

  lemma CountedList(cfg: Config, w: World, priority: map<Id, nat>, hand: Hand, l: ListId)
    requires Structure(cfg, w, priority, hand) && cfg.HasList(l)
    ensures w.Has(l) && |priority| < COUNT_MODULUS
    ensures forall i, j :: 0 <= i < j < |w.lists[l].items| ==> w.lists[l].items[i] != w.lists[l].items[j]
  {
  }

  lemma ItemOn(cfg: Config, w: World, priority: map<Id, nat>, hand: Hand, l: ListId, x: Item)
    requires Structure(cfg, w, priority, hand) && cfg.HasList(l) && w.Has(l) && x in w.lists[l].items
    ensures x.owner in priority.Keys && x.Generic? == (l.Ready? || l.Delayed?)
  {
    assert w.On(x, l);
    assert Placed(w, priority, hand, x.owner);
  }
}
