/** The steps of the scheduler on values, and what each of them keeps. */
module CoRoutineSteps {
  import opened Rings
  import opened ListWorlds
  import opened WakeLogs
  import opened CoRoutineInvariants
  import opened Wrappers

  /** The scheduler's variables; `base` is the time of the last tick wrap. */
  datatype State = State(
    world: World,
    priority: map<Id, nat>,
    current: Option<Id>,
    top: nat,
    base: nat,
    tick: nat,
    delayed: bool,
    log: seq<Entry>)
  {
    function Now(): nat { base + tick }
  }

  /** What holds wherever an interrupt can come: `hand` is in transit, and sleeps that end
      before `floor` have been dealt with. */
  ghost predicate Inv(cfg: Config, s: State, hand: Hand, floor: nat) {
    && Structure(cfg, s.world, s.priority, hand)
    && Timing(cfg, s.world, s.priority, Clock(s.base, s.tick), s.delayed, s.log, floor)
    && TopBounds(cfg, s.world, s.top)
    && s.base % cfg.ticks == 0
    && s.current.Some? && s.current.value in s.priority
    && (hand.Holding? ==> hand.id in s.priority)
  }

  /** `higher` tells whether `c` has at least the priority of the current co-routine. */
  ghost predicate HigherThanCurrent(s: State, c: Id, higher: bool) {
    && c in s.priority && s.current.Some? && s.current.value in s.priority
    && (higher <==> s.priority[c] >= s.priority[s.current.value])
  }

  /** The first co-routine waiting for event `q` is pending now; `higher` tells how its priority
      compares. */
  ghost predicate Unblocked(before: State, after: State, q: nat, higher: bool) {
    && CanUnblock(before.world, q)
    && after == before.(world := Unblock(before.world, q))
    && HigherThanCurrent(before, before.world.lists[Waiting(q)].items[0].owner, higher)
  }

  lemma CurrentIsKnown(cfg: Config, s: State, hand: Hand, floor: nat)
    requires Inv(cfg, s, hand, floor)
    ensures s.current.Some? && s.current.value in s.priority
    ensures s.tick < cfg.ticks
  {
  }

  lemma UnblockStep(cfg: Config, s: State, hand: Hand, floor: nat, q: nat)
    requires Inv(cfg, s, hand, floor) && CanUnblock(s.world, q)
    ensures Inv(cfg, s.(world := Unblock(s.world, q)), hand, floor)
    ensures EventStepOnly(s.world, Unblock(s.world, q)) && Signalled(s.world, Unblock(s.world, q), q)
    ensures EventMoved(s.world, Unblock(s.world, q), s.world.lists[Waiting(q)].items[0], q)
    ensures var x := s.world.lists[Waiting(q)].items[0];
            && x == Event(x.owner) && x.owner in s.priority && s.world.Holds(x)
            && s.world.Remove(x).Has(Pending) && x !in s.world.Remove(x).container
  {
    var w, x := s.world, s.world.lists[Waiting(q)].items[0];
    var u := Unblock(w, q);
    RemoveKeeps(w, x);
    UnblockMoves(w, q);
    UnblockIsSignal(w, q);
    EventMoveKeeps(cfg, s.world, u, s.priority, hand, x, q);
    EventMoveIsEventStep(cfg, s.world, u, s.priority, hand, x, q);
    EventStepKeepsTiming(cfg, s.world, u, s.priority, Clock(s.base, s.tick), s.delayed, s.log, floor);
  }

  /** When the event list is not empty, its head can be unblocked. */
  lemma EventWaits(cfg: Config, s: State, hand: Hand, floor: nat, q: nat)
    requires Inv(cfg, s, hand, floor) && q < cfg.queues
    ensures s.world.Has(Waiting(q)) && Pending in s.world.lists
    ensures s.world.Empty(Waiting(q)) <==> s.world.lists[Waiting(q)].items == []
    ensures !s.world.Empty(Waiting(q)) ==> CanUnblock(s.world, q)
  {
    EmptyIsEmpty(cfg, s.world, s.priority, hand, Waiting(q));
    var items := s.world.lists[Waiting(q)].items;
    if items != [] {
      assert items[0] in items;
    }
  }

  predicate ReadyListIsThere(s: State, c: Id) {
    c in s.priority && s.world.Has(Ready(s.priority[c]))
  }

  /** prvAddCoRoutineToReadyQueue */
  function Readied(s: State, c: Id): State
    requires ReadyListIsThere(s, c)
  {
    s.(world := s.world.InsertEnd(Ready(s.priority[c]), Generic(c)),
       top := if s.priority[c] > s.top then s.priority[c] else s.top)
  }

  lemma ReadyStep(cfg: Config, s: State, c: Id, floor: nat)
    requires Inv(cfg, s, Holding(c, false), floor) && StateOf(s.log, c) == Awake
    ensures ReadyListIsThere(s, c) && s.world.Has(Ready(s.priority[c])) && Generic(c) !in s.world.container
    ensures Inv(cfg, Readied(s, c), Nobody, floor)
    ensures Elsewhere(s.world, Readied(s, c).world, Ready(s.priority[c]), Generic(c))
    ensures Readied(s, c).world.On(Generic(c), Ready(s.priority[c]))
  {
    hide Structure, Timing;
    var l := Ready(s.priority[c]);
    HeldIsFree(cfg, s.world, s.priority, c);
    InsertEndKeeps(s.world, l, Generic(c));
    var v := Readied(s, c).world;
    InsertGenericKeeps(cfg, s.world, v, s.priority, c, l);
    OthersKeepTime(cfg, s.world, v, s.priority, Clock(s.base, s.tick), s.delayed, s.log, floor, l, Generic(c));
    TopStep(cfg, s.world, v, s.top, s.priority, Holding(c, false), c);
  }

  lemma HeldIsFree(cfg: Config, w: World, priority: map<Id, nat>, c: Id)
    requires Structure(cfg, w, priority, Holding(c, false)) && c in priority
    ensures Generic(c) !in w.container && Event(c) !in w.container && w.Valid()
    ensures w.Has(Ready(priority[c])) && w.Has(Delayed(false)) && w.Has(Delayed(true))
    ensures w.Sorted(Delayed(false)) && w.Sorted(Delayed(true))
  {
    assert Placed(w, priority, Holding(c, false), c);
  }

  lemma TopStep(cfg: Config, w: World, v: World, top: nat, priority: map<Id, nat>, hand: Hand, c: Id)
    requires TopBounds(cfg, w, top) && Structure(cfg, w, priority, hand) && c in priority
    requires Elsewhere(w, v, Ready(priority[c]), Generic(c))
    ensures TopBounds(cfg, v, if priority[c] > top then priority[c] else top)
  {
  }

  /** A ready co-routine waits for no event. */
  lemma ReadyIsAwake(cfg: Config, s: State, floor: nat, c: Id)
    requires Inv(cfg, s, Nobody, floor) && c in s.priority && s.world.On(Generic(c), Ready(s.priority[c]))
    ensures Event(c) !in s.world.container && StateOf(s.log, c) == Awake
  {
    assert Placed(s.world, s.priority, Nobody, c);
    assert Timed(cfg, s.world, Clock(s.base, s.tick), s.delayed, s.log, floor, c);
  }

  /** The emptiness tests of the scheduler are right. */
  lemma EmptyTest(cfg: Config, s: State, hand: Hand, floor: nat, l: ListId)
    requires Inv(cfg, s, hand, floor) && cfg.HasList(l)
    ensures s.world.Has(l)
    ensures s.world.Empty(l) <==> s.world.lists[l].items == []
  {
    EmptyIsEmpty(cfg, s.world, s.priority, hand, l);
  }

  /** A sleeper whose sleep has not ended may be woken by an event. */
  lemma MayWake(cfg: Config, s: State, c: Id)
    requires Inv(cfg, s, Nobody, s.Now() + 1) && c in s.priority
    requires s.world.On(Generic(c), Delayed(false)) || s.world.On(Generic(c), Delayed(true))
    ensures Punctual(s.log + [WokeByEvent(c, s.Now())])
  {
    assert Timed(cfg, s.world, Clock(s.base, s.tick), s.delayed, s.log, s.Now() + 1, c);
    Extended(s.log, WokeByEvent(c, s.Now()));
  }

  /** Taking an event item off the list it is on. */
  lemma TakeEventStep(cfg: Config, s: State, hand: Hand, floor: nat, c: Id)
    requires Inv(cfg, s, hand, floor) && Event(c) in s.world.container
    requires hand.Holding? ==> hand.id == c
    ensures s.world.Holds(Event(c)) && c in s.priority
    ensures var l, v := s.world.container[Event(c)], s.world.Remove(Event(c));
            && Inv(cfg, s.(world := v), if hand.Holding? then Holding(c, false) else Nobody, floor)
            && Elsewhere(s.world, v, l, Event(c)) && Event(c) !in v.container
            && (l == Pending || l.Waiting?)
  {
    hide Structure, Timing, World.Valid, World.Sorted;
    EventItemIsThere(cfg, s.world, s.priority, hand, c);
    var l, v := s.world.container[Event(c)], s.world.Remove(Event(c));
    RemoveKeeps(s.world, Event(c));
    if l.Waiting? {
      RemoveKeepsSorted(s.world, Event(c));
    }
    RemoveEventKeeps(cfg, s.world, v, s.priority, hand, c, l);
    OthersKeepTime(cfg, s.world, v, s.priority, Clock(s.base, s.tick), s.delayed, s.log, floor, l, Event(c));
  }

  lemma EventItemIsThere(cfg: Config, w: World, priority: map<Id, nat>, hand: Hand, c: Id)
    requires Structure(cfg, w, priority, hand) && Event(c) in w.container && (hand.Holding? ==> hand.id == c)
    ensures w.Valid() && w.Holds(Event(c)) && c in priority && Pending in w.lists && w.lists[Pending].index == 0
    ensures var l := w.container[Event(c)]; l == Pending || (l.Waiting? && w.Sorted(l))
  {
    assert w.On(Event(c), w.container[Event(c)]);
    assert Placed(w, priority, hand, c);
  }

  /** Taking a generic item off the list it is on. */
  lemma TakeGenericStep(cfg: Config, s: State, floor: nat, c: Id)
    requires Inv(cfg, s, Nobody, floor) && c in s.priority
    ensures s.world.Holds(Generic(c))
    ensures var l, v := s.world.container[Generic(c)], s.world.Remove(Generic(c));
            && Inv(cfg, s.(world := v), Holding(c, Event(c) in v.container), floor)
            && Elsewhere(s.world, v, l, Generic(c)) && Generic(c) !in v.container
            && (l.Delayed? || (l == Ready(s.priority[c]) && Event(c) !in v.container))
            && l in v.lists && |v.lists[l].items| == |s.world.lists[l].items| - 1
  {
    hide Structure, Timing, World.Valid, World.Sorted;
    GenericItemIsThere(cfg, s.world, s.priority, c);
    var l, v := s.world.container[Generic(c)], s.world.Remove(Generic(c));
    RemoveKeeps(s.world, Generic(c));
    if l.Delayed? {
      RemoveKeepsSorted(s.world, Generic(c));
    }
    RemoveGenericKeeps(cfg, s.world, v, s.priority, c, l);
    OthersKeepTime(cfg, s.world, v, s.priority, Clock(s.base, s.tick), s.delayed, s.log, floor, l, Generic(c));
  }

  lemma GenericItemIsThere(cfg: Config, w: World, priority: map<Id, nat>, c: Id)
    requires Structure(cfg, w, priority, Nobody) && c in priority
    ensures w.Valid() && w.Holds(Generic(c))
    ensures var l := w.container[Generic(c)];
            if l.Delayed? then w.Sorted(l) else l == Ready(priority[c]) && Event(c) !in w.container
  {
    assert Placed(w, priority, Nobody, c);
    assert w.On(Generic(c), w.container[Generic(c)]);
  }

  /** Writing down what has happened to the held co-routine. */
  lemma LogStep(cfg: Config, s: State, floor: nat, e: Entry)
    requires Inv(cfg, s, Holding(e.id, false), floor)
    requires Punctual(s.log + [e])
    ensures Inv(cfg, s.(log := s.log + [e]), Holding(e.id, false), floor)
    ensures StateOf(s.log + [e], e.id) == if e.Slept? then Asleep(e.at, e.ticks) else Awake
  {
    Extended(s.log, e);
    HeldIsFree(cfg, s.world, s.priority, e.id);
    forall c | c in s.priority
      ensures Timed(cfg, s.world, Clock(s.base, s.tick), s.delayed, s.log + [e], floor, c)
    {
      assert Timed(cfg, s.world, Clock(s.base, s.tick), s.delayed, s.log, floor, c);
    }
  }

  /** Setting the wake value of the held co-routine. */
  lemma SetWakeStep(cfg: Config, s: State, floor: nat, c: Id, n: nat)
    requires Inv(cfg, s, Holding(c, false), floor)
    ensures Inv(cfg, s.(world := s.world.SetValue(Generic(c), n)), Holding(c, false), floor)
    ensures s.world.SetValue(Generic(c), n).Value(Generic(c)) == n
    ensures s.world.SetValue(Generic(c), n).container == s.world.container && Generic(c) !in s.world.container
  {
    hide Structure;
    HeldIsFree(cfg, s.world, s.priority, c);
    SetValueKeeps(cfg, s.world, s.priority, Holding(c, false), Generic(c), n);
    var v := s.world.SetValue(Generic(c), n);
    forall d | d in s.priority
      ensures Timed(cfg, v, Clock(s.base, s.tick), s.delayed, s.log, floor, d)
    {
      assert Timed(cfg, s.world, Clock(s.base, s.tick), s.delayed, s.log, floor, d);
    }
  }

  /** Putting the held co-routine on the delayed list that its wake value stands for. */
  lemma DelayStep(cfg: Config, s: State, floor: nat, c: Id, ticks: nat, value: nat, l: bool)
    requires Inv(cfg, s, Holding(c, false), floor)
    requires StateOf(s.log, c) == Asleep(s.Now(), ticks) && s.Now() < floor <= s.Now() + ticks
    requires s.world.Value(Generic(c)) == value
    requires Due(cfg, Clock(s.base, s.tick), l != s.delayed, value, s.Now(), ticks)
    ensures s.world.Has(Delayed(l)) && s.world.Sorted(Delayed(l)) && Generic(c) !in s.world.container
    ensures var v := s.world.Insert(Delayed(l), Generic(c));
            && Inv(cfg, s.(world := v), Nobody, floor)
            && v.On(Generic(c), Delayed(l)) && Elsewhere(s.world, v, Delayed(l), Generic(c))
            && v.Value(Generic(c)) == value && Event(c) !in v.container
            && Generic(c) in v.container && v.container[Generic(c)].Delayed?
  {
    hide Structure, Timing, World.Valid, World.Sorted;
    HeldIsFree(cfg, s.world, s.priority, c);
    InsertKeeps(s.world, Delayed(l), Generic(c));
    var v := s.world.Insert(Delayed(l), Generic(c));
    InsertGenericKeeps(cfg, s.world, v, s.priority, c, Delayed(l));
    OthersKeepTime(cfg, s.world, v, s.priority, Clock(s.base, s.tick), s.delayed, s.log, floor, Delayed(l), Generic(c));
  }

  /** Also putting a sleeping co-routine on an event list. */
  lemma WaitStep(cfg: Config, s: State, floor: nat, c: Id, q: nat)
    requires Inv(cfg, s, Nobody, floor) && c in s.priority && q < cfg.queues
    requires Event(c) !in s.world.container && Generic(c) in s.world.container
    requires s.world.container[Generic(c)].Delayed?
    ensures s.world.Has(Waiting(q)) && s.world.Sorted(Waiting(q))
    ensures var v := s.world.Insert(Waiting(q), Event(c));
            && Inv(cfg, s.(world := v), Nobody, floor)
            && v.On(Event(c), Waiting(q)) && Elsewhere(s.world, v, Waiting(q), Event(c))
            && v.Value(Generic(c)) == s.world.Value(Generic(c)) && v.On(Generic(c), s.world.container[Generic(c)])
  {
    hide Structure, Timing, World.Valid, World.Sorted;
    EventListIsThere(cfg, s.world, s.priority, Nobody, q);
    InsertKeeps(s.world, Waiting(q), Event(c));
    var v := s.world.Insert(Waiting(q), Event(c));
    InsertEventKeeps(cfg, s.world, v, s.priority, c, q);
    OthersKeepTime(cfg, s.world, v, s.priority, Clock(s.base, s.tick), s.delayed, s.log, floor, Waiting(q), Event(c));
  }

  lemma EventListIsThere(cfg: Config, w: World, priority: map<Id, nat>, hand: Hand, q: nat)
    requires Structure(cfg, w, priority, hand) && q < cfg.queues
    ensures w.Valid() && w.Has(Waiting(q)) && w.Sorted(Waiting(q))
  {
  }

  /** One tick that does not wrap. */
  lemma TickStep(cfg: Config, s: State)
    requires Inv(cfg, s, Nobody, s.Now() + 1) && s.tick + 1 < cfg.ticks
    ensures Inv(cfg, s.(tick := s.tick + 1), Nobody, s.Now() + 1)
  {
    hide Structure;
    var t := s.(tick := s.tick + 1);
    forall c | c in s.priority
      ensures Timed(cfg, t.world, Clock(t.base, t.tick), t.delayed, t.log, s.Now() + 1, c)
    {
      assert Timed(cfg, s.world, Clock(s.base, s.tick), s.delayed, s.log, s.Now() + 1, c);
    }
  }

  /** What is left on the current delayed list at the last tick before a wrap: only delays of zero
      asked for at this very tick. */
  ghost predicate Drained(cfg: Config, s: State) {
    forall c :: Generic(c) in s.world.container && s.world.container[Generic(c)] == Delayed(s.delayed) ==>
      StateOf(s.log, c) == Asleep(s.Now(), 2 * cfg.ticks)
  }

  lemma OutgoingIsDrained(cfg: Config, s: State)
    requires Inv(cfg, s, Nobody, s.Now() + 1) && s.tick + 1 == cfg.ticks
    ensures Drained(cfg, s)
  {
    forall c | Generic(c) in s.world.container && s.world.container[Generic(c)] == Delayed(s.delayed)
      ensures StateOf(s.log, c) == Asleep(s.Now(), 2 * cfg.ticks)
    {
      assert Timed(cfg, s.world, Clock(s.base, s.tick), s.delayed, s.log, s.Now() + 1, c);
    }
  }

  /** One tick that wraps: only delays of zero are left on the outgoing list, and the overflow list
      is in force. */
  lemma WrapStep(cfg: Config, s: State)
    requires Inv(cfg, s, Nobody, s.Now() + 1) && s.tick + 1 == cfg.ticks
    ensures Drained(cfg, s)
    ensures Inv(cfg, s.(tick := 0, base := s.base + cfg.ticks, delayed := !s.delayed), Nobody, s.Now() + 1)
  {
    hide Drained, Due, Structure;
    OutgoingIsDrained(cfg, s);
    var t := s.(tick := 0, base := s.base + cfg.ticks, delayed := !s.delayed);
    forall c | c in s.priority
      ensures Timed(cfg, t.world, Clock(t.base, t.tick), t.delayed, t.log, s.Now() + 1, c)
    {
      assert Timed(cfg, s.world, Clock(s.base, s.tick), s.delayed, s.log, s.Now() + 1, c);
      var sleep := StateOf(s.log, c);
      if Generic(c) in s.world.container && s.world.container[Generic(c)].Delayed? {
        DueWraps(cfg, Clock(s.base, s.tick), s.world.Value(Generic(c)), sleep.since, sleep.ticks);
      }
    }
    WholeTurns(s.base, cfg.ticks);
  }

  /** At a wrap, a wake value that has not been dealt with stands for the same end of sleep. */
  lemma DueWraps(cfg: Config, clock: Clock, value: nat, since: nat, ticks: nat)
    requires clock.tick + 1 == cfg.ticks && since <= clock.Now() < since + ticks
    ensures forall overflow :: Due(cfg, clock, overflow, value, since, ticks) ==>
              Due(cfg, Clock(clock.base + cfg.ticks, 0), !overflow, value, since, ticks)
  {
  }

  lemma WholeTurns(base: nat, m: nat)
    requires m > 0 && base % m == 0
    ensures (base + m) % m == 0
  {
    var k := base / m;
    assert base + m == (k + 1) * m;
    MultipleHasNoRest(k + 1, m);
  }

  lemma {:induction false} MultipleHasNoRest(k: nat, m: nat)
    requires m > 0
    ensures k * m % m == 0
  {
    var q := k * m / m;
    assert q * m <= k * m < (q + 1) * m;
    assert q == k;
  }

  /** The head of the current delayed list, when there is one: a sleeper, whose sleep ends at
      the time its value stands for. */
  lemma HeadStep(cfg: Config, s: State, floor: nat)
    requires Inv(cfg, s, Nobody, floor)
    requires s.world.Has(Delayed(s.delayed)) ==> s.world.lists[Delayed(s.delayed)].items != []
    ensures s.world.Has(Delayed(s.delayed)) && s.world.lists[Delayed(s.delayed)].items != []
    ensures var x := s.world.lists[Delayed(s.delayed)].items[0];
            var sleep := StateOf(s.log, x.owner);
            && x == Generic(x.owner) && x.owner in s.priority && s.world.On(x, Delayed(s.delayed))
            && sleep.Asleep? && sleep.since < floor <= sleep.since + sleep.ticks
            && Due(cfg, Clock(s.base, s.tick), false, s.world.Value(x), sleep.since, sleep.ticks)
  {
    var x := s.world.lists[Delayed(s.delayed)].items[0];
    assert s.world.On(x, Delayed(s.delayed));
    assert Placed(s.world, s.priority, Nobody, x.owner);
    assert Timed(cfg, s.world, Clock(s.base, s.tick), s.delayed, s.log, floor, x.owner);
  }

  /** Once the head of the current delayed list is above the tick count, or there is none, the
      current tick has been dealt with. */
  lemma TickDoneStep(cfg: Config, s: State)
    requires Inv(cfg, s, Nobody, s.Now())
    requires s.world.Has(Delayed(s.delayed)) ==>
               var items := s.world.lists[Delayed(s.delayed)].items;
               items == [] || s.tick < s.world.Value(items[0])
    ensures Inv(cfg, s, Nobody, s.Now() + 1)
  {
    var l := Delayed(s.delayed);
    var items := s.world.lists[l].items;
    assert s.world.Sorted(l);
    forall c | c in s.priority
      ensures Timed(cfg, s.world, Clock(s.base, s.tick), s.delayed, s.log, s.Now() + 1, c)
    {
      assert Timed(cfg, s.world, Clock(s.base, s.tick), s.delayed, s.log, s.Now(), c);
      if s.world.On(Generic(c), l) {
        assert Generic(c) in items;
        var i :| 0 <= i < |items| && items[i] == Generic(c);
        assert s.world.Values(items)[0] <= s.world.Values(items)[i];
      }
    }
  }

  /** Walking down from the top, past an empty ready list. */
  lemma LowerTopStep(cfg: Config, s: State, hand: Hand, floor: nat)
    requires Inv(cfg, s, hand, floor) && s.top > 0
    requires s.world.Has(Ready(s.top)) ==> s.world.lists[Ready(s.top)].items == []
    ensures Inv(cfg, s.(top := s.top - 1), hand, floor)
  {
  }

  /** The ready list of the top priority has been walked to `r`, and `c` is current. */
  function Walked(s: State, r: Ring<Item>, c: Id): State {
    s.(world := s.world.(lists := s.world.lists[Ready(s.top) := r]), current := Some(c))
  }

  /** Advancing the index of a ready list. */
  lemma WalkStep(cfg: Config, s: State, floor: nat)
    requires Inv(cfg, s, Nobody, floor)
    requires s.world.Has(Ready(s.top)) && s.world.lists[Ready(s.top)].items != []
    ensures var r := s.world.lists[Ready(s.top)].Next();
            && r.Valid() && r.index > 0 && r.Current() in s.world.lists[Ready(s.top)].items
            && r.Current() == Generic(r.Current().owner)
            && r.Current().owner in s.priority && s.priority[r.Current().owner] == s.top
            && s.world.On(r.Current(), Ready(s.top))
            && Inv(cfg, Walked(s, r, r.Current().owner), Nobody, floor)
  {
    hide Structure;
    var l := Ready(s.top);
    var r := s.world.lists[l].Next();
    assert r.Current() in r.items;
    ReadyItemIsThere(cfg, s.world, s.priority, s.top, r.Current());
    var v := s.world.(lists := s.world.lists[l := r]);
    WalkKeepsStructure(cfg, s.world, v, s.priority, l, r);
    forall d | d in s.priority
      ensures Timed(cfg, v, Clock(s.base, s.tick), s.delayed, s.log, floor, d)
    {
      assert Timed(cfg, s.world, Clock(s.base, s.tick), s.delayed, s.log, floor, d);
    }
  }

  lemma ReadyItemIsThere(cfg: Config, w: World, priority: map<Id, nat>, p: nat, x: Item)
    requires Structure(cfg, w, priority, Nobody) && Ready(p) in w.lists && x in w.lists[Ready(p)].items
    ensures w.On(x, Ready(p)) && x == Generic(x.owner) && x.owner in priority && priority[x.owner] == p
  {
    assert w.On(x, Ready(p));
    assert Placed(w, priority, Nobody, x.owner);
  }

  lemma WalkKeepsStructure(cfg: Config, w: World, v: World, priority: map<Id, nat>, l: ListId, r: Ring<Item>)
    requires Structure(cfg, w, priority, Nobody) && l.Ready? && l in w.lists
    requires r.Valid() && r.items == w.lists[l].items && v == w.(lists := w.lists[l := r])
    ensures Structure(cfg, v, priority, Nobody)
  {
    hide Placed;
    forall m | m in v.lists && (m.Delayed? || m.Waiting?)
      ensures v.Sorted(m)
    {
      SameListSorted(w, v, m);
    }
    forall d | d in priority
      ensures Placed(v, priority, Nobody, d) && v.Value(Event(d)) == w.Value(Event(d))
    {
      SamePlaces(w, v, priority, Nobody, d);
    }
  }

  /** The invariant, but for the current co-routine, which may be the one to be created. */
  ghost predicate MayCreate(cfg: Config, s: State, floor: nat, c: Id) {
    && Structure(cfg, s.world, s.priority, Nobody)
    && Timing(cfg, s.world, s.priority, Clock(s.base, s.tick), s.delayed, s.log, floor)
    && TopBounds(cfg, s.world, s.top) && s.base % cfg.ticks == 0
    && s.current.Some? && (s.current.value in s.priority || s.current.value == c)
    && c !in s.priority
  }

  lemma InvMayCreate(cfg: Config, s: State, floor: nat, c: Id)
    requires Inv(cfg, s, Nobody, floor) && c !in s.priority
    ensures MayCreate(cfg, s, floor, c)
  {
  }

  lemma PrioritiesExist(cfg: Config, s: State, floor: nat, c: Id)
    requires MayCreate(cfg, s, floor, c)
    ensures 0 < cfg.priorities < cfg.ticks
  {
  }

  /** A new control block: it is in no list yet, and awake. */
  lemma CreateStep(cfg: Config, s: State, floor: nat, c: Id, p: nat)
    requires MayCreate(cfg, s, floor, c)
    requires p < cfg.priorities && |s.priority| + 1 < COUNT_MODULUS
    ensures var w, m := s.world.SetValue(Event(c), cfg.priorities - p), s.priority[c := p];
            && Inv(cfg, s.(world := w, priority := m), Holding(c, false), floor)
            && Event(c) !in w.container && Event(c) !in s.world.container
    ensures StateOf(s.log, c) == Awake
  {
    var w, m := s.world.SetValue(Event(c), cfg.priorities - p), s.priority[c := p];
    CreateKeepsItems(cfg, s.world, s.priority, c, p, w, m);
    CreateKeepsLists(cfg, s.world, c, w);
    CreateKeepsTiming(cfg, s, floor, c, w, m);
  }

  lemma CreateKeepsTiming(cfg: Config, s: State, floor: nat, c: Id, w: World, m: map<Id, nat>)
    requires Timing(cfg, s.world, s.priority, Clock(s.base, s.tick), s.delayed, s.log, floor)
    requires w.container == s.world.container && Generic(c) !in w.container && c in m
    requires forall d :: d != c ==> (d in m <==> d in s.priority) && w.Value(Generic(d)) == s.world.Value(Generic(d))
    ensures Timing(cfg, w, m, Clock(s.base, s.tick), s.delayed, s.log, floor)
  {
    forall d | d in m
      ensures Timed(cfg, w, Clock(s.base, s.tick), s.delayed, s.log, floor, d)
    {
      assert d != c ==> Timed(cfg, s.world, Clock(s.base, s.tick), s.delayed, s.log, floor, d);
    }
    forall d | d !in m
      ensures StateOf(s.log, d) == Awake
    {
    }
  }

  lemma CreateKeepsLists(cfg: Config, w: World, c: Id, v: World)
    requires ListsInOrder(cfg, w) && Event(c) !in w.container
    requires v.lists == w.lists && v.container == w.container && forall x :: x != Event(c) ==> v.Value(x) == w.Value(x)
    ensures ListsInOrder(cfg, v)
  {
    hide World.Valid, World.Sorted, World.Value;
    SameListsValid(w, v);
    forall l | l in v.lists && (l.Delayed? || l.Waiting?)
      ensures v.Sorted(l)
    {
      NewItemKeepsSorted(w, v, l, Event(c));
    }
  }

  lemma CreateKeepsItems(cfg: Config, w: World, priority: map<Id, nat>, c: Id, p: nat, v: World, m: map<Id, nat>)
    requires ItemsInOrder(cfg, w, priority, Nobody) && c !in priority
    requires p < cfg.priorities && |priority| + 1 < COUNT_MODULUS && m == priority[c := p]
    requires v.container == w.container && v.Value(Event(c)) == cfg.priorities - p
    requires forall x :: x != Event(c) ==> v.Value(x) == w.Value(x)
    ensures ItemsInOrder(cfg, v, m, Holding(c, false)) && Generic(c) !in v.container && Event(c) !in v.container
  {
    hide Placed, World.Value;
    assert m.Keys == priority.Keys + {c};
    forall d | d in m
      ensures m[d] < cfg.priorities && Placed(v, m, Holding(c, false), d) && v.Value(Event(d)) == cfg.priorities - m[d]
    {
      if d != c {
        CreatedStaysPlaced(w, priority, c, v, m, d);
      } else {
        CreatedIsPlaced(v, m, c);
      }
    }
  }

  lemma SameListsValid(w: World, v: World)
    requires w.Valid() && v.lists == w.lists && v.container == w.container
    ensures v.Valid()
  {
  }

  lemma CreatedIsPlaced(v: World, m: map<Id, nat>, c: Id)
    requires c in m && Generic(c) !in v.container && Event(c) !in v.container
    ensures Placed(v, m, Holding(c, false), c)
  {
  }

  lemma CreatedStaysPlaced(w: World, priority: map<Id, nat>, c: Id, v: World, m: map<Id, nat>, d: Id)
    requires d in priority && Placed(w, priority, Nobody, d) && d != c
    requires v.container == w.container && d in m && m[d] == priority[d]
    ensures Placed(v, m, Holding(c, false), d)
  {
  }

  /** Before any co-routine has been created: only the queues have their event lists. */
  ghost predicate Unused(cfg: Config, s: State) {
    && cfg.Valid() && s.current == None && s.priority == map[] && s.log == []
    && s.top == 0 && s.tick == 0 && s.base == 0
    && s.world.container == map[]
    && (forall l :: l in s.world.lists <==> l.Waiting? && l.queue < cfg.queues)
    && (forall l :: l in s.world.lists ==> s.world.lists[l] == Ring([], 0))
  }

  /** prvInitialiseCoRoutineLists */
  function Initialised(cfg: Config, w: World): World {
    w.(lists := w.lists
                + (map p: nat | 0 <= p < cfg.priorities :: Ready(p) := Ring([], 0))
                + map[Delayed(false) := Ring([], 0), Delayed(true) := Ring([], 0), Pending := Ring([], 0)])
  }

  lemma InitialStep(cfg: Config, s: State, c: Id)
    requires Unused(cfg, s)
    ensures MayCreate(cfg, s.(world := Initialised(cfg, s.world), current := Some(c), delayed := false), 1, c)
    ensures s.Now() == 0
  {
    hide Structure, Timing, TopBounds, Initialised, Unused;
    InitialisedLists(cfg, s);
    EmptyListsKeep(cfg, Initialised(cfg, s.world));
  }

  /** The world with the first `n` ready lists. */
  ghost function WithReady(w: World, n: nat): World {
    if n == 0 then w else
      var v := WithReady(w, n - 1);
      v.(lists := v.lists[Ready(n - 1) := Ring([], 0)])
  }

  lemma {:induction false} WithReadyIs(w: World, n: nat)
    requires forall l :: l in w.lists ==> l.Waiting?
    ensures WithReady(w, n).container == w.container && WithReady(w, n).value == w.value
    ensures forall l :: l in WithReady(w, n).lists <==> l in w.lists || (l.Ready? && l.priority < n)
    ensures forall l :: l in WithReady(w, n).lists ==>
              WithReady(w, n).lists[l] == if l in w.lists then w.lists[l] else Ring([], 0)
  {
    if n > 0 {
      WithReadyIs(w, n - 1);
    }
  }

  lemma WithReadyNone(w: World)
    ensures WithReady(w, 0) == w
  {
  }

  lemma WithReadyNext(w: World, n: nat)
    requires forall l :: l in w.lists ==> l.Waiting?
    ensures Ready(n) !in WithReady(w, n).lists
    ensures WithReady(w, n + 1) == WithReady(w, n).(lists := WithReady(w, n).lists[Ready(n) := Ring([], 0)])
  {
    WithReadyIs(w, n);
  }

  lemma UnusedLists(cfg: Config, s: State)
    requires Unused(cfg, s)
    ensures cfg.Valid() && s.base == s.tick == 0 && forall l :: l in s.world.lists ==> l.Waiting?
  {
  }

  lemma InitialisedIs(cfg: Config, w: World)
    requires forall l :: l in w.lists ==> l.Waiting?
    ensures var v := WithReady(w, cfg.priorities);
            && Delayed(false) !in v.lists && Delayed(true) !in v.lists && Pending !in v.lists
            && Initialised(cfg, w).container == w.container
            && Initialised(cfg, w) ==
               v.(lists := v.lists[Delayed(false) := Ring([], 0)][Delayed(true) := Ring([], 0)][Pending := Ring([], 0)])
  {
    hide WithReady, Initialised;
    WithReadyIs(w, cfg.priorities);
    InitialisedRest(cfg, w);
    var v := WithReady(w, cfg.priorities);
    var lists := v.lists[Delayed(false) := Ring([], 0)][Delayed(true) := Ring([], 0)][Pending := Ring([], 0)];
    forall l
      ensures l in Initialised(cfg, w).lists <==> l in lists
      ensures l in lists ==> Initialised(cfg, w).lists[l] == lists[l]
    {
      InitialisedAt(cfg, w, l);
    }
    assert Initialised(cfg, w).lists == lists;
  }

  lemma InitialisedRest(cfg: Config, w: World)
    ensures Initialised(cfg, w).container == w.container && Initialised(cfg, w).value == w.value
  {
  }

  lemma InitialisedAt(cfg: Config, w: World, l: ListId)
    ensures var v := Initialised(cfg, w).lists;
            && (l in v <==> l in w.lists || (l.Ready? && l.priority < cfg.priorities) || l.Delayed? || l == Pending)
            && (l in v ==>
                  v[l] == if l.Waiting? || (l.Ready? && l.priority >= cfg.priorities) then w.lists[l] else Ring([], 0))
  {
  }

  lemma InitialisedLists(cfg: Config, s: State)
    requires Unused(cfg, s)
    ensures var w := Initialised(cfg, s.world);
            && cfg.Valid() && w.container == map[]
            && (forall l :: l in w.lists <==> cfg.HasList(l))
            && (forall l :: l in w.lists ==> w.lists[l] == Ring([], 0))
    ensures s.priority == map[] && s.log == [] && s.tick == 0 && s.base == 0 && s.top == 0
  {
    var w := Initialised(cfg, s.world);
    forall l
      ensures l in w.lists <==> cfg.HasList(l)
      ensures l in w.lists ==> w.lists[l] == Ring([], 0)
    {
    }
  }

  lemma EmptyListsKeep(cfg: Config, w: World)
    requires cfg.Valid() && w.container == map[]
    requires forall l :: l in w.lists <==> cfg.HasList(l)
    requires forall l :: l in w.lists ==> w.lists[l] == Ring([], 0)
    ensures Structure(cfg, w, map[], Nobody)
    ensures forall current :: Timing(cfg, w, map[], Clock(0, 0), current, [], 1)
    ensures TopBounds(cfg, w, 0)
  {
    forall l | l in w.lists && (l.Delayed? || l.Waiting?)
      ensures w.Sorted(l)
    {
    }
  }

  /** The co-routine that a scheduling decision must choose, and the state it leaves: the head
      of the queue of the highest ready list that is not empty, sent to the back of it. */
  ghost predicate Chosen(s: State, t: State) {
    && s.world.Has(Ready(t.top)) && t.world.Has(Ready(t.top)) && t.current.Some?
    && (forall p :: t.top < p && Ready(p) in s.world.lists ==> s.world.lists[Ready(p)].items == [])
    && var r := s.world.lists[Ready(t.top)];
       && r.items != [] && r.Queue()[0] == Generic(t.current.value)
       && t.world.lists[Ready(t.top)] == r.Next()
       && t.world.lists[Ready(t.top)].Queue() == r.Queue()[1..] + [r.Queue()[0]]
       && t == s.(top := t.top, current := t.current,
                  world := s.world.(lists := s.world.lists[Ready(t.top) := r.Next()]))
  }

  lemma ChosenStep(cfg: Config, s: State, s': State, floor: nat)
    requires Inv(cfg, s', Nobody, floor) && s' == s.(top := s'.top)
    requires s'.world.Has(Ready(s'.top)) && s'.world.lists[Ready(s'.top)].items != []
    ensures var r := s'.world.lists[Ready(s'.top)].Next();
            && r.Valid() && r.index > 0
            && var t := Walked(s', r, r.Current().owner);
               && Inv(cfg, t, Nobody, floor) && Chosen(s, t)
               && t.world.On(Generic(r.Current().owner), Ready(t.top)) && t.priority[r.Current().owner] == t.top
  {
    WalkStep(cfg, s', floor);
    NextRotates(s'.world.lists[Ready(s'.top)]);
  }

  /** Nobody is ready. */
  ghost predicate NobodyReady(s: State) {
    forall p: nat :: Ready(p) in s.world.lists ==> s.world.lists[Ready(p)].items == []
  }

  lemma NobodyReadyStep(cfg: Config, s: State, floor: nat)
    requires Inv(cfg, s, Nobody, floor) && s.top == 0
    requires s.world.Has(Ready(0)) ==> s.world.lists[Ready(0)].items == []
    ensures NobodyReady(s)
  {
    hide Timing, Punctual, ItemsInOrder, World.Sorted;
  }

  lemma InvIsPunctual(cfg: Config, s: State, floor: nat)
    requires Inv(cfg, s, Nobody, floor)
    ensures Punctual(s.log)
  {
  }

  /** Between the steps, a co-routine is ready while it is awake, and on a delayed list while it
      is asleep; nobody is asleep longer than asked for. */
  ghost predicate SleepsInTime(s: State, c: Id)
    requires c in s.priority
  {
    Generic(c) in s.world.container &&
    match StateOf(s.log, c)
    case Awake => s.world.container[Generic(c)] == Ready(s.priority[c])
    case Asleep(since, ticks) => s.world.container[Generic(c)].Delayed? && s.Now() < since + ticks
  }

  lemma NobodyOversleeps(cfg: Config, s: State)
    requires Inv(cfg, s, Nobody, s.Now() + 1)
    ensures forall c :: c in s.priority ==> SleepsInTime(s, c)
  {
    forall c | c in s.priority
      ensures SleepsInTime(s, c)
    {
      assert Placed(s.world, s.priority, Nobody, c);
      assert Timed(cfg, s.world, Clock(s.base, s.tick), s.delayed, s.log, s.Now() + 1, c);
    }
  }

  lemma TopIsPriority(cfg: Config, s: State, hand: Hand, floor: nat)
    requires Inv(cfg, s, hand, floor)
    ensures cfg.HasList(Ready(s.top)) && s.top < cfg.priorities && cfg.ticks > 1
  {
  }
}
