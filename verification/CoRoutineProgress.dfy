/** What the loops of the scheduler get done, whatever interrupts come in between. */
module CoRoutineProgress {
  import opened Rings
  import opened ListWorlds
  import opened WakeLogs
  import opened CoRoutineInvariants
  import opened CoRoutineSteps

  /** The co-routines that an interrupt could still unblock, or has unblocked. */
  ghost function Blocked(w: World, priority: map<Id, nat>): set<Id> {
    set c | c in priority && Event(c) in w.container
  }

  /** Between `w` and `v`, `c` has either been readied or has stayed as it was; a pending
      co-routine does not go back to an event list. */
  ghost predicate Forwarded(w: World, v: World, priority: map<Id, nat>, c: Id)
    requires c in priority
  {
    if Event(c) !in w.container then
      && Event(c) !in v.container
      && (Generic(c) in w.container ==> Generic(c) in v.container && v.container[Generic(c)] == w.container[Generic(c)])
    else if Event(c) in v.container then
      w.container[Event(c)] == Pending ==> v.container[Event(c)] == Pending
    else
      v.On(Generic(c), Ready(priority[c]))
  }

  ghost predicate AllForwarded(w: World, v: World, priority: map<Id, nat>, hand: Hand) {
    forall c :: c in priority && !Holds(hand, c) ==> Forwarded(w, v, priority, c)
  }

  lemma StillForwarded(w: World, v: World, u: World, priority: map<Id, nat>, hand: Hand)
    requires AllForwarded(w, v, priority, hand)
    requires EventStepOnly(v, u) && v.Valid() && u.Valid() && Pending in v.lists
    ensures AllForwarded(w, u, priority, hand)
    ensures Blocked(u, priority) == Blocked(v, priority)
  {
    forall c | c in priority && !Holds(hand, c)
      ensures Forwarded(w, u, priority, c)
    {
      assert Forwarded(w, v, priority, c);
      if v.On(Event(c), Pending) {
        assert Event(c) in v.lists[Pending].items;
        assert Event(c) in u.lists[Pending].items;
        assert u.On(Event(c), Pending);
      }
    }
  }

  lemma InterruptForwards(cfg: Config, w: World, s: State, t: State, hand: Hand, floor: nat, busy: Hand)
    requires Inv(cfg, s, hand, floor) && Inv(cfg, t, hand, floor)
    requires AllForwarded(w, s.world, s.priority, busy) && EventStepOnly(s.world, t.world)
    ensures AllForwarded(w, t.world, s.priority, busy)
    ensures Blocked(t.world, s.priority) == Blocked(s.world, s.priority)
  {
    WorldIsValid(cfg, s, hand, floor);
    WorldIsValid(cfg, t, hand, floor);
    hide Inv, AllForwarded, Blocked, EventStepOnly, World.Valid;
    StillForwarded(w, s.world, t.world, s.priority, busy);
  }

  lemma WorldIsValid(cfg: Config, s: State, hand: Hand, floor: nat)
    requires Inv(cfg, s, hand, floor)
    ensures s.world.Valid() && Pending in s.world.lists
  {
  }

  /** Whoever waits for an event is asleep. */
  lemma WaiterSleeps(cfg: Config, s: State, floor: nat, q: nat)
    requires Inv(cfg, s, Nobody, floor) && s.world.Has(Waiting(q)) && s.world.lists[Waiting(q)].items != []
    ensures var x := s.world.lists[Waiting(q)].items[0];
            x == Event(x.owner) && x.owner in s.priority && StateOf(s.log, x.owner).Asleep?
  {
    var x := s.world.lists[Waiting(q)].items[0];
    assert s.world.On(x, Waiting(q));
    assert Placed(s.world, s.priority, Nobody, x.owner);
    assert Timed(cfg, s.world, Clock(s.base, s.tick), s.delayed, s.log, floor, x.owner);
  }

  lemma IsPending(w: World, u: World, q: nat)
    requires Signalled(w, u, q) && w.lists[Waiting(q)].items != []
    ensures u.On(w.lists[Waiting(q)].items[0], Pending)
  {
  }

  lemma StaysPending(cfg: Config, s: State, t: State, floor: nat, c: Id)
    requires Inv(cfg, s, Nobody, floor) && Inv(cfg, t, Nobody, floor)
    requires EventStepOnly(s.world, t.world) && s.world.On(Event(c), Pending)
    ensures t.world.On(Event(c), Pending)
  {
    WorldIsValid(cfg, s, Nobody, floor);
    WorldIsValid(cfg, t, Nobody, floor);
    hide Inv;
    assert Event(c) in s.world.lists[Pending].items;
    assert Event(c) in t.world.lists[Pending].items;
  }

  /** The head of the pending list is the event item of a sleeper; taking it off leaves one
      co-routine fewer to unblock. */
  lemma PendingHeadStep(cfg: Config, w: World, s: State)
    requires Inv(cfg, s, Nobody, s.Now() + 1)
    requires s.world.Has(Pending) && s.world.lists[Pending].items != []
    requires AllForwarded(w, s.world, s.priority, Nobody)
    ensures var c := s.world.lists[Pending].items[0].owner;
            && c in s.priority && s.world.lists[Pending].items[0] == Event(c) && s.world.Holds(Event(c))
            && var v := s.world.Remove(Event(c));
               && Inv(cfg, s.(world := v), Nobody, s.Now() + 1)
               && AllForwarded(w, v, s.priority, Holding(c, false))
               && Blocked(v, s.priority) < Blocked(s.world, s.priority)
               && Event(c) in w.container && Event(c) !in v.container
               && Punctual(s.log + [WokeByEvent(c, s.Now())])
  {
    var x := s.world.lists[Pending].items[0];
    var c := x.owner;
    assert s.world.On(x, Pending);
    assert Placed(s.world, s.priority, Nobody, c);
    assert Forwarded(w, s.world, s.priority, c);
    var l := s.world.container[Generic(c)];
    assert l == Delayed(l.which);
    MayWake(cfg, s, c);
    TakeEventStep(cfg, s, Nobody, s.Now() + 1, c);
    PendingHeadLeaves(w, s.world, s.world.Remove(Event(c)), s.priority, c);
  }

  lemma PendingHeadLeaves(w: World, v: World, u: World, priority: map<Id, nat>, c: Id)
    requires AllForwarded(w, v, priority, Nobody) && c in priority && Event(c) in v.container
    requires Elsewhere(v, u, v.container[Event(c)], Event(c)) && Event(c) !in u.container
    ensures AllForwarded(w, u, priority, Holding(c, false))
    ensures Blocked(u, priority) < Blocked(v, priority)
  {
    OthersForwarded(w, v, u, priority, Nobody, Holding(c, false), v.container[Event(c)], Event(c));
    assert c in Blocked(v, priority) && c !in Blocked(u, priority);
  }

  /** The co-routine unblocked by an event goes from its delayed list to its ready list. */
  lemma TakeSleeper(cfg: Config, w: World, s: State, c: Id)
    requires Inv(cfg, s, Nobody, s.Now() + 1) && c in s.priority && Event(c) !in s.world.container
    requires AllForwarded(w, s.world, s.priority, Holding(c, false))
    ensures s.world.Holds(Generic(c))
    ensures var v := s.world.Remove(Generic(c));
            && Inv(cfg, s.(world := v), Holding(c, false), s.Now() + 1)
            && AllForwarded(w, v, s.priority, Holding(c, false))
            && Blocked(v, s.priority) == Blocked(s.world, s.priority)
            && Event(c) !in v.container
  {
    TakeGenericStep(cfg, s, s.Now() + 1, c);
    var l, v := s.world.container[Generic(c)], s.world.Remove(Generic(c));
    OthersForwarded(w, s.world, v, s.priority, Holding(c, false), Holding(c, false), l, Generic(c));
  }

  lemma SleeperReadied(w: World, v: World, u: World, priority: map<Id, nat>, c: Id)
    requires c in priority && Event(c) in w.container
    requires AllForwarded(w, v, priority, Holding(c, false)) && Event(c) !in v.container
    requires Elsewhere(v, u, Ready(priority[c]), Generic(c)) && u.On(Generic(c), Ready(priority[c]))
    ensures AllForwarded(w, u, priority, Nobody)
    ensures Blocked(u, priority) == Blocked(v, priority)
  {
    OthersForwarded(w, v, u, priority, Holding(c, false), Nobody, Ready(priority[c]), Generic(c));
  }

  lemma NothingForwarded(w: World, priority: map<Id, nat>)
    ensures AllForwarded(w, w, priority, Nobody)
  {
  }

  lemma EventsStay(w: World, v: World, c: Id)
    requires EventStepOnly(w, v)
    ensures Event(c) in v.container <==> Event(c) in w.container
  {
  }

  lemma OthersForwarded(w: World, v: World, u: World, priority: map<Id, nat>, before: Hand, after: Hand, l: ListId,
                        x: Item)
    requires AllForwarded(w, v, priority, before) && Elsewhere(v, u, l, x)
    requires forall c :: c != x.owner && Holds(before, c) ==> Holds(after, c)
    requires Holds(after, x.owner) || (x.owner in priority ==> Forwarded(w, u, priority, x.owner))
    ensures AllForwarded(w, u, priority, after)
  {
    forall c | c in priority && !Holds(after, c)
      ensures Forwarded(w, u, priority, c)
    {
      if c != x.owner {
        assert Forwarded(w, v, priority, c);
      }
    }
  }

  /** When the pending list is empty, whoever was pending at the start is ready. */
  lemma PendingAreReady(cfg: Config, w: World, s: State, floor: nat, c: Id)
    requires AllForwarded(w, s.world, s.priority, Nobody) && Inv(cfg, s, Nobody, floor)
    requires s.world.Has(Pending) ==> s.world.lists[Pending].items == []
    requires c in s.priority && w.On(Event(c), Pending)
    ensures s.world.On(Generic(c), Ready(s.priority[c]))
  {
    assert Forwarded(w, s.world, s.priority, c);
    assert Event(c) in s.world.lists[Pending].items <==> s.world.On(Event(c), Pending);
  }

  /** Up to time `now`, exactly the sleeps of `before` that end by then have been ended, each by
      the tick at its end. */
  ghost predicate WokenUpTo(before: seq<Entry>, after: seq<Entry>, now: nat, c: Id) {
    var s, t := StateOf(before, c), StateOf(after, c);
    if s.Asleep? && s.since + s.ticks <= now then
      t == Awake && WokeByTick(c, s.since + s.ticks) in after
    else
      t == s
  }

  /** The same while time `now` is being dealt with: some sleeps that end now may go on. */
  ghost predicate WakingUpTo(before: seq<Entry>, after: seq<Entry>, now: nat, c: Id) {
    StateOf(after, c) == StateOf(before, c) || WokenUpTo(before, after, now, c)
  }

  lemma WakeEntry(before: seq<Entry>, after: seq<Entry>, now: nat, c: Id, d: Id)
    requires WakingUpTo(before, after, now, d)
    requires c == d ==> StateOf(before, c).Asleep? && StateOf(before, c).since + StateOf(before, c).ticks == now
    ensures WakingUpTo(before, after + [WokeByTick(c, now)], now, d)
  {
    Extended(after, WokeByTick(c, now));
  }

  lemma LaterIsFine(before: seq<Entry>, after: seq<Entry>, now: nat, later: nat, c: Id)
    requires WakingUpTo(before, after, now, c) && now <= later
    ensures WakingUpTo(before, after, later, c)
  {
  }

  /** Once the time has been dealt with, nobody whose sleep ends by then is still asleep. */
  lemma WakingIsWoken(cfg: Config, s: State, before: seq<Entry>, c: Id)
    requires Inv(cfg, s, Nobody, s.Now() + 1) && WakingUpTo(before, s.log, s.Now(), c)
    ensures WokenUpTo(before, s.log, s.Now(), c)
  {
    if c in s.priority {
      assert Placed(s.world, s.priority, Nobody, c);
      assert Timed(cfg, s.world, Clock(s.base, s.tick), s.delayed, s.log, s.Now() + 1, c);
    }
  }

  /** How many items the delayed lists hold. */
  ghost function OnDelayed(w: World, l: bool): nat {
    if Delayed(l) in w.lists then |w.lists[Delayed(l)].items| else 0
  }

  lemma InterruptLeavesDelayed(w: World, v: World, l: bool)
    requires EventStepOnly(w, v)
    ensures OnDelayed(v, l) == OnDelayed(w, l) && forall x :: v.Value(x) == w.Value(x)
    ensures Delayed(l) in w.lists ==> Delayed(l) in v.lists && v.lists[Delayed(l)] == w.lists[Delayed(l)]
  {
  }

  lemma ElsewhereLeavesDelayed(w: World, v: World, m: ListId, x: Item, l: bool)
    requires Elsewhere(w, v, m, x) && m != Delayed(l)
    ensures OnDelayed(v, l) == OnDelayed(w, l)
  {
  }

  /** The head of the current delayed list, when its time has come: its sleep ends now. Both
      its items come off their lists. */
  lemma ExpiredHeadStep(cfg: Config, s: State, c: Id)
    requires Inv(cfg, s, Nobody, s.Now())
    requires s.world.Has(Delayed(s.delayed)) && s.world.lists[Delayed(s.delayed)].items != []
    requires c == s.world.lists[Delayed(s.delayed)].items[0].owner
    requires s.tick >= s.world.Value(s.world.lists[Delayed(s.delayed)].items[0])
    ensures c in s.priority && s.world.lists[Delayed(s.delayed)].items[0] == Generic(c) && s.world.Holds(Generic(c))
    ensures var v := s.world.Remove(Generic(c));
            && OnDelayed(v, s.delayed) < OnDelayed(s.world, s.delayed)
            && Inv(cfg, s.(world := v), Holding(c, Event(c) in v.container), s.Now())
    ensures Punctual(s.log + [WokeByTick(c, s.Now())])
    ensures var sleep := StateOf(s.log, c);
            sleep.Asleep? && sleep.since + sleep.ticks == s.Now()
  {
    HeadStep(cfg, s, s.Now());
    TakeGenericStep(cfg, s, s.Now(), c);
    Extended(s.log, WokeByTick(c, s.Now()));
  }

  lemma HeadIsGeneric(cfg: Config, s: State, floor: nat)
    requires Inv(cfg, s, Nobody, floor)
    requires s.world.Has(Delayed(s.delayed)) && s.world.lists[Delayed(s.delayed)].items != []
    ensures var x := s.world.lists[Delayed(s.delayed)].items[0]; x == Generic(x.owner) && x.owner in s.priority
  {
    HeadStep(cfg, s, floor);
  }

  lemma ExpiredEventStep(cfg: Config, s: State, c: Id)
    requires Inv(cfg, s, Holding(c, true), s.Now()) && Event(c) in s.world.container
    ensures s.world.Holds(Event(c))
    ensures var v := s.world.Remove(Event(c));
            && Inv(cfg, s.(world := v), Holding(c, false), s.Now())
            && OnDelayed(v, s.delayed) == OnDelayed(s.world, s.delayed)
  {
    TakeEventStep(cfg, s, Holding(c, true), s.Now(), c);
    var l, v := s.world.container[Event(c)], s.world.Remove(Event(c));
    ElsewhereLeavesDelayed(s.world, v, l, Event(c), s.delayed);
  }

  /** The history has only grown, and so far exactly the sleeps that end by `now` have been ended. */
  ghost predicate AllWaking(before: seq<Entry>, after: seq<Entry>, now: nat) {
    before <= after && forall c :: WakingUpTo(before, after, now, c)
  }

  lemma AllWakeEntries(before: seq<Entry>, after: seq<Entry>, now: nat, c: Id)
    requires AllWaking(before, after, now)
    requires StateOf(after, c).Asleep? && StateOf(after, c).since + StateOf(after, c).ticks == now
    ensures AllWaking(before, after + [WokeByTick(c, now)], now)
  {
    assert WakingUpTo(before, after, now, c);
    forall d
      ensures WakingUpTo(before, after + [WokeByTick(c, now)], now, d)
    {
      WakeEntry(before, after, now, c, d);
    }
  }

  lemma AllLater(before: seq<Entry>, after: seq<Entry>, now: nat, later: nat)
    requires AllWaking(before, after, now)
    requires now <= later
    ensures AllWaking(before, after, later)
  {
    forall c
      ensures WakingUpTo(before, after, later, c)
    {
      LaterIsFine(before, after, now, later, c);
    }
  }

  lemma NobodyWoken(log: seq<Entry>, now: nat)
    ensures AllWaking(log, log, now)
  {
  }

  lemma AllWoken(cfg: Config, s: State, before: seq<Entry>)
    requires Inv(cfg, s, Nobody, s.Now() + 1)
    requires AllWaking(before, s.log, s.Now())
    ensures before <= s.log && forall c :: WokenUpTo(before, s.log, s.Now(), c)
  {
    forall c
      ensures WokenUpTo(before, s.log, s.Now(), c)
    {
      WakingIsWoken(cfg, s, before, c);
    }
  }

  /** The unsigned distance from one tick count to a later one. */
  lemma TicksBetween(m: nat, last: nat, count: nat)
    requires last < m && count < m
    ensures (count - last) % m == if count >= last then count - last else count - last + m
  {
    if count >= last {
      ModOfSmall(count - last, m);
    } else {
      ModOfShifted(count - last, m);
    }
  }

  lemma ModOfSmall(n: int, m: nat)
    requires 0 <= n < m
    ensures n % m == n
  {
  }

  lemma ModOfShifted(n: int, m: nat)
    requires n < 0 <= n + m
    ensures n % m == n + m
  {
    assert n == (-1) * m + (n + m);
    assert n / m == -1;
  }

  /** Adding one to a tick count, or a delay to it, wraps at most once. */
  lemma TickSum(m: nat, tick: nat, d: nat)
    requires tick < m && d <= m
    ensures (tick + d) % m == if tick + d < m then tick + d else tick + d - m
  {
    if tick + d < m {
      ModOfSmall(tick + d, m);
    } else {
      assert (tick + d) / m == 1 by {
      }
    }
  }

  /** Between `w` and `v`, no generic item but that of `c` has changed its list. */
  ghost predicate OnlyMoves(w: World, v: World, c: Id) {
    forall d :: d != c ==>
      && (Generic(d) in v.container <==> Generic(d) in w.container)
      && (Generic(d) in w.container ==> v.container[Generic(d)] == w.container[Generic(d)])
  }

  lemma OnlyMovesByItem(w: World, v: World, u: World, l: ListId, x: Item)
    requires OnlyMoves(w, v, x.owner) && Elsewhere(v, u, l, x)
    ensures OnlyMoves(w, u, x.owner)
  {
  }

  /** Where the wake time goes: the value on the list it belongs to stands for the end of the
      sleep. */
  lemma WakeIsDue(cfg: Config, clock: Clock, d: nat)
    requires clock.tick < cfg.ticks && d < cfg.ticks
    ensures var wake := (clock.tick + d) % cfg.ticks;
            Due(cfg, clock, wake < clock.tick, wake, clock.Now(), Lasts(cfg, clock.tick, d))
    ensures Lasts(cfg, clock.tick, d) > 0
  {
    TickSum(cfg.ticks, clock.tick, d);
  }

  lemma NothingMoves(w: World, v: World, c: Id)
    requires v.container == w.container
    ensures OnlyMoves(w, v, c)
  {
  }

  lemma OnlyMovesByValue(w: World, v: World, u: World, c: Id)
    requires OnlyMoves(w, v, c) && u.container == v.container
    ensures OnlyMoves(w, u, c)
  {
  }

  lemma OnlyMovesByInterrupt(w: World, v: World, u: World, c: Id)
    requires OnlyMoves(w, v, c) && EventStepOnly(v, u)
    ensures OnlyMoves(w, u, c)
    ensures Event(c) in u.container <==> Event(c) in v.container
    ensures u.Value(Generic(c)) == v.Value(Generic(c))
  {
  }

  /** The co-routine that is running goes to sleep: off its ready list. */
  lemma RunningStep(cfg: Config, s: State, floor: nat, c: Id)
    requires Inv(cfg, s, Nobody, floor) && c in s.priority && s.world.On(Generic(c), Ready(s.priority[c]))
    ensures s.world.Holds(Generic(c))
    ensures var v := s.world.Remove(Generic(c));
            && Inv(cfg, s.(world := v), Holding(c, false), floor)
            && OnlyMoves(s.world, v, c) && Event(c) !in v.container
  {
    TakeGenericStep(cfg, s, floor, c);
    ReadyIsAwake(cfg, s, floor, c);
    OnlyMovesByItem(s.world, s.world, s.world.Remove(Generic(c)), Ready(s.priority[c]), Generic(c));
  }

  lemma MaySleep(cfg: Config, s: State, floor: nat, c: Id, d: nat)
    requires Inv(cfg, s, Nobody, floor) && c in s.priority && s.world.On(Generic(c), Ready(s.priority[c])) && d > 0
    ensures Punctual(s.log + [Slept(c, s.Now(), d)])
  {
    ReadyIsAwake(cfg, s, floor, c);
    Extended(s.log, Slept(c, s.Now(), d));
  }
}
