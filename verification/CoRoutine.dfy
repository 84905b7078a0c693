/** The co-routine scheduler: file-level state changed step by step, with interrupts in between. */
module CoRoutines {
  import opened Rings
  import opened ListWorlds
  import opened WakeLogs
  import opened CoRoutineInvariants
  import opened CoRoutineSteps
  import opened CoRoutineProgress
  import opened KernelLists
  import opened KernelHeaps
  import opened Wrappers

  /** The scheduler runs on linked lists, which go on standing for the rings of `world`. */
  class Scheduler {
    const cfg: Config
    const heap: KernelHeap
    ghost var world: World
    var priority: map<Id, nat>
    var current: Option<Id>     // pxCurrentCoRoutine
    var top: nat                // uxTopCoRoutineReadyPriority
    var tick: nat               // xCoRoutineTickCount
    var lastTick: nat           // xLastTickCount
    var passedTicks: nat        // xPassedTicks
    var delayed: bool           // the list that pxDelayedCoRoutineList points to
    var overflow: bool          // the list that pxOverflowDelayedCoRoutineList points to
    ghost var base: nat         // the time of the last tick wrap
    ghost var log: seq<Entry>

    ghost function S(): State
      reads this
    {
      State(world, priority, current, top, base, tick, delayed, log)
    }

    /** The heap stands for the world, and has the items of the co-routines there are. */
    ghost predicate Standing()
      reads `world, `priority, heap, heap.Repr
    {
      heap.maxDelay + 1 == cfg.ticks && heap.Represents(world) && Blocks(heap.items.Keys, priority, world.value)
    }

    /** The lists and items do not include the scheduler's own variables. */
    ghost predicate Aside()
      reads heap
    {
      this !in heap.Repr && heap !in heap.Repr
    }

    ghost predicate Ok(hand: Hand, floor: nat)
      reads this, heap, heap.Repr
    {
      Inv(cfg, S(), hand, floor) && overflow == !delayed && Aside() && Standing()
    }

    /** What holds between the calls of the co-routine functions. */
    ghost predicate Stable()
      reads this, heap, heap.Repr
    {
      Ok(Nobody, S().Now() + 1) && lastTick == tick
    }

    /** What holds before the first co-routine is created. */
    ghost predicate New()
      reads this, heap, heap.Repr
    {
      Unused(cfg, S()) && lastTick == tick && Aside() && Standing()
    }

    constructor (cfg: Config)
      requires cfg.Valid()
      ensures this.cfg == cfg && New() && fresh(heap) && fresh(heap.Repr)
    {
      hide Standing, KernelHeap.Represents, Blocks, Unused, OnlyEventLists;
      this.cfg := cfg;
      heap := new KernelHeap(cfg.ticks - 1);
      world := World(map[], map[], map[]);
      priority, current, top := map[], None, 0;
      tick, lastTick, passedTicks, delayed, overflow := 0, 0, 0, false, true;
      base, log := 0, [];
      new;
      NoBlocks(world);
      assert heap.items.Keys == {};
      StandFor(world);
      MakeEventLists();
      StartsUnused(cfg, S());
    }

    /** The event lists are part of the queues, which make them when they are created. */
    method MakeEventLists()
      requires Aside() && Standing() && world == World(map[], map[], map[])
      modifies this`world, heap
      ensures Aside() && Standing() && fresh(heap.Repr - old(heap.Repr))
      ensures world.container == map[] && OnlyEventLists(world, cfg.queues)
    {
      hide Standing;
      for q := 0 to cfg.queues
        invariant Aside() && Standing() && fresh(heap.Repr - old(heap.Repr))
        invariant world.container == map[] && OnlyEventLists(world, q)
      {
        NewList(Waiting(q));
      }
    }

    // -------------------------------------------------------------------------------------
    // The list operations, each on the linked lists and on the rings they stand for.

    lemma Stood()
      requires Standing()
      ensures heap.maxDelay + 1 == cfg.ticks && heap.Represents(world) && Blocks(heap.items.Keys, priority, world.value)
      ensures heap !in heap.Repr && heap.lists.Keys == world.lists.Keys
      ensures forall x :: x in world.container ==> x in heap.items
      ensures forall x :: x in heap.items ==>
                heap.items[x] in heap.Repr && heap.items[x].owner == x.owner && heap.items[x].value == world.Value(x)
      ensures forall x :: x in heap.items ==> (heap.items[x].container == null <==> x !in world.container)
      ensures forall x :: x in heap.items <==> x.owner in priority
    {
      heap.Sound(world);
    }

    /** The same for one item. */
    lemma StoodFor(x: Item)
      requires Standing() && (x.owner in priority || world.Holds(x))
      ensures heap.maxDelay + 1 == cfg.ticks && heap.Represents(world) && Blocks(heap.items.Keys, priority, world.value)
      ensures heap !in heap.Repr && heap.lists.Keys == world.lists.Keys && x in heap.items
      ensures heap.items[x] in heap.Repr && heap.items[x].owner == x.owner && heap.items[x].value == world.Value(x)
      ensures heap.items[x].container == null <==> x !in world.container
    {
      Stood();
    }

    /** From now on the heap stands for `v`. */
    ghost method StandFor(v: World)
      requires Aside() && heap.Represents(v) && heap.maxDelay + 1 == cfg.ticks
      requires Blocks(heap.items.Keys, priority, v.value)
      modifies this`world
      ensures Standing() && world == v
    {
      hide KernelHeap.Represents, Blocks;
      world := v;
    }

    method NewList(l: ListId)
      requires Aside() && Standing() && l !in world.lists
      modifies this`world, heap
      ensures Aside() && Standing() && world == old(world).(lists := old(world).lists[l := Ring([], 0)])
      ensures fresh(heap.Repr - old(heap.Repr))
    {
      Stood();
      hide Standing, KernelHeap.Represents, Blocks;
      heap.NewList(l, world);
      StandFor(world.(lists := world.lists[l := Ring([], 0)]));
    }

    method TakeOff(x: Item)
      requires Aside() && Standing() && world.Holds(x)
      modifies this`world, heap.Repr
      ensures Standing() && world == old(world).Remove(x)
    {
      assert this !in heap.Repr;
      hide *;
      StoodFor(x);
      heap.Remove(heap.items[x], x, world);
      StandFor(world.Remove(x));
    }

    method PutLast(l: ListId, x: Item)
      requires Aside() && Standing() && world.Has(l) && x.owner in priority && x !in world.container
      modifies this`world, heap.Repr
      ensures Standing() && world == old(world).InsertEnd(l, x)
    {
      assert this !in heap.Repr;
      hide *;
      StoodFor(x);
      InsertValues(world, l, x);
      heap.InsertEnd(l, heap.items[x], x, world);
      StandFor(world.InsertEnd(l, x));
    }

    method PutInOrder(l: ListId, x: Item)
      requires Aside() && Standing() && world.Has(l) && world.Sorted(l) && x.owner in priority && x !in world.container
      modifies this`world, heap.Repr
      ensures Standing() && world == old(world).Insert(l, x)
    {
      assert this !in heap.Repr;
      hide *;
      StoodFor(x);
      InsertValues(world, l, x);
      heap.Insert(l, heap.items[x], x, world);
      StandFor(world.Insert(l, x));
    }

    method SetValue(x: Item, value: nat)
      requires Aside() && Standing() && x.owner in priority && x !in world.container && value < cfg.ticks
      modifies this`world, heap.Repr
      ensures Standing() && world == old(world).SetValue(x, value)
    {
      assert this !in heap.Repr;
      hide *;
      StoodFor(x);
      heap.SetValue(heap.items[x], value, x, world);
      StandFor(world.SetValue(x, value));
    }

    method ValueOf(x: Item) returns (value: nat)
      requires Standing() && x.owner in priority
      ensures value == world.Value(x)
    {
      hide *;
      StoodFor(x);
      value := heap.items[x].value;
    }

    method IsOnList(x: Item) returns (on: bool)
      requires Standing() && x.owner in priority
      ensures on <==> x in world.container
    {
      hide *;
      StoodFor(x);
      on := heap.items[x].container != null;
    }

    method IsEmpty(l: ListId) returns (empty: bool)
      requires Standing() && world.Has(l)
      ensures empty == world.Empty(l)
    {
      Stood();
      hide Standing, KernelHeap.Represents, Blocks;
      empty := heap.IsEmpty(l, world);
    }

    method HeadOwner(l: ListId) returns (c: Id)
      requires Standing() && world.Has(l) && world.lists[l].items != []
      ensures c == world.lists[l].items[0].owner && c in priority
    {
      Stood();
      hide Standing, KernelHeap.Represents, Blocks;
      var n := heap.HeadEntry(l, world);
      c := n.owner;
    }

    method NextOwner(l: ListId) returns (c: Id)
      requires Aside() && Standing() && world.Has(l) && world.lists[l].items != []
      modifies this`world, heap.Repr
      ensures Standing() && world == WalkedOn(old(world), l) && c == NextOf(old(world).lists[l]).owner
    {
      assert this !in heap.Repr;
      hide *;
      NextOfIs(world, l);
      ghost var next, x := WalkedOn(world, l), NextOf(world.lists[l]);
      var n := heap.NextEntry(l, world);
      StandFor(next);
      c := n.owner;
    }

    // -------------------------------------------------------------------------------------

    /** Any number of interrupts, each moving the head of a non-empty event list to the
        pending list. */
    method Interrupts(ghost hand: Hand, ghost floor: nat)
      requires Ok(hand, floor)
      modifies this`world, heap.Repr
      ensures Ok(hand, floor) && EventStepOnly(old(world), world)
    {
      hide Inv, Standing;
      var n: nat :| true;
      while n > 0
        invariant Ok(hand, floor) && EventStepOnly(old(world), world)
      {
        var q: nat :| true;
        if q < cfg.queues {
          Signal(q, hand, floor);
        }
        n := n - 1;
      }
    }

    /** What a queue does on an event: it unblocks the first co-routine that waits for it, if any. */
    method Signal(q: nat, ghost hand: Hand, ghost floor: nat)
      requires Ok(hand, floor) && q < cfg.queues
      modifies this`world, heap.Repr
      ensures Ok(hand, floor) && EventStepOnly(old(world), world) && Signalled(old(world), world, q)
    {
      hide Inv, EventMoved, CanUnblock, Standing, World.Empty;
      EventWaits(cfg, S(), hand, floor, q);
      var empty := IsEmpty(Waiting(q));
      if !empty {
        var higher := RemoveFromEventList(q, hand, floor);
      }
    }

    /** An event and the next look at the pending list, with interrupts before, between and behind: the
        co-routine that waited first is ready and awake, whatever time was left of its sleep. */
    method SignalFirst(q: nat, ghost c: Id)
      requires Stable() && q < cfg.queues && world.Has(Waiting(q)) && world.lists[Waiting(q)].items != []
      requires c == world.lists[Waiting(q)].items[0].owner
      modifies this`world, this`top, this`log, heap.Repr
      ensures Stable() && old(log) <= log && c in priority && StateOf(old(log), c).Asleep?
      ensures world.On(Generic(c), Ready(priority[c])) && StateOf(log, c) == Awake && Event(c) !in world.container
    {
      hide Inv, Standing, EventStepOnly, Signalled, StateOf, AllForwarded, World.On;
      ghost var floor := S().Now() + 1;
      WaiterSleeps(cfg, S(), floor, q);
      Signal(q, Nobody, floor);
      IsPending(old(world), world, q);
      ghost var s := S();
      Interrupts(Nobody, floor);
      StaysPending(cfg, s, S(), floor, c);
      CheckPendingReadyList();
      ReadyIsAwake(cfg, S(), floor, c);
    }

    /** xCoRoutineRemoveFromEventList: the caller has checked that the list is not empty. */
    method RemoveFromEventList(q: nat, ghost hand: Hand, ghost floor: nat) returns (higher: bool)
      requires Ok(hand, floor) && CanUnblock(world, q)
      modifies this`world, heap.Repr
      ensures Ok(hand, floor) && EventStepOnly(old(world), world) && Signalled(old(world), world, q)
      ensures Unblocked(old(S()), S(), q, higher)
    {
      hide Standing, Inv, EventMoved, EventStepOnly, Signalled;
      UnblockStep(cfg, S(), hand, floor, q);
      CurrentIsKnown(cfg, S(), hand, floor);
      var c := HeadOwner(Waiting(q));
      TakeOff(Event(c));
      PutLast(Pending, Event(c));
      higher := priority[c] >= priority[current.value];
    }

    /** prvAddCoRoutineToReadyQueue */
    method AddToReady(c: Id, ghost floor: nat)
      requires Ok(Holding(c, false), floor) && StateOf(log, c) == Awake
      modifies this`world, this`top, heap.Repr
      ensures Ok(Nobody, floor)
      ensures old(ReadyListIsThere(S(), c)) && S() == Readied(old(S()), c)
      ensures Elsewhere(old(world), world, Ready(priority[c]), Generic(c))
      ensures world.On(Generic(c), Ready(priority[c]))
    {
      hide Inv, Standing, Elsewhere, StateOf, World.Has, World.On, World.Value, World.InsertEnd;
      ReadyStep(cfg, S(), c, floor);
      if priority[c] > top {
        top := priority[c];
      }
      PutLast(Ready(priority[c]), Generic(c));
    }

    /** prvCheckPendingReadyList. Whoever was pending at the start is ready at the end, and
        whoever was waiting for no event has not been touched. */
    method CheckPendingReadyList()
      requires Ok(Nobody, S().Now() + 1)
      modifies this`world, this`top, this`log, heap.Repr
      ensures Ok(Nobody, S().Now() + 1)
      ensures AllForwarded(old(world), world, priority, Nobody)
      ensures forall c :: c in priority && old(world.On(Event(c), Pending)) ==> world.On(Generic(c), Ready(priority[c]))
      ensures old(log) <= log
    {
      hide Standing, Inv, Forwarded, AllForwarded, EventStepOnly, Elsewhere, Blocked, StateOf, Punctual;
      hide World.On, World.Holds, World.Empty, World.Remove, World.InsertEnd, World.Value, Readied, ReadyListIsThere;
      ghost var floor, start := S().Now() + 1, world;
      NothingForwarded(world, priority);
      EmptyTest(cfg, S(), Nobody, floor, Pending);
      var empty := IsEmpty(Pending);
      while !empty
        invariant Ok(Nobody, floor) && AllForwarded(start, world, priority, Nobody) && old(log) <= log
        invariant world.Has(Pending) && (world.Empty(Pending) <==> world.lists[Pending].items == [])
        invariant empty == world.Empty(Pending)
        decreases Blocked(world, priority)
      {
        var c := HeadOwner(Pending);
        ReadyPending(c, start);
        ghost var s := S();
        Interrupts(Nobody, floor);
        InterruptForwards(cfg, start, s, S(), Nobody, floor, Nobody);
        EmptyTest(cfg, S(), Nobody, floor, Pending);
        empty := IsEmpty(Pending);
      }
      forall c | c in priority && start.On(Event(c), Pending)
        ensures world.On(Generic(c), Ready(priority[c]))
      {
        PendingAreReady(cfg, start, S(), floor, c);
      }
    }

    /** The head of the pending list is readied, with interrupts as soon as it is off the list. */
    method ReadyPending(c: Id, ghost start: World)
      requires Ok(Nobody, S().Now() + 1) && AllForwarded(start, world, priority, Nobody)
      requires world.Has(Pending) && world.lists[Pending].items != [] && c == world.lists[Pending].items[0].owner
      modifies this`world, this`top, this`log, heap.Repr
      ensures Ok(Nobody, S().Now() + 1) && AllForwarded(start, world, priority, Nobody) && old(log) <= log
      ensures Blocked(world, priority) < old(Blocked(world, priority))
    {
      hide Standing, Inv, Forwarded, AllForwarded, EventStepOnly, Elsewhere, Blocked, StateOf, Punctual;
      hide World.On, World.Holds, World.Empty, World.Remove, World.InsertEnd, World.Value, Readied, ReadyListIsThere;
      ghost var floor := S().Now() + 1;
      TakePending(c, start);
      ghost var s := S();
      Interrupts(Holding(c, false), floor);
      InterruptForwards(cfg, start, s, S(), Holding(c, false), floor, Holding(c, false));
      EventsStay(s.world, world, c);
      LogStep(cfg, S(), floor, WokeByEvent(c, S().Now()));
      log := log + [WokeByEvent(c, S().Now())];
      ghost var w := world;
      AddToReady(c, floor);
      SleeperReadied(start, w, world, priority, c);
    }

    /** The event item of the head comes off the pending list, in a critical section, and then its other
        item off the delayed list. */
    method TakePending(c: Id, ghost start: World)
      requires Ok(Nobody, S().Now() + 1) && AllForwarded(start, world, priority, Nobody)
      requires world.Has(Pending) && world.lists[Pending].items != [] && c == world.lists[Pending].items[0].owner
      modifies this`world, heap.Repr
      ensures Ok(Holding(c, false), S().Now() + 1) && AllForwarded(start, world, priority, Holding(c, false))
      ensures c in priority && Event(c) in start.container && Event(c) !in world.container
      ensures Blocked(world, priority) < old(Blocked(world, priority))
      ensures Punctual(log + [WokeByEvent(c, S().Now())])
    {
      hide Standing, Inv, AllForwarded, EventStepOnly, Blocked, Punctual, World.Holds, World.Remove;
      ghost var floor := S().Now() + 1;
      PendingHeadStep(cfg, start, S());
      TakeOff(Event(c));
      ghost var s := S();
      Interrupts(Nobody, floor);
      InterruptForwards(cfg, start, s, S(), Nobody, floor, Holding(c, false));
      EventsStay(s.world, world, c);
      TakeSleeper(cfg, start, S(), c);
      TakeOff(Generic(c));
    }

    /** prvCheckDelayedList. It takes the tick count up to `count`, and ends exactly the sleeps
        that end on the way, each at its own tick. */
    method CheckDelayedList(count: nat)
      requires Stable() && count < cfg.ticks
      modifies this`world, this`top, this`log, this`base, heap.Repr
      modifies this`tick, this`lastTick, this`passedTicks, this`delayed, this`overflow
      ensures Stable() && tick == count
      ensures S().Now() == old(S().Now()) + (count - old(tick)) % cfg.ticks
      ensures old(log) <= log && forall c :: WokenUpTo(old(log), log, S().Now(), c)
    {
      hide Standing, Inv, StateOf, Punctual, EventStepOnly, Elsewhere, AllWaking, WokenUpTo, OnDelayed;
      hide World.On, World.Holds, World.Empty, World.Remove, World.InsertEnd, World.Value, Readied, ReadyListIsThere;
      ghost var start, due := log, S().Now() + (count - lastTick) % cfg.ticks;
      CurrentIsKnown(cfg, S(), Nobody, S().Now() + 1);
      TicksBetween(cfg.ticks, lastTick, count);
      NobodyWoken(log, S().Now());
      passedTicks := (count - lastTick) % cfg.ticks;
      while passedTicks > 0
        invariant Ok(Nobody, S().Now() + 1) && tick < cfg.ticks
        invariant S().Now() + passedTicks == due
        invariant tick + passedTicks == count || tick + passedTicks == count + cfg.ticks
        invariant AllWaking(start, log, S().Now())
      {
        passedTicks := passedTicks - 1;
        NextTick(start);
      }
      AllWoken(cfg, S(), start);
      lastTick := tick;
    }

    /** One turn of the outer loop of prvCheckDelayedList: the tick count goes up by one, and
        the delayed lists change places when it wraps. */
    method NextTick(ghost start: seq<Entry>)
      requires Ok(Nobody, S().Now() + 1) && tick < cfg.ticks
      requires AllWaking(start, log, S().Now())
      modifies this`world, this`top, this`log, this`base, this`tick, this`delayed, this`overflow, heap.Repr
      ensures Ok(Nobody, S().Now() + 1) && S().Now() == old(S().Now()) + 1
      ensures tick == if old(tick) + 1 == cfg.ticks then 0 else old(tick) + 1
      ensures tick == 0 ==> delayed == old(overflow) && old(Drained(cfg, S()))
      ensures AllWaking(start, log, S().Now())
    {
      hide Standing, Inv, AllWaking;
      AllLater(start, log, S().Now(), S().Now() + 1);
      TickSum(cfg.ticks, tick, 1);
      ghost var s := S();
      tick := (tick + 1) % cfg.ticks;
      if tick == 0 {
        WrapStep(cfg, s);
        delayed, overflow := overflow, delayed;
        base := base + cfg.ticks;
      } else {
        TickStep(cfg, s);
      }
      WakeExpired(start);
    }

    /** The inner loop of prvCheckDelayedList: everybody whose timeout has expired is readied. */
    method WakeExpired(ghost start: seq<Entry>)
      requires Ok(Nobody, S().Now())
      requires AllWaking(start, log, S().Now())
      modifies this`world, this`top, this`log, heap.Repr
      ensures Ok(Nobody, S().Now() + 1)
      ensures AllWaking(start, log, S().Now())
    {
      hide Standing, Inv, StateOf, Punctual, EventStepOnly, Elsewhere, AllWaking, OnDelayed;
      hide World.On, World.Holds, World.Empty, World.Remove, World.InsertEnd, World.Value, Readied, ReadyListIsThere;
      ghost var now := S().Now();
      Interrupts(Nobody, now);
      EmptyTest(cfg, S(), Nobody, now, Delayed(delayed));
      var empty := IsEmpty(Delayed(delayed));
      while !empty
        invariant Ok(Nobody, now)
        invariant AllWaking(start, log, now)
        invariant world.Has(Delayed(delayed))
        invariant empty <==> world.lists[Delayed(delayed)].items == []
        decreases OnDelayed(world, delayed)
      {
        var c, due := HeadIsDue();
        if !due {
          break;
        }
        WakeHead(c, start);
        ghost var w := world;
        Interrupts(Nobody, now);
        InterruptLeavesDelayed(w, world, delayed);
        EmptyTest(cfg, S(), Nobody, now, Delayed(delayed));
        empty := IsEmpty(Delayed(delayed));
      }
      TickDoneStep(cfg, S());
      Interrupts(Nobody, now + 1);
    }

    /** Whether the timeout of the head of the current delayed list has expired, with interrupts before
        its owner is read, before its value is, and after that. */
    method HeadIsDue() returns (c: Id, due: bool)
      requires Ok(Nobody, S().Now())
      requires world.Has(Delayed(delayed)) && world.lists[Delayed(delayed)].items != []
      modifies this`world, heap.Repr
      ensures Ok(Nobody, S().Now())
      ensures world.Has(Delayed(delayed)) && world.lists[Delayed(delayed)] == old(world.lists[Delayed(delayed)])
      ensures OnDelayed(world, delayed) == old(OnDelayed(world, delayed))
      ensures var x := world.lists[Delayed(delayed)].items[0]; c == x.owner && (due <==> tick >= world.Value(x))
    {
      hide Standing, Inv, EventStepOnly, OnDelayed, World.Value;
      ghost var now, w := S().Now(), world;
      Interrupts(Nobody, now);
      InterruptLeavesDelayed(w, world, delayed);
      HeadIsGeneric(cfg, S(), now);
      c := HeadOwner(Delayed(delayed));
      w := world;
      Interrupts(Nobody, now);
      InterruptLeavesDelayed(w, world, delayed);
      HeadIsGeneric(cfg, S(), now);
      var wake := ValueOf(Generic(c));
      due := tick >= wake;
      w := world;
      Interrupts(Nobody, now);
      InterruptLeavesDelayed(w, world, delayed);
    }

    /** The head of the current delayed list, whose timeout has expired, is readied. */
    method WakeHead(c: Id, ghost start: seq<Entry>)
      requires Ok(Nobody, S().Now()) && AllWaking(start, log, S().Now())
      requires world.Has(Delayed(delayed)) && world.lists[Delayed(delayed)].items != []
      requires c == world.lists[Delayed(delayed)].items[0].owner
      requires tick >= world.Value(world.lists[Delayed(delayed)].items[0])
      modifies this`world, this`top, this`log, heap.Repr
      ensures Ok(Nobody, S().Now()) && AllWaking(start, log, S().Now())
      ensures OnDelayed(world, delayed) < OnDelayed(old(world), delayed)
    {
      hide Standing, Inv, StateOf, Punctual, EventStepOnly, Elsewhere, AllWaking, OnDelayed;
      hide World.On, World.Value, Readied, ReadyListIsThere;
      ghost var now := S().Now();
      TakeExpired(c);
      ghost var w := world;
      Interrupts(Holding(c, false), now);
      InterruptLeavesDelayed(w, world, delayed);
      LogStep(cfg, S(), now, WokeByTick(c, now));
      AllWakeEntries(start, log, now, c);
      log := log + [WokeByTick(c, now)];
      w := world;
      AddToReady(c, now);
      ElsewhereLeavesDelayed(w, world, Ready(priority[c]), Generic(c), delayed);
    }

    /** The critical section: the item of the expired head comes off the delayed list, and its event
        item off the list it is on, if any. */
    method TakeExpired(c: Id)
      requires Ok(Nobody, S().Now())
      requires world.Has(Delayed(delayed)) && world.lists[Delayed(delayed)].items != []
      requires c == world.lists[Delayed(delayed)].items[0].owner
      requires tick >= world.Value(world.lists[Delayed(delayed)].items[0])
      modifies this`world, heap.Repr
      ensures Ok(Holding(c, false), S().Now()) && OnDelayed(world, delayed) < old(OnDelayed(world, delayed))
      ensures c in priority && Punctual(log + [WokeByTick(c, S().Now())])
      ensures var sleep := StateOf(log, c); sleep.Asleep? && sleep.since + sleep.ticks == S().Now()
    {
      hide Standing, Inv, StateOf, Punctual, OnDelayed, World.Holds, World.Remove, World.Value;
      ExpiredHeadStep(cfg, S(), c);
      TakeOff(Generic(c));
      var waiting := IsOnList(Event(c));
      if waiting {
        ExpiredEventStep(cfg, S(), c);
        TakeOff(Event(c));
      }
    }

    /** The choice made by vCoRoutineSchedule: a co-routine of the highest ready priority. */
    method SelectNext() returns (found: bool)
      requires Stable()
      modifies this`world, this`top, this`current, heap.Repr
      ensures Stable()
      ensures found ==> Chosen(old(S()), S()) && Running(current.value)
      ensures !found ==> NobodyReady(S()) && S() == old(S()).(top := 0)
    {
      hide Standing, Inv, Chosen, NobodyReady;
      ghost var s := S();
      found := FindReady();
      if found {
        ChosenStep(cfg, s, S(), S().Now() + 1);
        NextOfIs(world, Ready(top));
        var c := NextOwner(Ready(top));
        current := Some(c);
      }
    }

    /** Walks down to the highest ready list that is not empty. */
    method FindReady() returns (found: bool)
      requires Stable()
      modifies this`top
      ensures Stable() && S() == old(S()).(top := top)
      ensures found ==> world.Has(Ready(top)) && world.lists[Ready(top)].items != []
      ensures !found ==> NobodyReady(S()) && top == 0
    {
      hide Standing, Inv, NobodyReady, World.Empty;
      ghost var s, floor := S(), S().Now() + 1;
      TopIsPriority(cfg, S(), Nobody, floor);
      EmptyTest(cfg, S(), Nobody, floor, Ready(top));
      var empty := IsEmpty(Ready(top));
      while empty
        invariant Stable() && S() == s.(top := top)
        invariant world.Has(Ready(top)) && (empty <==> world.lists[Ready(top)].items == [])
        decreases top
      {
        if top == 0 {
          NobodyReadyStep(cfg, S(), floor);
          return false;
        }
        LowerTopStep(cfg, S(), Nobody, floor);
        top := top - 1;
        TopIsPriority(cfg, S(), Nobody, floor);
        EmptyTest(cfg, S(), Nobody, floor, Ready(top));
        empty := IsEmpty(Ready(top));
      }
      found := true;
    }

    /** prvInitialiseCoRoutineLists, on the creation of the first co-routine. */
    method InitialiseLists(c: Id)
      requires New()
      modifies this`world, this`current, this`delayed, this`overflow, heap, heap.Repr
      ensures MayCreate(cfg, S(), S().Now() + 1, c) && overflow == !delayed && Aside() && Standing()
      ensures current == Some(c) && world.container == old(world.container)
      ensures fresh(heap.Repr - old(heap.Repr))
    {
      hide MayCreate, Standing, Initialised, WithReady, Unused;
      InitialStep(cfg, S(), c);
      ghost var before := world;
      UnusedLists(cfg, S());
      InitialisedIs(cfg, before);
      WithReadyNone(before);
      current := Some(c);
      for p := 0 to cfg.priorities
        invariant Aside() && Standing() && world == WithReady(before, p) && fresh(heap.Repr - old(heap.Repr))
        invariant S() == old(S()).(world := world, current := Some(c)) && overflow == old(overflow)
      {
        WithReadyNext(before, p);
        NewList(Ready(p));
      }
      NewList(Delayed(false));
      NewList(Delayed(true));
      NewList(Pending);
      delayed, overflow := false, true;
    }

    /** The first co-routine to be created makes the lists. */
    method Prepare(c: Id)
      requires if current == None then New() else Stable()
      requires c !in priority
      modifies this`world, this`current, this`delayed, this`overflow, heap, heap.Repr
      ensures MayCreate(cfg, S(), S().Now() + 1, c) && overflow == !delayed && Aside() && Standing() && lastTick == tick
      ensures world.container == old(world.container)
      ensures current == (if old(current) == None then Some(c) else old(current))
      ensures fresh(heap.Repr - old(heap.Repr))
    {
      hide MayCreate, Standing, Inv;
      if current == None {
        InitialiseLists(c);
      } else {
        InvMayCreate(cfg, S(), S().Now() + 1, c);
      }
    }

    /** xCoRoutineCreate, for a control block `c` that is not in use yet. */
    method Create(c: Id, uxPriority: nat)
      requires if current == None then New() else Stable()
      requires c !in priority && |priority| + 1 < COUNT_MODULUS
      modifies this`world, this`priority, this`current, this`top, this`delayed, this`overflow, heap, heap.Repr
      ensures Stable() && log == old(log)
      ensures priority == old(priority)[c := if uxPriority < cfg.priorities then uxPriority else cfg.priorities - 1]
      ensures world.On(Generic(c), Ready(priority[c])) && Event(c) !in world.container
      ensures OnlyMoves(old(world), world, c)
      ensures current == (if old(current) == None then Some(c) else old(current))
      ensures fresh(heap.Repr - old(heap.Repr))
    {
      hide Standing, Inv, MayCreate, Elsewhere, StateOf, Unused, Readied, ReadyListIsThere, World.On, OnlyMoves;
      ghost var start, floor := world, S().Now() + 1;
      Prepare(c);
      PrioritiesExist(cfg, S(), floor, c);
      var p := uxPriority;
      if p >= cfg.priorities {
        p := cfg.priorities - 1;
      }
      CreateItems(c, p);
      ghost var w := world;
      NothingMoves(start, w, c);
      AddToReady(c, floor);
      OnlyMovesByItem(start, w, world, Ready(priority[c]), Generic(c));
      ReadyIsAwake(cfg, S(), floor, c);
    }

    /** A new control block: its two items, and the value of its event item. */
    method CreateItems(c: Id, p: nat)
      requires MayCreate(cfg, S(), S().Now() + 1, c) && overflow == !delayed && Aside() && Standing()
      requires c !in priority && p < cfg.priorities && |priority| + 1 < COUNT_MODULUS
      modifies this`world, this`priority, heap, heap.Repr
      ensures Ok(Holding(c, false), S().Now() + 1) && StateOf(log, c) == Awake
      ensures priority == old(priority)[c := p] && world == old(world).SetValue(Event(c), cfg.priorities - p)
      ensures Event(c) !in world.container && fresh(heap.Repr - old(heap.Repr))
    {
      hide Standing, Inv, MayCreate, StateOf;
      PrioritiesExist(cfg, S(), S().Now() + 1, c);
      CreateStep(cfg, S(), S().Now() + 1, c, p);
      NewItems(c, p);
      SetValue(Event(c), cfg.priorities - p);
    }

    method SetPriority(c: Id, p: nat)
      requires Aside() && heap.Represents(world) && heap.maxDelay + 1 == cfg.ticks
      requires Blocks(heap.items.Keys, priority[c := p], world.value)
      modifies this`priority
      ensures Standing() && priority == old(priority)[c := p]
    {
      hide KernelHeap.Represents, Blocks;
      priority := priority[c := p];
    }

    /** The two items of a new control block. */
    method NewItems(c: Id, p: nat)
      requires Aside() && Standing() && c !in priority
      modifies this`priority, heap
      ensures Aside() && Standing() && priority == old(priority)[c := p] && fresh(heap.Repr - old(heap.Repr))
    {
      Stood();
      NewBlocks(heap.items.Keys, priority, world, c, p);
      hide Standing, KernelHeap.Represents, Blocks, World.Value;
      heap.NewItem(Generic(c), world);
      heap.NewItem(Event(c), world);
      SetPriority(c, p);
    }

    /** The co-routine that is running is the current one, and it is on its ready list. */
    ghost predicate Running(c: Id)
      reads this
    {
      current == Some(c) && c in priority && world.On(Generic(c), Ready(priority[c]))
    }

    /** The first half of vCoRoutineAddToDelayedList: the running co-routine leaves its ready
        list, and its wake value is set. */
    method LeaveReadyList(timeToWake: nat, ghost ticks: nat, ghost c: Id)
      requires Stable() && Running(c) && ticks > 0 && timeToWake < cfg.ticks
      modifies this`world, this`log, heap.Repr
      ensures Ok(Holding(c, false), S().Now() + 1) && OnlyMoves(old(world), world, c)
      ensures log == old(log) + [Slept(c, S().Now(), ticks)]
      ensures StateOf(log, c) == Asleep(S().Now(), ticks)
      ensures world.Value(Generic(c)) == timeToWake && Event(c) !in world.container
    {
      hide Standing, Inv, StateOf, Punctual, OnlyMoves;
      hide World.Holds, World.Remove, World.SetValue, World.Value;
      ghost var start, floor := world, S().Now() + 1;
      MaySleep(cfg, S(), floor, c, ticks);
      RunningStep(cfg, S(), floor, c);
      TakeOff(Generic(current.value));
      ghost var w := world;
      SetWakeStep(cfg, S(), floor, c, timeToWake);
      SetValue(Generic(current.value), timeToWake);
      OnlyMovesByValue(start, w, world, c);
      LogStep(cfg, S(), floor, Slept(c, S().Now(), ticks));
      log := log + [Slept(c, S().Now(), ticks)];
    }

    /** vCoRoutineAddToDelayedList, called by the running co-routine. Without an event list,
        interrupts can come while the item is in transit. */
    method AddToDelayedList(ticksToDelay: nat, queue: Option<nat>, ghost c: Id)
      requires Stable() && Running(c)
      requires ticksToDelay < cfg.ticks
      requires queue.Some? ==> queue.value < cfg.queues
      modifies this`world, this`log, heap.Repr
      ensures Stable() && OnlyMoves(old(world), world, c)
      ensures log == old(log) + [Slept(c, S().Now(), Lasts(cfg, tick, ticksToDelay))]
      ensures StateOf(log, c) == Asleep(S().Now(), Lasts(cfg, tick, ticksToDelay))
      ensures var wake := (tick + ticksToDelay) % cfg.ticks;
              && world.On(Generic(c), Delayed(if wake < tick then overflow else delayed))
              && world.Value(Generic(c)) == wake
      ensures if queue.Some? then world.On(Event(c), Waiting(queue.value)) else Event(c) !in world.container
    {
      hide Standing, Inv, StateOf, EventStepOnly, Elsewhere, OnlyMoves, Due, Lasts;
      hide World.Holds, World.Insert, World.Value;
      ghost var start, floor := world, S().Now() + 1;
      CurrentIsKnown(cfg, S(), Nobody, floor);
      WakeIsDue(cfg, Clock(base, tick), ticksToDelay);
      var timeToWake := (tick + ticksToDelay) % cfg.ticks;
      LeaveReadyList(timeToWake, Lasts(cfg, tick, ticksToDelay), c);
      ghost var w := world;
      if queue == None {
        Interrupts(Holding(c, false), floor);
        OnlyMovesByInterrupt(start, w, world, c);
        w := world;
      }
      JoinDelayedList(timeToWake, queue, Lasts(cfg, tick, ticksToDelay), c, start);
    }

    /** The second half: the item goes to the list that the wake time belongs to, and the event item
        to the event list, if there is one. */
    method JoinDelayedList(timeToWake: nat, queue: Option<nat>, ghost ticks: nat, ghost c: Id, ghost start: World)
      requires Ok(Holding(c, false), S().Now() + 1) && current == Some(c) && c in priority && ticks > 0
      requires StateOf(log, c) == Asleep(S().Now(), ticks) && Event(c) !in world.container
      requires world.Value(Generic(c)) == timeToWake && OnlyMoves(start, world, c)
      requires Due(cfg, Clock(base, tick), timeToWake < tick, timeToWake, S().Now(), ticks)
      requires queue.Some? ==> queue.value < cfg.queues
      modifies this`world, heap.Repr
      ensures Ok(Nobody, S().Now() + 1) && OnlyMoves(start, world, c)
      ensures world.On(Generic(c), Delayed(if timeToWake < tick then overflow else delayed))
      ensures world.Value(Generic(c)) == timeToWake
      ensures if queue.Some? then world.On(Event(c), Waiting(queue.value)) else Event(c) !in world.container
    {
      hide Standing, Inv, StateOf, Elsewhere, OnlyMoves, Due, World.Holds, World.Insert, World.Value;
      ghost var floor, w := S().Now() + 1, world;
      var l := if timeToWake < tick then overflow else delayed;
      DelayStep(cfg, S(), floor, c, ticks, timeToWake, l);
      PutInOrder(Delayed(l), Generic(current.value));
      OnlyMovesByItem(start, w, world, Delayed(l), Generic(c));
      if queue.Some? {
        w := world;
        WaitStep(cfg, S(), floor, c, queue.value);
        PutInOrder(Waiting(queue.value), Event(current.value));
        OnlyMovesByItem(start, w, world, Waiting(queue.value), Event(c));
      }
    }

    /** The body of a co-routine: it may create co-routines and signal events, with interrupts in
        between, and then go to sleep or just return. */
    method Run(ghost c: Id)
      requires Stable() && Running(c)
      modifies this`world, this`priority, this`current, this`top, this`delayed, this`overflow, this`log
      modifies heap, heap.Repr
      ensures Stable() && old(log) <= log && current == old(current)
      ensures tick == old(tick) && S().Now() == old(S().Now())
      ensures OthersStay(old(S()), S(), c) && fresh(heap.Repr - old(heap.Repr))
    {
      hide Standing, Inv, StateOf, EventStepOnly, OnlyMoves, CanUnblock, Unblock, HigherThanCurrent;
      hide OthersStay;
      ghost var start := S();
      OthersStayHere(cfg, S(), c);
      var n: nat :| true;
      while n > 0
        invariant Stable() && Running(c) && log == old(log) && current == old(current)
        invariant OthersStay(start, S(), c)
        invariant tick == old(tick) && base == old(base) && fresh(heap.Repr - old(heap.Repr))
      {
        Act(c, start);
        n := n - 1;
      }
      var d: nat, q: Option<nat> :| true;
      if d < cfg.ticks && (q.Some? ==> q.value < cfg.queues) {
        ghost var s := S();
        AddToDelayedList(d, q, c);
        OthersWhileSleeping(start, s, S(), c);
      }
    }

    /** Interrupts, and then an event signalled or a co-routine created. */
    method Act(ghost c: Id, ghost start: State)
      requires Stable() && Running(c) && OthersStay(start, S(), c)
      modifies this`world, this`priority, this`current, this`top, this`delayed, this`overflow, heap, heap.Repr
      ensures Stable() && Running(c) && OthersStay(start, S(), c)
      ensures log == old(log) && fresh(heap.Repr - old(heap.Repr))
    {
      hide Standing, Inv, EventStepOnly, OnlyMoves, CanUnblock, Unblock, HigherThanCurrent, OthersStay;
      ghost var s := S();
      Interrupts(Nobody, S().Now() + 1);
      StillRunning(start, s, S(), c);
      s := S();
      var q: nat, d: nat, p: nat :| true;
      if q < cfg.queues {
        Signal(q, Nobody, S().Now() + 1);
        StillRunning(start, s, S(), c);
      } else if d !in priority && |priority| + 1 < COUNT_MODULUS {
        Create(d, p);
        OthersRunning(start, s, S(), c, d);
      }
    }

    /** vCoRoutineSchedule: `p` is the state once those that were pending have been readied, `s`
        the state once the ticks have been dealt with, and `t` once the choice has been made. */
    method Schedule(count: nat) returns (ghost p: State, ghost s: State, ghost t: State)
      requires Stable() && count < cfg.ticks
      modifies this, heap, heap.Repr
      ensures p.priority == old(priority) && old(log) <= p.log && AllForwarded(old(world), p.world, p.priority, Nobody)
      ensures forall c :: c in p.priority && old(world.On(Event(c), Pending)) ==>
                p.world.On(Generic(c), Ready(p.priority[c]))
      ensures s.priority == old(priority) && p.log <= s.log && forall c :: WokenUpTo(p.log, s.log, s.Now(), c)
      ensures s.tick == count && s.Now() == old(S().Now()) + (count - old(tick)) % cfg.ticks
      ensures || (Chosen(s, t) && OthersStay(t, S(), t.current.value))
              || (NobodyReady(t) && t == s.(top := 0) && S() == t)
      ensures Stable() && tick == count && S().Now() == s.Now() && current == t.current && t.log <= log
      ensures fresh(heap.Repr - old(heap.Repr))
    {
      hide Standing, Inv, StateOf, Chosen, NobodyReady, AllForwarded, WokenUpTo, World.On, OthersStay;
      CheckPendingReadyList();
      p := S();
      CheckDelayedList(count);
      s := S();
      var found := SelectNext();
      t := S();
      if found {
        Run(current.value);
      }
    }

    /** Any run, whatever tick counts the scheduler sees, with interrupts between the calls: the
        history only grows and stays punctual, so every tick wake-up in it is on time; and
        whoever is asleep at the end is not due yet. */
    method AnyRun(counts: seq<nat>)
      requires Stable() && forall i :: 0 <= i < |counts| ==> counts[i] < cfg.ticks
      modifies this, heap, heap.Repr
      ensures Stable() && old(log) <= log && Punctual(log)
      ensures forall c :: c in priority ==> SleepsInTime(S(), c)
    {
      hide Standing, Inv, SleepsInTime;
      for i := 0 to |counts|
        invariant Stable() && old(log) <= log && fresh(heap.Repr - old(heap.Repr))
      {
        Interrupts(Nobody, S().Now() + 1);
        var p, s, t := Schedule(counts[i]);
      }
      InvIsPunctual(cfg, S(), S().Now() + 1);
      NobodyOversleeps(cfg, S());
    }
  }

  /** While `c` runs, the other co-routines stay on the ready or delayed list they are on. */
  ghost predicate OthersStay(s: State, t: State, c: Id) {
    forall d :: d in s.priority && d != c ==>
      && d in t.priority && t.priority[d] == s.priority[d]
      && Generic(d) in s.world.container && t.world.On(Generic(d), s.world.container[Generic(d)])
  }

  lemma OthersStayHere(cfg: Config, s: State, c: Id)
    requires Inv(cfg, s, Nobody, s.Now() + 1)
    ensures OthersStay(s, s, c)
  {
    forall d | d in s.priority
      ensures Generic(d) in s.world.container
    {
      assert Placed(s.world, s.priority, Nobody, d);
    }
  }

  /** Interrupts keep the running co-routine, and everybody else, where they are. */
  lemma StillRunning(start: State, s: State, t: State, c: Id)
    requires OthersStay(start, s, c) && t.priority == s.priority && EventStepOnly(s.world, t.world)
    ensures OthersStay(start, t, c)
    ensures Generic(c) in s.world.container ==> t.world.On(Generic(c), s.world.container[Generic(c)])
  {
  }

  /** So does the creation of co-routine `d`. */
  lemma OthersRunning(start: State, s: State, t: State, c: Id, d: Id)
    requires OthersStay(start, s, c) && d !in s.priority && OnlyMoves(s.world, t.world, d)
    requires t.priority.Keys == s.priority.Keys + {d} && forall e :: e in s.priority ==> t.priority[e] == s.priority[e]
    ensures OthersStay(start, t, c)
    ensures Generic(c) in s.world.container && c != d ==> t.world.On(Generic(c), s.world.container[Generic(c)])
  {
  }

  lemma OthersWhileSleeping(start: State, s: State, t: State, c: Id)
    requires OthersStay(start, s, c) && t.priority == s.priority && OnlyMoves(s.world, t.world, c)
    ensures OthersStay(start, t, c)
  {
  }

  /** The items there are are those of the co-routines there are, and only they have values. */
  ghost predicate Blocks(items: set<Item>, priority: map<Id, nat>, value: map<Item, nat>) {
    && (forall x :: x in items <==> x.owner in priority)
    && (forall x :: x in value ==> x in items)
  }

  lemma NewBlocks(items: set<Item>, priority: map<Id, nat>, w: World, c: Id, p: nat)
    requires Blocks(items, priority, w.value) && c !in priority
    ensures Generic(c) !in items && Event(c) !in items && w.Value(Generic(c)) == w.Value(Event(c)) == 0
    ensures Blocks(items + {Generic(c)} + {Event(c)}, priority[c := p], w.value)
  {
  }

  lemma InsertValues(w: World, l: ListId, x: Item)
    requires w.Has(l)
    ensures l in w.lists && w.InsertEnd(l, x).value == w.value && w.Insert(l, x).value == w.value
  {
  }

  /** The world with the index of list `l` advanced. */
  ghost function WalkedOn(w: World, l: ListId): World
    requires w.Has(l) && w.lists[l].items != []
  {
    w.(lists := w.lists[l := w.lists[l].Next()])
  }

  ghost function NextOf(r: Ring<Item>): Item
    requires r.Valid() && r.items != []
  {
    NextRotates(r);
    r.Next().Current()
  }

  lemma NextOfIs(w: World, l: ListId)
    requires w.Has(l) && w.lists[l].items != []
    ensures WalkedOn(w, l) == w.(lists := w.lists[l := w.lists[l].Next()]) && WalkedOn(w, l).value == w.value
    ensures w.lists[l].Next().Valid() && w.lists[l].Next().index > 0
            && NextOf(w.lists[l]) == w.lists[l].Next().Current()
  {
    NextRotates(w.lists[l]);
  }

  lemma StartsUnused(cfg: Config, s: State)
    requires cfg.Valid() && s == State(s.world, map[], None, 0, 0, 0, false, [])
    requires s.world.container == map[] && OnlyEventLists(s.world, cfg.queues)
    ensures Unused(cfg, s)
  {
  }

  lemma NoBlocks(w: World)
    requires w == World(map[], map[], map[])
    ensures Blocks({}, map[], w.value) && OnlyEventLists(w, 0)
  {
  }

  /** There are `n` event lists, all empty, and no other list. */
  ghost predicate OnlyEventLists(w: World, n: nat) {
    && (forall l :: l in w.lists <==> l.Waiting? && l.queue < n)
    && (forall l :: l in w.lists ==> w.lists[l] == Ring([], 0))
  }
}
