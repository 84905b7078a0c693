/**
 How long a delay lasts, on the scheduler itself. It lasts as long as asked for exactly when what
 was asked for is not zero.
 */
module DelayLengths {
  import opened ListWorlds
  import opened WakeLogs
  import opened CoRoutineInvariants
  import opened CoRoutineSteps
  import opened CoRoutineProgress
  import opened CoRoutines
  import opened Wrappers

  /** Whether, at time `now`, the sleep of `c` from `since` for `ticks` ticks is as it should be: going
      on before its end, and ended by the tick at its end afterwards. */
  ghost predicate SleepIs(log: seq<Entry>, c: Id, since: nat, ticks: nat, now: nat) {
    if now < since + ticks then StateOf(log, c) == Asleep(since, ticks)
    else StateOf(log, c) == Awake && WokeByTick(c, since + ticks) in log
  }

  /** The running co-routine asks for a delay of `d`, and then the scheduler sees the given tick
      counts. However many ticks pass in each call, and however often the count wraps, the sleep
      ends with tick number `d` after it began, if and only if `d` is not zero. A delay of zero ends
      with the next tick, or after two whole turns of the count when the next tick is a wrap. */
  method DelayLasts(s: Scheduler, c: Id, d: nat, counts: seq<nat>)
    requires s.Stable() && s.Running(c) && d < s.cfg.ticks
    requires forall i :: 0 <= i < |counts| ==> counts[i] < s.cfg.ticks
    modifies s, s.heap.Repr
    ensures var lasts := Lasts(s.cfg, old(s.tick), d);
            && s.Stable() && SleepIs(s.log, c, old(s.S().Now()), lasts, s.S().Now())
            && (lasts == d <==> d > 0)
            && (d == 0 ==> lasts == if old(s.tick) + 1 < s.cfg.ticks then 1 else 2 * s.cfg.ticks)
    ensures s.priority == old(s.priority)
    ensures counts == [] ==> s.tick == old(s.tick) && s.S().Now() == old(s.S().Now())
  {
    hide Scheduler.Standing, Inv, StateOf, WokenUpTo, SleepIs, Lasts, OnlyMoves, World.On, World.Value;
    ghost var since, lasts := s.S().Now(), Lasts(s.cfg, s.tick, d);
    LastsAsAsked(s.cfg, s.S(), d);
    s.AddToDelayedList(d, None, c);
    SleepBegins(s.log, c, since, lasts);
    for i := 0 to |counts|
      invariant s.Stable() && SleepIs(s.log, c, since, lasts, s.S().Now()) && s.priority == old(s.priority)
      invariant i == 0 ==> s.tick == old(s.tick) && s.S().Now() == since
    {
      ghost var log, now := s.log, s.S().Now();
      s.CheckDelayedList(counts[i]);
      SleepGoesOn(log, s.log, c, since, lasts, now, s.S().Now());
    }
  }

  lemma LastsAsAsked(cfg: Config, s: State, d: nat)
    requires Inv(cfg, s, Nobody, s.Now() + 1)
    ensures var lasts := Lasts(cfg, s.tick, d);
            && cfg.ticks > 1 && s.tick < cfg.ticks && lasts > 0
            && (lasts == d <==> d > 0)
            && (d == 0 ==> lasts == if s.tick + 1 < cfg.ticks then 1 else 2 * cfg.ticks)
  {
  }

  lemma SleepBegins(log: seq<Entry>, c: Id, since: nat, ticks: nat)
    requires StateOf(log, c) == Asleep(since, ticks) && ticks > 0
    ensures SleepIs(log, c, since, ticks, since)
  {
  }

  lemma SleepGoesOn(before: seq<Entry>, after: seq<Entry>, c: Id, since: nat, ticks: nat, now: nat, later: nat)
    requires SleepIs(before, c, since, ticks, now) && now <= later
    requires before <= after && WokenUpTo(before, after, later, c)
    ensures SleepIs(after, c, since, ticks, later)
  {
  }

  /** With 16-bit ticks: a co-routine created at tick 0 asks for a delay of zero at tick 0xffff, and a
      whole turn of the count later it is still asleep, for another turn. It does so by calling the
      function itself: crDELAY and the queue functions call it for delays above zero only. */
  method ZeroDelayAtTheLastTick() returns (s: Scheduler)
    ensures fresh(s) && fresh(s.heap) && fresh(s.heap.Repr) && s.Stable() && s.S().Now() == 0x1_ffff
    ensures 0 in s.priority && SleepsInTime(s.S(), 0) && StateOf(s.log, 0) == Asleep(0xffff, 0x2_0000)
  {
    hide Scheduler.Standing, Inv, StateOf, SleepIs, SleepsInTime, WokenUpTo;
    s := RunningAtTheLastTick();
    DelayLasts(s, 0, 0, []);
    ghost var log := s.log;
    s.CheckDelayedList(0xfffe);
    assert s.S().Now() == 0xffff + 0xffff;
    SleepGoesOn(log, s.log, 0, 0xffff, 0x2_0000, 0xffff, 0x1_fffe);
    log := s.log;
    s.CheckDelayedList(0xffff);
    SleepGoesOn(log, s.log, 0, 0xffff, 0x2_0000, 0x1_fffe, 0x1_ffff);
    NobodyOversleeps(s.cfg, s.S());
  }

  method RunningAtTheLastTick() returns (s: Scheduler)
    ensures fresh(s) && fresh(s.heap) && fresh(s.heap.Repr)
    ensures s.Stable() && s.Running(0) && s.tick == s.S().Now() == 0xffff && s.cfg == Config(1, 0, 0x1_0000)
  {
    hide Scheduler.Standing, Inv, StateOf, WokenUpTo, SleepsInTime;
    s := new Scheduler(Config(1, 0, 0x1_0000));
    CreateFirst(s);
    ghost var before := s.log;
    s.CheckDelayedList(0xffff);
    NobodyOversleeps(s.cfg, s.S());
    IsReady(s.S(), before, 0);
  }

  method CreateFirst(s: Scheduler)
    requires s.New()
    modifies s, s.heap, s.heap.Repr
    ensures fresh(s.heap.Repr - old(s.heap.Repr))
    ensures s.Stable() && 0 in s.priority && s.current == Some(0) && s.tick == 0 && s.S().Now() == 0
    ensures StateOf(s.log, 0) == Awake
  {
    hide Scheduler.Standing, Inv, StateOf;
    s.Create(0, 0);
    ReadyIsAwake(s.cfg, s.S(), 1, 0);
  }

  lemma IsReady(s: State, before: seq<Entry>, c: Id)
    requires c in s.priority && SleepsInTime(s, c) && WokenUpTo(before, s.log, s.Now(), c)
             && StateOf(before, c) == Awake
    ensures s.world.On(Generic(c), Ready(s.priority[c]))
  {
  }
}
