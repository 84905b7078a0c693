/**
 The history of sleeping and waking, in unbounded time: the reference against which the
 wrapping tick arithmetic of the scheduler is measured.
 */
module WakeLogs {
  import opened ListWorlds

  datatype Entry =
    | Slept(id: Id, at: nat, ticks: nat)
    | WokeByTick(id: Id, at: nat)
    | WokeByEvent(id: Id, at: nat)

  datatype Sleep = Awake | Asleep(since: nat, ticks: nat)

  /** Whether, and since when, `id` is asleep after the history `log`. */
  ghost function StateOf(log: seq<Entry>, id: Id): Sleep {
    if log == [] then Awake
    else
      var last := log[|log| - 1];
      if last.id != id then StateOf(log[..|log| - 1], id)
      else match last
        case Slept(_, at, ticks) => Asleep(at, ticks)
        case _ => Awake
  }

  /** Every sleeper was awake before; every tick wake-up happens exactly at the end of the
      sleep; every event wake-up happens during it. */
  ghost predicate Punctual(log: seq<Entry>) {
    log == [] ||
    (var before, last := log[..|log| - 1], log[|log| - 1];
     && Punctual(before)
     && match last
        case Slept(id, _, ticks) => StateOf(before, id) == Awake && ticks > 0
        case WokeByTick(id, at) =>
          var s := StateOf(before, id);
          s.Asleep? && at == s.since + s.ticks
        case WokeByEvent(id, at) =>
          var s := StateOf(before, id);
          s.Asleep? && s.since <= at < s.since + s.ticks)
  }

  lemma Extended(log: seq<Entry>, e: Entry)
    ensures forall id :: id != e.id ==> StateOf(log + [e], id) == StateOf(log, id)
    ensures StateOf(log + [e], e.id) == if e.Slept? then Asleep(e.at, e.ticks) else Awake
    ensures Punctual(log + [e]) <==>
            && Punctual(log)
            && var s := StateOf(log, e.id);
               match e
               case Slept(_, _, ticks) => s == Awake && ticks > 0
               case WokeByTick(_, at) => s.Asleep? && at == s.since + s.ticks
               case WokeByEvent(_, at) => s.Asleep? && s.since <= at < s.since + s.ticks
  {
    assert (log + [e])[..|log|] == log;
  }

  /** In a punctual history the wake-up that ends a sleep is found in the history itself, and
      a tick wake-up at time `t` ends a sleep of exactly `t` less its start. */
  lemma {:induction false} TickWakesOnTime(log: seq<Entry>, k: nat) returns (j: nat)
    requires Punctual(log) && k < |log| && log[k].WokeByTick?
    ensures j < k && log[j].Slept? && log[j].id == log[k].id
    ensures log[k].at == log[j].at + log[j].ticks && log[j].ticks > 0
    ensures forall i :: j < i < k ==> log[i].id != log[k].id
  {
    if k < |log| - 1 {
      var before := log[..|log| - 1];
      j := TickWakesOnTime(before, k);
      assert forall i :: j <= i <= k ==> log[i] == before[i];
    } else {
      var before := log[..k];
      j := LastEntry(before, log[k].id);
      SleepIsPositive(before, log[k].id);
      assert forall i :: j <= i < k ==> log[i] == before[i];
    }
  }

  lemma {:induction false} SleepIsPositive(log: seq<Entry>, id: Id)
    requires Punctual(log) && StateOf(log, id).Asleep?
    ensures StateOf(log, id).ticks > 0
  {
    if log[|log| - 1].id != id {
      SleepIsPositive(log[..|log| - 1], id);
    }
  }

  lemma {:induction false} LastEntry(log: seq<Entry>, id: Id) returns (j: nat)
    requires StateOf(log, id).Asleep?
    ensures j < |log| && log[j].id == id
    ensures log[j].Slept? && StateOf(log, id) == Asleep(log[j].at, log[j].ticks)
    ensures forall i :: j < i < |log| ==> log[i].id != id
  {
    var n := |log| - 1;
    if log[n].id == id {
      j := n;
    } else {
      j := LastEntry(log[..n], id);
      assert forall i :: j < i < n ==> log[i] == log[..n][i];
    }
  }
}
