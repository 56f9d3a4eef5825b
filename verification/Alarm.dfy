/** The alarm clock of devices/timer.c: sleeping threads in a list ordered by deadline, of which
    every timer interrupt wakes at most one. Putting a thread on the list is one step. Waking a thread
    of higher priority than a running thread other than idle yields the processor; the kernel refuses
    that in an interrupt, and stops. */
module Alarm {
  import opened Common
  import opened Orders

  /** A sleeping thread and the tick from which on it may be woken. */
  datatype Sleeper = Sleeper(thread: nat, priority: int, deadline: int)

  predicate CmpFunc(a: Sleeper, b: Sleeper) {
    if a.deadline >= b.deadline then false else true
  }

  /** A thread that was woken, and at which tick. */
  datatype Wakeup = Wakeup(sleeper: Sleeper, at: int)

  datatype State = State(ticks: int, sleepers: seq<Sleeper>, woken: seq<Wakeup>, stopped: bool)

  /** timer_sleep */
  ghost function SleepStep(st: State, thread: nat, priority: int, n: int): State {
    var x := Sleeper(thread, priority, st.ticks + n);
    if st.stopped then st else st.(sleepers := Inserted(st.sleepers, Place(CmpFunc, x, st.sleepers, 0), x))
  }

  /** The sleeper is of higher priority than the running thread, which is not idle. */
  predicate Outranks(x: Sleeper, running: Option<int>) {
    running.Some? && x.priority > running.value
  }

  /** timer_interrupt; `running` is the priority of the running thread, unless that is the idle thread. */
  ghost function TickStep(st: State, running: Option<int>): State {
    var now := st.ticks + 1;
    if st.stopped then st
    else if st.sleepers != [] && st.sleepers[0].deadline <= now then
      State(now, st.sleepers[1..], st.woken + [Wakeup(st.sleepers[0], now)], Outranks(st.sleepers[0], running))
    else
      st.(ticks := now)
  }

  /** `x` stands at place `p` of `after`, behind all of `before` whose deadline is no later and before all
      others, and these keep their order. */
  ghost predicate QueuedAt(before: seq<Sleeper>, x: Sleeper, after: seq<Sleeper>, p: nat) {
    && p <= |before| && |after| == |before| + 1 && after[p] == x
    && (forall i | 0 <= i < p :: after[i] == before[i] && before[i].deadline <= x.deadline)
    && (forall i | p <= i < |before| :: after[i + 1] == before[i])
    && (p < |before| ==> x.deadline < before[p].deadline)
  }

  ghost predicate Queued(before: seq<Sleeper>, x: Sleeper, after: seq<Sleeper>) {
    exists p: nat :: QueuedAt(before, x, after, p)
  }

  /** A request for `n` ticks puts its thread in line with a deadline `n` ticks from now. */
  lemma SleepQueues(st: State, thread: nat, priority: int, n: int)
    requires !st.stopped
    ensures var after := SleepStep(st, thread, priority, n);
            && Queued(st.sleepers, Sleeper(thread, priority, st.ticks + n), after.sleepers)
            && after == st.(sleepers := after.sleepers)
  {
    var x := Sleeper(thread, priority, st.ticks + n);
    PlaceIsFirst(CmpFunc, x, st.sleepers, 0);
    assert QueuedAt(st.sleepers, x, SleepStep(st, thread, priority, n).sleepers, Place(CmpFunc, x, st.sleepers, 0));
  }

  class AlarmClock {
    var ticks: int
    var blockList: seq<Sleeper>
    var stopped: bool
    ghost var woken: seq<Wakeup>

    ghost function Contents(): State
      reads this
    {
      State(ticks, blockList, woken, stopped)
    }

    constructor ()
      ensures Contents() == State(0, [], [], false)
    {
      ticks, blockList, woken, stopped := 0, [], [], false;
    }

    method TimerSleep(thread: nat, priority: int, n: int)
      modifies this
      ensures Contents() == SleepStep(old(Contents()), thread, priority, n)
      ensures ticks == old(ticks) && woken == old(woken) && stopped == old(stopped)
      ensures if stopped then blockList == old(blockList)
              else Queued(old(blockList), Sleeper(thread, priority, ticks + n), blockList)
    {
      if stopped {
        return;
      }
      SleepQueues(Contents(), thread, priority, n);
      InsertOrdered(Sleeper(thread, priority, ticks + n));
    }

    /** The insertion into the list ordered by deadline. */
    method InsertOrdered(x: Sleeper)
      modifies this`blockList
      ensures blockList == Inserted(old(blockList), Place(CmpFunc, x, old(blockList), 0), x)
    {
      var k := 0;
      while k < |blockList|
        invariant 0 <= k <= |blockList|
        invariant Place(CmpFunc, x, blockList, k) == Place(CmpFunc, x, blockList, 0)
      {
        if CmpFunc(x, blockList[k]) {
          break;
        }
        k := k + 1;
      }
      ghost var before := blockList;
      blockList := blockList[..k] + [x] + blockList[k..];
      assert blockList == Inserted(before, k, x);
    }

    /** Returns the thread that is woken, if any. */
    method TimerInterrupt(running: Option<int>) returns (wake: seq<nat>)
      modifies this
      ensures Contents() == TickStep(old(Contents()), running)
      ensures wake == if |woken| > |old(woken)| then [woken[|woken| - 1].sleeper.thread] else []
    {
      wake := [];
      if stopped {
        return;
      }
      ticks := ticks + 1;
      if blockList != [] {
        var bt := blockList[0];
        if bt.deadline <= ticks {
          blockList := blockList[1..];
          woken := woken + [Wakeup(bt, ticks)];
          wake := [bt.thread];
          stopped := Outranks(bt, running);
        }
      }
    }
  }

  // ---------- Whole runs ----------

  datatype Op = Sleep(thread: nat, priority: int, n: int) | Tick(running: Option<int>)

  ghost function Run(st: State, ops: seq<Op>): State {
    if ops == [] then st
    else
      var before := Run(st, ops[..|ops| - 1]);
      match ops[|ops| - 1]
      case Sleep(thread, priority, n) => SleepStep(before, thread, priority, n)
      case Tick(running) => TickStep(before, running)
  }

  lemma CmpFuncIsOrder(S: set<Sleeper>)
    ensures StrictWeak(CmpFunc, S)
  {
  }

  /** The list is ordered by deadline, and nobody was woken before the deadline. */
  ghost predicate Ordered(st: State) {
    && Sorted(CmpFunc, st.sleepers)
    && (forall i | 0 <= i < |st.woken| :: st.woken[i].sleeper.deadline <= st.woken[i].at <= st.ticks)
  }

  lemma SleepPlace(st: State, thread: nat, priority: int, n: int)
    requires Ordered(st)
    ensures Ordered(SleepStep(st, thread, priority, n))
    ensures var x := Sleeper(thread, priority, st.ticks + n); var p := Place(CmpFunc, x, st.sleepers, 0);
            && (forall i | 0 <= i < p :: st.sleepers[i].deadline <= x.deadline)
            && (forall i | p <= i < |st.sleepers| :: x.deadline < st.sleepers[i].deadline)
  {
    var x := Sleeper(thread, priority, st.ticks + n);
    var S := (set s | s in st.sleepers) + {x};
    CmpFuncIsOrder(S);
    InsertedSorted(CmpFunc, x, st.sleepers, S);
  }

  /** The sleeper that was asked for, and no other, is added to the list, which stays in order. */
  lemma SleepKeepsOrder(st: State, thread: nat, priority: int, n: int)
    requires Ordered(st)
    ensures var after := SleepStep(st, thread, priority, n);
            && Ordered(after)
            && (!st.stopped ==> Queued(st.sleepers, Sleeper(thread, priority, st.ticks + n), after.sleepers))
  {
    if !st.stopped {
      SleepQueues(st, thread, priority, n);
    }
    SleepPlace(st, thread, priority, n);
  }

  lemma TickKeepsOrder(st: State, running: Option<int>)
    requires Ordered(st)
    ensures Ordered(TickStep(st, running))
  {
  }

  /** In every run from a clock with no sleepers, the list stays ordered by deadline and nobody
      wakes before the deadline. */
  lemma {:induction false} RunKeepsOrder(st: State, ops: seq<Op>)
    requires Ordered(st)
    ensures Ordered(Run(st, ops))
  {
    if ops != [] {
      var m := |ops| - 1;
      RunKeepsOrder(st, ops[..m]);
      match ops[m]
      case Sleep(thread, priority, n) => SleepPlace(Run(st, ops[..m]), thread, priority, n);
      case Tick(running) => TickKeepsOrder(Run(st, ops[..m]), running);
    }
  }

  // ---------- How long a sleeper waits after its deadline ----------

  /** Sleeper `x`, whose deadline is the tick `D`, had `k` sleepers ahead of it and `base` threads
      had been woken when that tick came. One thread was woken at every tick since: `x` is as many
      places further to the front, or it was woken at tick `D + k`. */
  ghost predicate Due(st: State, x: Sleeper, D: int, k: nat, base: nat) {
    && D <= st.ticks
    && if st.ticks < D + k then
         var i := D + k - st.ticks - 1;
         && |st.woken| == base + (st.ticks - D) + 1
         && i < |st.sleepers| && st.sleepers[i] == x
         && forall j | 0 <= j <= i :: st.sleepers[j].deadline <= D
       else
         base + k < |st.woken| && st.woken[base + k] == Wakeup(x, D + k)
  }

  lemma TickKeepsDue(st: State, x: Sleeper, D: int, k: nat, base: nat, running: Option<int>)
    requires Due(st, x, D, k, base)
    ensures Due(TickStep(st, running), x, D, k, base)
  {
  }

  /** A request for no negative number of ticks goes behind everybody who is due. */
  lemma SleepKeepsDue(st: State, x: Sleeper, D: int, k: nat, base: nat, thread: nat, priority: int, n: int)
    requires Ordered(st) && Due(st, x, D, k, base) && n >= 0
    ensures Due(SleepStep(st, thread, priority, n), x, D, k, base)
  {
    SleepPlace(st, thread, priority, n);
  }

  /** The tick at which `x` is due: it is woken, or one of the `k` sleepers ahead of it is. */
  lemma FirstTick(st: State, k: nat, running: Option<int>)
    requires Ordered(st) && !st.stopped && k < |st.sleepers| && st.sleepers[k].deadline == st.ticks + 1
    ensures Due(TickStep(st, running), st.sleepers[k], st.ticks + 1, k, |st.woken|)
  {
    assert forall j | 0 <= j < k :: !CmpFunc(st.sleepers[k], st.sleepers[j]);
  }

  ghost predicate RequestsAtLeast(ops: seq<Op>, n: int) {
    forall i | 0 <= i < |ops| && ops[i].Sleep? :: n <= ops[i].n
  }

  /** The sleeper with `k` others ahead of it is due at the next tick. */
  predicate DueNext(st: State, k: nat) {
    !st.stopped && k < |st.sleepers| && st.sleepers[k].deadline == st.ticks + 1
  }

  /** Of a sleeper that is due at the next tick with `k` others ahead of it: in every run that
      begins with that tick, it is not woken before the tick `k` ticks later, and is woken then, if the
      kernel has not stopped by that time. */
  ghost predicate OnTime(st: State, k: nat, running: Option<int>, ops: seq<Op>)
    requires k < |st.sleepers|
  {
    Due(Run(TickStep(st, running), ops), st.sleepers[k], st.ticks + 1, k, |st.woken|)
  }

  lemma {:induction false} SleeperOnTime(st: State, k: nat, running: Option<int>, ops: seq<Op>)
    requires Ordered(st) && DueNext(st, k) && RequestsAtLeast(ops, 0)
    ensures OnTime(st, k, running, ops)
  {
    FirstTick(st, k, running);
    if ops != [] {
      var m := |ops| - 1;
      SleeperOnTime(st, k, running, ops[..m]);
      TickKeepsOrder(st, running);
      RunKeepsOrder(TickStep(st, running), ops[..m]);
      var before, x, D := Run(TickStep(st, running), ops[..m]), st.sleepers[k], st.ticks + 1;
      match ops[m]
      case Sleep(thread, priority, n) => SleepKeepsDue(before, x, D, k, |st.woken|, thread, priority, n);
      case Tick(next) => TickKeepsDue(before, x, D, k, |st.woken|, next);
    }
  }

  const START: State := State(0, [], [], false)

  /** A negative request gets ahead of a sleeper that is already due, which is then woken late. */
  lemma NegativeRequestDelays()
    ensures var st := Run(START, [Sleep(0, 0, 1), Sleep(1, 0, 1)]); var ops := [Sleep(2, 0, -1), Tick(None)];
            && !st.stopped && |st.sleepers| == 2 && st.sleepers[1].deadline == st.ticks + 1 && !OnTime(st, 1, None, ops)
  {
    TwoAsleep();
    Overtaken();
  }

  lemma Overtaken()
    ensures !OnTime(State(0, [Sleeper(0, 0, 1), Sleeper(1, 0, 1)], [], false), 1, None, [Sleep(2, 0, -1), Tick(None)])
  {
    var st := State(0, [Sleeper(0, 0, 1), Sleeper(1, 0, 1)], [], false);
    var ops := [Sleep(2, 0, -1), Tick(None)];
    var st1 := TickStep(st, None);
    assert st1 == State(1, [Sleeper(1, 0, 1)], [Wakeup(Sleeper(0, 0, 1), 1)], false);
    var x := Sleeper(2, 0, 0);
    assert Place(CmpFunc, x, st1.sleepers, 0) == 0;
    assert Inserted(st1.sleepers, 0, x) == [x, Sleeper(1, 0, 1)];
    var st2 := SleepStep(st1, 2, 0, -1);
    assert st2.sleepers == [x, Sleeper(1, 0, 1)];
    assert ops[..1] == [Sleep(2, 0, -1)] && ops[..1][..0] == [];
    assert Run(st1, ops[..1]) == st2;
    assert Run(st1, ops) == TickStep(st2, None);
    assert TickStep(st2, None).woken[1] == Wakeup(x, 2);
  }

  lemma TwoAsleep()
    ensures Run(START, [Sleep(0, 0, 1), Sleep(1, 0, 1)]) == State(0, [Sleeper(0, 0, 1), Sleeper(1, 0, 1)], [], false)
  {
    var ops := [Sleep(0, 0, 1), Sleep(1, 0, 1)];
    var x, y := Sleeper(0, 0, 1), Sleeper(1, 0, 1);
    assert Inserted([], 0, x) == [x];
    assert Place(CmpFunc, y, [x], 0) == Place(CmpFunc, y, [x], 1) == 1 && Inserted([x], 1, y) == [x, y];
    assert ops[..1] == [Sleep(0, 0, 1)] && ops[..1][..0] == [];
    assert Run(START, ops[..1]) == State(0, [x], [], false);
  }

  /** Sleepers are on time in every run exactly if no request is negative. */
  lemma OnTimeIffNotNegative(n: int)
    ensures n >= 0 <==>
            forall before: seq<Op>, k: nat, running: Option<int>, ops: seq<Op> |
              && RequestsAtLeast(before, n) && RequestsAtLeast(ops, n) && DueNext(Run(START, before), k) ::
              OnTime(Run(START, before), k, running, ops)
  {
    if n >= 0 {
      forall before: seq<Op>, k: nat, running: Option<int>, ops: seq<Op> |
        && RequestsAtLeast(before, n) && RequestsAtLeast(ops, n) && DueNext(Run(START, before), k)
        ensures OnTime(Run(START, before), k, running, ops)
      {
        RunKeepsOrder(START, before);
        SleeperOnTime(Run(START, before), k, running, ops);
      }
    } else {
      NegativeRequestDelays();
      var before := [Sleep(0, 0, 1), Sleep(1, 0, 1)];
      assert RequestsAtLeast(before, n) && RequestsAtLeast([Sleep(2, 0, -1), Tick(None)], n) && DueNext(Run(START, before), 1);
    }
  }

  // ---------- Every request is served once ----------

  /** The ticks that a run of operations brings. */
  function Ticks(ops: seq<Op>): nat {
    if ops == [] then 0 else Ticks(ops[..|ops| - 1]) + if ops[|ops| - 1].Tick? then 1 else 0
  }

  /** How often it asks for `x`, a thread of some priority and a tick from which on it may be woken, before the
      kernel stops. */
  ghost function Asked(ops: seq<Op>, x: Sleeper): nat {
    if ops == [] then 0
    else
      var m := |ops| - 1;
      Asked(ops[..m], x) +
      if !Run(START, ops[..m]).stopped && ops[m].Sleep? && x == Sleeper(ops[m].thread, ops[m].priority, Ticks(ops[..m]) + ops[m].n)
      then 1 else 0
  }

  /** How often `x` was woken. */
  ghost function Woken(woken: seq<Wakeup>, x: Sleeper): nat {
    if woken == [] then 0 else Woken(woken[..|woken| - 1], x) + if woken[|woken| - 1].sleeper == x then 1 else 0
  }

  lemma {:induction false} QueuedCount(before: seq<Sleeper>, y: Sleeper, after: seq<Sleeper>, x: Sleeper)
    requires Queued(before, y, after)
    ensures Count(after, x) == Count(before, x) + if x == y then 1 else 0
  {
    var p: nat :| QueuedAt(before, y, after, p);
    CountWithout(after, p, x);
    assert Without(after, p) == before;
  }

  /** Over every run from the start: every request has been served or its thread still sleeps, once for every time that
      it was made, and nobody was woken for whom there was none; and nobody was woken before the ticks
      that were asked for had gone by. */
  lemma {:induction false} EveryRequestServed(ops: seq<Op>, x: Sleeper)
    ensures var st := Run(START, ops);
            && Count(st.sleepers, x) + Woken(st.woken, x) == Asked(ops, x)
            && (!st.stopped ==> st.ticks == Ticks(ops))
            && Ordered(st)
  {
    RunKeepsOrder(START, ops);
    if ops != [] {
      var m := |ops| - 1;
      EveryRequestServed(ops[..m], x);
      var st := Run(START, ops[..m]);
      if !st.stopped {
        match ops[m]
        case Sleep(thread, priority, n) =>
          SleepQueues(st, thread, priority, n);
          QueuedCount(st.sleepers, Sleeper(thread, priority, st.ticks + n), Run(START, ops).sleepers, x);
        case Tick(running) => TickServes(st, running, x);
      }
    }
  }

  lemma {:induction false} TickServes(st: State, running: Option<int>, x: Sleeper)
    requires !st.stopped
    ensures var after := TickStep(st, running);
            && Count(after.sleepers, x) + Woken(after.woken, x) == Count(st.sleepers, x) + Woken(st.woken, x)
            && after.ticks == st.ticks + 1
  {
    if st.sleepers != [] {
      FirstGone(st.sleepers, x);
      WokenMore(st.woken, Wakeup(st.sleepers[0], st.ticks + 1), x);
    }
  }

  lemma {:induction false} FirstGone(s: seq<Sleeper>, x: Sleeper)
    requires s != []
    ensures Count(s, x) == Count(s[1..], x) + if s[0] == x then 1 else 0
  {
    CountWithout(s, 0, x);
    assert Without(s, 0) == s[1..];
  }

  lemma {:induction false} WokenMore(woken: seq<Wakeup>, w: Wakeup, x: Sleeper)
    ensures Woken(woken + [w], x) == Woken(woken, x) + if w.sleeper == x then 1 else 0
  {
    assert (woken + [w])[..|woken|] == woken;
  }

  /** Every wake-up is for a request, made at some tick, and comes no earlier than the ticks asked for after it. */
  lemma {:induction false} WakeupWasAsked(ops: seq<Op>, j: nat)
    requires j < |Run(START, ops).woken|
    ensures var w := Run(START, ops).woken[j];
            && Asked(ops, w.sleeper) > 0
            && exists i | 0 <= i < |ops| ::
                 ops[i] == Sleep(w.sleeper.thread, w.sleeper.priority, w.sleeper.deadline - Ticks(ops[..i]))
                 && w.at >= Ticks(ops[..i]) + ops[i].n
  {
    var st := Run(START, ops);
    var w := st.woken[j];
    EveryRequestServed(ops, w.sleeper);
    WokenOnce(st.woken, j);
    var i := AskedAt(ops, w.sleeper);
  }

  lemma {:induction false} WokenOnce(woken: seq<Wakeup>, j: nat)
    requires j < |woken|
    ensures Woken(woken, woken[j].sleeper) > 0
  {
    if j < |woken| - 1 {
      WokenOnce(woken[..|woken| - 1], j);
    }
  }

  lemma {:induction false} AskedAt(ops: seq<Op>, x: Sleeper) returns (i: nat)
    requires Asked(ops, x) > 0
    ensures i < |ops| && ops[i] == Sleep(x.thread, x.priority, x.deadline - Ticks(ops[..i]))
  {
    var m := |ops| - 1;
    if Asked(ops[..m], x) > 0 {
      i := AskedAt(ops[..m], x);
      assert ops[..m][..i] == ops[..i];
    } else {
      i := m;
    }
  }

  // ---------- When the kernel stops ----------

  /** Sleepers are of priority `high` at most, and running threads of `low` at least. */
  ghost predicate Between(ops: seq<Op>, low: int, high: int) {
    forall i | 0 <= i < |ops| ::
      && (ops[i].Sleep? ==> ops[i].priority <= high)
      && (ops[i].Tick? && ops[i].running.Some? ==> ops[i].running.value >= low)
  }

  lemma {:induction false} RunGoesOn(ops: seq<Op>, low: int, high: int)
    requires Between(ops, low, high) && high <= low
    ensures var st := Run(START, ops);
            !st.stopped && forall i | 0 <= i < |st.sleepers| :: st.sleepers[i].priority <= high
  {
    if ops != [] {
      RunGoesOn(ops[..|ops| - 1], low, high);
    }
  }

  /** No run stops, exactly if no sleeper can be of higher priority than a thread that can be running. */
  lemma NeverStopsIff(low: int, high: int)
    ensures high <= low <==> forall ops: seq<Op> | Between(ops, low, high) :: !Run(START, ops).stopped
  {
    if high <= low {
      forall ops: seq<Op> | Between(ops, low, high)
        ensures !Run(START, ops).stopped
      {
        RunGoesOn(ops, low, high);
      }
    } else {
      var ops := [Sleep(0, high, 0), Tick(Some(low))];
      var x := Sleeper(0, high, 0);
      assert Inserted([], 0, x) == [x];
      assert ops[..1][..0] == [] && Run(START, ops[..1]) == SleepStep(START, 0, high, 0);
      assert Run(START, ops) == TickStep(SleepStep(START, 0, high, 0), Some(low));
    }
  }
}
