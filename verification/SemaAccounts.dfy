/** What the steps of module Synch do to every semaphore, locks or not, told from the events alone: its
    value is the number of ups less the number of downs, and its waiters leave in the order in which they
    came. */
module SemaAccounts {
  import opened Common
  import opened Synch

  // ---------- What an event does to semaphore s ----------

  /** The running thread tests the value. */
  predicate Tests(st: State, a: Action, s: Sid)
    requires st.cpu.Running? && st.cpu.t < |st.threads|
  {
    match a
    case Down(x) => x == s
    case TryDown(x) => x == s
    case Recheck => st.threads[st.cpu.t].pc == Waiting(s)
    case _ => false
  }

  /** The running thread begins a sema_up. */
  predicate Raises(st: State, a: Action, s: Sid)
    requires st.cpu.Running? && st.cpu.t < |st.threads|
  {
    match a
    case Up(x) => x == s
    case ReleaseUp => st.threads[st.cpu.t].pc == Releasing(s)
    case _ => false
  }

  /** The first waiter has a higher priority than the running thread. */
  predicate Outranked(st: State, s: Sid)
    requires s < |st.semas| && st.cpu.Running? && st.cpu.t < |st.threads|
  {
    var w := st.semas[s].waiters;
    w != [] && w[0] < |st.threads| && st.threads[w[0]].prio > st.threads[st.cpu.t].prio
  }

  /** A down gets through. */
  predicate Takes(st: State, e: Event, s: Sid)
    requires Enabled(st, e) && s < |st.semas|
  {
    e.Act? && Tests(st, e.action, s) && st.semas[s].value > 0
  }

  /** A down does not, and its thread blocks. */
  predicate Blocks(st: State, e: Event, s: Sid)
    requires Enabled(st, e) && s < |st.semas|
  {
    e.Act? && !e.action.TryDown? && Tests(st, e.action, s) && st.semas[s].value == 0
  }

  /** An up wakes the first waiter. */
  predicate Wakes(st: State, e: Event, s: Sid)
    requires Enabled(st, e) && s < |st.semas|
  {
    e.Act? && Raises(st, e.action, s) && st.semas[s].waiters != []
  }

  /** An up is done: one that the waiter it woke did not preempt, or one that goes on after that. */
  predicate Gives(st: State, e: Event, s: Sid)
    requires Enabled(st, e) && s < |st.semas|
  {
    && e.Act?
    && if e.action.FinishUp? then st.threads[st.cpu.t].pc == MidUp(s) else Raises(st, e.action, s) && !Outranked(st, s)
  }

  // ---------- What comes of it ----------

  /** The semaphores after an event, and where the thread is that acted. */
  ghost predicate Accounted(st: State, e: Event, s: Sid, st': State)
    requires Enabled(st, e) && s < |st.semas|
  {
    && |st'.semas| == |st.semas| && |st'.threads| == |st.threads| && st'.semas[s].isLock == st.semas[s].isLock
    && st'.semas[s].value == st.semas[s].value + (if Gives(st, e, s) then 1 else 0) - (if Takes(st, e, s) then 1 else 0)
    && st'.semas[s].waiters == (if Blocks(st, e, s) then st.semas[s].waiters + [st.cpu.t]
                                else if Wakes(st, e, s) then st.semas[s].waiters[1..]
                                else st.semas[s].waiters)
    && (Takes(st, e, s) ==> st'.cpu == st.cpu && st'.threads[st.cpu.t].pc == if st.semas[s].isLock then Got(s) else Outside)
    && (Blocks(st, e, s) ==> st'.threads[st.cpu.t].pc == Waiting(s))
    && (Gives(st, e, s) ==> st'.cpu == st.cpu && st'.threads[st.cpu.t].pc == Outside)
    && (Wakes(st, e, s) && !Gives(st, e, s) ==> st'.threads[st.cpu.t].pc == MidUp(s))
  }

  lemma DownEffect(st: State, t: Tid, x: Sid)
    requires InRange(st) && t < |st.threads| && x < |st.semas|
    ensures var y, r := st.semas[x], DownStep(st, t, x);
            && r.semas == st.semas[x := if y.value > 0 then y.(value := y.value - 1) else y.(waiters := y.waiters + [t])]
            && r.threads == st.threads[t := st.threads[t].(pc := if y.value > 0 then AfterDown(y, x) else Waiting(x))]
            && (y.value > 0 ==> r.cpu == st.cpu)
  {
  }

  lemma DownAccounted(st: State, a: Action, s: Sid)
    requires Enabled(st, Act(a)) && s < |st.semas| && (a.Down? || a.TryDown? || a.Recheck?)
    ensures Accounted(st, Act(a), s, ActStep(st, a))
  {
    DownEffect(st, st.cpu.t, if a.Recheck? then st.threads[st.cpu.t].pc.s else a.s);
  }

  /** `r` is what a sema_up by thread `t` leaves. */
  ghost predicate UpDone(st: State, t: Tid, x: Sid, r: State)
    requires InRange(st) && t < |st.threads| && x < |st.semas|
  {
    var y := st.semas[x];
    var aside := y.waiters != [] && st.threads[y.waiters[0]].prio > st.threads[t].prio;
    && |r.semas| == |st.semas| && (forall s | 0 <= s < |st.semas| && s != x :: r.semas[s] == st.semas[s])
    && r.semas[x].isLock == y.isLock && r.semas[x].value == y.value + (if aside then 0 else 1)
    && r.semas[x].waiters == (if y.waiters == [] then [] else y.waiters[1..])
    && r.threads == st.threads[t := st.threads[t].(pc := if aside then MidUp(x) else Outside)]
    && (!aside ==> r.cpu == st.cpu)
  }

  lemma UpEffect(st: State, t: Tid, x: Sid)
    requires InRange(st) && t < |st.threads| && x < |st.semas|
    ensures UpDone(st, t, x, UpStep(st, t, x))
  {
  }

  lemma DoneAccounted(st: State, a: Action, x: Sid, s: Sid, r: State)
    requires Enabled(st, Act(a)) && s < |st.semas| && x < |st.semas|
    requires if a.Up? then a.s == x else a.ReleaseUp? && st.threads[st.cpu.t].pc == Releasing(x)
    requires UpDone(st, st.cpu.t, x, r)
    ensures Accounted(st, Act(a), s, r)
  {
  }

  lemma UpAccounted(st: State, a: Action, s: Sid)
    requires Enabled(st, Act(a)) && s < |st.semas| && (a.Up? || a.ReleaseUp?)
    ensures Accounted(st, Act(a), s, ActStep(st, a))
  {
    var x := if a.Up? then a.s else st.threads[st.cpu.t].pc.s;
    UpEffect(st, st.cpu.t, x);
    DoneAccounted(st, a, x, s, ActStep(st, a));
  }

  /** Every step keeps the accounts of every semaphore. */
  lemma StepAccounted(st: State, e: Event, s: Sid)
    requires Enabled(st, e) && s < |st.semas|
    ensures Accounted(st, e, s, Step(st, e))
  {
    if e.Act? {
      match e.action
      case Down(_) => DownAccounted(st, e.action, s);
      case TryDown(_) => DownAccounted(st, e.action, s);
      case Recheck => DownAccounted(st, e.action, s);
      case Up(_) => UpAccounted(st, e.action, s);
      case ReleaseUp => UpAccounted(st, e.action, s);
      case Start(u) => StartSame(st, st.cpu.t, u);
      case _ =>
    }
  }

  lemma StartSame(st: State, t: Tid, u: Tid)
    requires InRange(st) && t < |st.threads| && u < |st.threads|
    ensures StartStep(st, t, u).semas == st.semas
    ensures StartStep(st, t, u).threads == st.threads[u := st.threads[u].(pc := Outside)]
  {
  }

  lemma SemaSamePriorities(st: State, t: Tid, x: Sid)
    requires InRange(st) && t < |st.threads| && x < |st.semas|
    ensures SamePriorities(st, DownStep(st, t, x)) && SamePriorities(st, UpStep(st, t, x))
  {
    DownEffect(st, t, x);
    UpEffect(st, t, x);
  }

  /** A thread's priority changes only when it sets it. */
  lemma StepPriority(st: State, e: Event)
    requires Enabled(st, e)
    ensures var after := Step(st, e);
            if e.Act? && e.action.SetPriority? then
              after.threads == st.threads[st.cpu.t := st.threads[st.cpu.t].(prio := e.action.p)]
            else SamePriorities(st, after)
  {
    if e.Act? {
      var t := st.cpu.t;
      match e.action
      case Down(s) => SemaSamePriorities(st, t, s);
      case TryDown(s) => SemaSamePriorities(st, t, s);
      case Recheck => SemaSamePriorities(st, t, st.threads[t].pc.s);
      case Up(s) => SemaSamePriorities(st, t, s);
      case ReleaseUp => SemaSamePriorities(st, t, st.threads[t].pc.s);
      case Start(u) => StartSame(st, t, u);
      case _ =>
    }
  }

  // ---------- Who runs next ----------

  /** The running thread gives up the processor. */
  predicate GivesUp(st: State, e: Event)
    requires Enabled(st, e)
  {
    match e
    case Wake(_) => false
    case LeaveIdle => true
    case Act(a) =>
      match a
      case Yield => true
      case Sleep => true
      case Start(u) => st.threads[u].prio > st.threads[st.cpu.t].prio
      case Down(s) => Blocks(st, e, s)
      case Recheck => Blocks(st, e, st.threads[st.cpu.t].pc.s)
      case Up(s) => Outranked(st, s)
      case ReleaseUp => Outranked(st, st.threads[st.cpu.t].pc.s)
      case _ => false
  }

  /** The thread that an event wakes. */
  function Roused(st: State, e: Event): seq<Tid>
    requires Enabled(st, e)
  {
    match e
    case Wake(u) => [u]
    case LeaveIdle => []
    case Act(a) =>
      match a
      case Start(u) => [u]
      case Up(s) => if Wakes(st, e, s) then [st.semas[s].waiters[0]] else []
      case ReleaseUp =>
        var s := st.threads[st.cpu.t].pc.s;
        if Wakes(st, e, s) then [st.semas[s].waiters[0]] else []
      case _ => []
  }

  /** The run queue with the thread that is woken at its end, and behind it the running thread if it gives up the
      processor although it can go on. */
  function QueueAt(st: State, e: Event): seq<Tid>
    requires Enabled(st, e)
  {
    var goesOn := e.Act? && !e.action.Sleep? && !e.action.Down? && !e.action.Recheck?;
    st.ready + Roused(st, e) + if GivesUp(st, e) && goesOn then [st.cpu.t] else []
  }

  /** The processor goes to the thread at `i`, which is the first one of the highest priority. */
  ghost predicate DispatchedAt(queue: seq<Tid>, after: State, i: nat)
    requires forall j | 0 <= j < |queue| :: queue[j] < |after.threads|
  {
    && i < |queue| && after.cpu == Running(queue[i]) && after.ready == queue[..i] + queue[i + 1..]
    && (forall j | 0 <= j < |queue| :: after.threads[queue[j]].prio <= after.threads[queue[i]].prio)
    && (forall j | 0 <= j < i :: after.threads[queue[j]].prio < after.threads[queue[i]].prio)
  }

  /** The processor is idle only if there is no thread for it. */
  ghost predicate Dispatched(queue: seq<Tid>, after: State)
    requires forall j | 0 <= j < |queue| :: queue[j] < |after.threads|
  {
    if queue == [] then after.cpu.Idle? && after.ready == []
    else exists i: nat :: DispatchedAt(queue, after, i)
  }

  lemma Schedules(st: State)
    requires InRange(st)
    ensures Dispatched(st.ready, Schedule(st))
  {
    if st.ready != [] {
      var i := Best(st.ready, st.threads);
      assert DispatchedAt(st.ready, Schedule(st), i);
    }
  }

  /** `after` is what an event leaves of the run queue and the processor. */
  ghost predicate Switched(st: State, queue: seq<Tid>, gives: bool, after: State) {
    && |after.threads| == |st.threads| && (forall i | 0 <= i < |queue| :: queue[i] < |st.threads|)
    && if gives then Dispatched(queue, after) else after.ready == queue && after.cpu == st.cpu
  }

  lemma DownSwitches(st: State, t: Tid, s: Sid)
    requires InRange(st) && t < |st.threads| && s < |st.semas|
    ensures Switched(st, st.ready, st.semas[s].value == 0, DownStep(st, t, s))
  {
    var x := st.semas[s];
    if x.value == 0 {
      Schedules(WithPc(WithSema(st, s, x.(waiters := x.waiters + [t])), t, Waiting(s)));
    }
  }

  lemma AsideSwitches(st: State, t: Tid, s: Sid)
    requires InRange(st) && t < |st.threads| && s < |st.semas| && st.semas[s].waiters != []
    ensures InRange(SetAside(Unblock(st, s), t, s))
    ensures Switched(st, st.ready + [st.semas[s].waiters[0]] + [t], true, Schedule(SetAside(Unblock(st, s), t, s)))
  {
    Schedules(SetAside(Unblock(st, s), t, s));
  }

  lemma UpSwitches(st: State, t: Tid, s: Sid)
    requires InRange(st) && t < |st.threads| && s < |st.semas|
    ensures var w := st.semas[s].waiters;
            var gives := w != [] && st.threads[w[0]].prio > st.threads[t].prio;
            Switched(st, st.ready + (if w == [] then [] else [w[0]]) + (if gives then [t] else []), gives, UpStep(st, t, s))
  {
    var w := st.semas[s].waiters;
    if w != [] && st.threads[w[0]].prio > st.threads[t].prio {
      AsideSwitches(st, t, s);
    } else {
      assert UpStep(st, t, s).ready == st.ready + (if w == [] then [] else [w[0]]) + [];
    }
  }

  lemma StartSwitches(st: State, t: Tid, u: Tid)
    requires InRange(st) && t < |st.threads| && u < |st.threads|
    ensures var gives := st.threads[u].prio > st.threads[t].prio;
            Switched(st, st.ready + [u] + (if gives then [t] else []), gives, StartStep(st, t, u))
  {
    if st.threads[u].prio > st.threads[t].prio {
      Schedules(Woke(st, u).(ready := st.ready + [u] + [t]));
    }
  }

  lemma SemaSwitches(st: State, a: Action)
    requires Enabled(st, Act(a)) && (a.Down? || a.TryDown? || a.Recheck? || a.Up? || a.ReleaseUp?)
    ensures Switched(st, QueueAt(st, Act(a)), GivesUp(st, Act(a)), ActStep(st, a))
  {
    var t := st.cpu.t;
    var s := if a.Recheck? || a.ReleaseUp? then st.threads[t].pc.s else a.s;
    if a.Up? || a.ReleaseUp? {
      UpSwitches(st, t, s);
    } else {
      DownSwitches(st, t, s);
      assert QueueAt(st, Act(a)) == st.ready;
    }
  }

  lemma OtherSwitches(st: State, a: Action)
    requires Enabled(st, Act(a)) && !(a.Down? || a.TryDown? || a.Recheck? || a.Up? || a.ReleaseUp?)
    ensures Switched(st, QueueAt(st, Act(a)), GivesUp(st, Act(a)), ActStep(st, a))
  {
    var t := st.cpu.t;
    if a.Start? {
      StartSwitches(st, t, a.u);
    } else if a.Yield? {
      assert QueueAt(st, Act(a)) == st.ready + [t];
      Schedules(st.(ready := st.ready + [t]));
    } else {
      assert QueueAt(st, Act(a)) == st.ready;
      if a.Sleep? {
        Schedules(WithPc(st, t, Asleep));
      }
    }
  }

  /** What every step does to the run queue and the processor, told from the event alone. */
  lemma StepSwitches(st: State, e: Event)
    requires Enabled(st, e)
    ensures Switched(st, QueueAt(st, e), GivesUp(st, e), Step(st, e))
  {
    if e.Wake? {
      assert QueueAt(st, e) == st.ready + [e.t];
    } else if e.LeaveIdle? {
      Schedules(st);
      assert QueueAt(st, e) == st.ready;
    } else if e.action.Down? || e.action.TryDown? || e.action.Recheck? || e.action.Up? || e.action.ReleaseUp? {
      SemaSwitches(st, e.action);
    } else {
      OtherSwitches(st, e.action);
    }
  }

  // ---------- Whole runs ----------

  /** The ups that a run completes. */
  ghost function Ups(st: State, events: seq<Event>, s: Sid): nat
    requires Run(st, events).Reached? && s < |st.semas|
    decreases |events|
  {
    if events == [] then 0
    else
      var m := |events| - 1;
      SameSemas(st, events[..m]);
      Ups(st, events[..m], s) + if Gives(Run(st, events[..m]).st, events[m], s) then 1 else 0
  }

  ghost function Downs(st: State, events: seq<Event>, s: Sid): nat
    requires Run(st, events).Reached? && s < |st.semas|
    decreases |events|
  {
    if events == [] then 0
    else
      var m := |events| - 1;
      SameSemas(st, events[..m]);
      Downs(st, events[..m], s) + if Takes(Run(st, events[..m]).st, events[m], s) then 1 else 0
  }

  /** The threads that queue up, one after the other. */
  ghost function Came(st: State, events: seq<Event>, s: Sid): seq<Tid>
    requires Run(st, events).Reached? && s < |st.semas|
    decreases |events|
  {
    if events == [] then []
    else
      var m := |events| - 1;
      SameSemas(st, events[..m]);
      var before := Run(st, events[..m]).st;
      Came(st, events[..m], s) + if Blocks(before, events[m], s) then [before.cpu.t] else []
  }

  /** The waiters that are woken, one after the other. */
  ghost function Went(st: State, events: seq<Event>, s: Sid): seq<Tid>
    requires Run(st, events).Reached? && s < |st.semas|
    decreases |events|
  {
    if events == [] then []
    else
      var m := |events| - 1;
      SameSemas(st, events[..m]);
      var before := Run(st, events[..m]).st;
      Went(st, events[..m], s) + if Wakes(before, events[m], s) then [before.semas[s].waiters[0]] else []
  }

  lemma {:induction false} SameSemas(st: State, events: seq<Event>)
    requires Run(st, events).Reached?
    ensures |Run(st, events).st.semas| == |st.semas|
    decreases |events|
  {
    if events != [] {
      var m := |events| - 1;
      SameSemas(st, events[..m]);
      var before := Run(st, events[..m]).st;
      if before.semas != [] {
        StepAccounted(before, events[m], 0);
      } else {
        NoSemas(before, events[m]);
      }
    }
  }

  lemma NoSemas(st: State, e: Event)
    requires Enabled(st, e) && st.semas == []
    ensures Step(st, e).semas == []
  {
  }

  /** Over every run, from any state: the value of every semaphore is what it was at first, and the ups that were
      completed, less the downs that got through; and its waiters are those it had at first and those that
      came, in that order, less those that were woken, who were the first of them. */
  lemma {:induction false} SemaphoreAccounts(st: State, events: seq<Event>, s: Sid)
    requires Run(st, events).Reached? && s < |st.semas|
    ensures |Run(st, events).st.semas| == |st.semas|
    ensures Run(st, events).st.semas[s].value == st.semas[s].value + Ups(st, events, s) - Downs(st, events, s)
    ensures st.semas[s].waiters + Came(st, events, s) == Went(st, events, s) + Run(st, events).st.semas[s].waiters
    decreases |events|
  {
    SameSemas(st, events);
    if events != [] {
      var m := |events| - 1;
      SemaphoreAccounts(st, events[..m], s);
      var before := Run(st, events[..m]).st;
      StepAccounted(before, events[m], s);
      Moved(st.semas[s].waiters, Came(st, events[..m], s), Went(st, events[..m], s), before.semas[s].waiters,
            if Blocks(before, events[m], s) then [before.cpu.t] else [], Wakes(before, events[m], s));
    } else {
      assert st.semas[s].waiters + [] == [] + st.semas[s].waiters;
    }
  }

  lemma Moved(first: seq<Tid>, came: seq<Tid>, went: seq<Tid>, now: seq<Tid>, more: seq<Tid>, wakes: bool)
    requires first + came == went + now && (wakes ==> now != [] && more == [])
    ensures first + (came + more) == went + (now + more)
    ensures wakes ==> first + (came + []) == (went + [now[0]]) + now[1..]
  {
    assert first + (came + more) == (first + came) + more;
    assert went + (now + more) == (went + now) + more;
    if wakes {
      assert now == [now[0]] + now[1..];
    }
  }
}
