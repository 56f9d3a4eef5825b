/** Threads, semaphores and locks (threads/thread.c, threads/synch.c) as a system of atomic steps.
    A step is what a thread does between two points where the processor can be taken away from
    it: interrupts are off inside the semaphore operations, so a switch can happen there only when
    the thread blocks, or when sema_up has unblocked a thread of higher priority but has not yet
    incremented the value. */
module Synch {
  import opened Common

  type Tid = nat
  type Sid = nat

  /** Where a thread is in the code. */
  datatype Pc =
    | Outside             // not in a synchronization operation
    | Asleep              // blocked by something else: not created yet, sleeping, or gone
    | Waiting(s: Sid)     // in the loop of sema_down: on the waiter list, or woken and not rechecked
    | Got(s: Sid)         // in lock_acquire: has decremented the value, has not set the holder
    | Releasing(s: Sid)   // in lock_release: has cleared the holder, has not called sema_up
    | MidUp(s: Sid)       // in sema_up: has unblocked a waiter, has not incremented the value

  datatype Holder = Nobody | Held(t: Tid)

  datatype Processor = Idle | Running(t: Tid)

  /** A semaphore; a lock is one with a holder, and its semaphore is used through the lock only. */
  datatype Sema = Sema(isLock: bool, value: nat, waiters: seq<Tid>, holder: Holder)

  datatype Thread = Thread(pc: Pc, prio: int)

  datatype State = State(semas: seq<Sema>, threads: seq<Thread>, ready: seq<Tid>, cpu: Processor)

  /** What the running thread can do next. */
  datatype Action =
    | Down(s: Sid)        // sema_down, or lock_acquire up to its decrement
    | Recheck             // a woken thread goes round the loop of sema_down
    | TryDown(s: Sid)     // sema_try_down, or lock_try_acquire up to its decrement
    | SetHolder           // the end of lock_acquire and lock_try_acquire
    | ClearHolder(s: Sid) // the beginning of lock_release
    | Up(s: Sid)          // sema_up on a plain semaphore
    | ReleaseUp           // the sema_up of lock_release
    | FinishUp            // the increment of a sema_up that was preempted
    | Yield               // thread_yield, or the end of a time slice
    | SetPriority(p: int)
    | Sleep               // blocks outside of the semaphores
    | Start(u: Tid)       // thread_create, or thread_unblock of a thread that sleeps

  datatype Event =
    | Act(action: Action) // by the running thread
    | Wake(t: Tid)        // thread_unblock from an interrupt handler
    | LeaveIdle           // the idle thread gives way to a ready thread

  // ---------- Scheduling ----------

  /** The place in `ready` of the first thread of the highest priority. */
  function Best(ready: seq<Tid>, threads: seq<Thread>): (i: nat)
    requires ready != [] && forall j | 0 <= j < |ready| :: ready[j] < |threads|
    ensures i < |ready|
    ensures forall j | 0 <= j < |ready| :: threads[ready[j]].prio <= threads[ready[i]].prio
    ensures forall j | 0 <= j < i :: threads[ready[j]].prio < threads[ready[i]].prio
  {
    var m := |ready| - 1;
    if m == 0 then 0
    else
      var i := Best(ready[..m], threads);
      assert forall j | 0 <= j < m :: ready[..m][j] == ready[j];
      if threads[ready[m]].prio > threads[ready[i]].prio then m else i
  }

  ghost predicate InRange(st: State) {
    && (forall j | 0 <= j < |st.ready| :: st.ready[j] < |st.threads|)
    && (st.cpu.Running? ==> st.cpu.t < |st.threads|)
    && (forall s, i | 0 <= s < |st.semas| && 0 <= i < |st.semas[s].waiters| :: st.semas[s].waiters[i] < |st.threads|)
    && (forall t | 0 <= t < |st.threads| :: PcInRange(st.threads[t].pc, |st.semas|))
  }

  predicate PcInRange(pc: Pc, n: nat) {
    match pc
    case Outside | Asleep => true
    case Waiting(s) => s < n
    case Got(s) => s < n
    case Releasing(s) => s < n
    case MidUp(s) => s < n
  }

  /** The processor goes to the oldest ready thread of the highest priority, or is idle. */
  function Schedule(st: State): State
    requires InRange(st)
  {
    if st.ready == [] then st.(cpu := Idle)
    else
      var i := Best(st.ready, st.threads);
      st.(ready := Without(st.ready, i), cpu := Running(st.ready[i]))
  }

  function WithPc(st: State, t: Tid, pc: Pc): State
    requires t < |st.threads|
  {
    st.(threads := st.threads[t := st.threads[t].(pc := pc)])
  }

  function WithSema(st: State, s: Sid, x: Sema): State
    requires s < |st.semas|
  {
    st.(semas := st.semas[s := x])
  }

  // ---------- The semaphore operations ----------

  function AfterDown(sema: Sema, s: Sid): Pc {
    if sema.isLock then Got(s) else Outside
  }

  /** Thread `t` tests the value: it decrements it, or it queues up and blocks. */
  function DownStep(st: State, t: Tid, s: Sid): State
    requires InRange(st) && t < |st.threads| && s < |st.semas|
  {
    var x := st.semas[s];
    if x.value > 0 then
      WithPc(WithSema(st, s, x.(value := x.value - 1)), t, AfterDown(x, s))
    else
      Schedule(WithPc(WithSema(st, s, x.(waiters := x.waiters + [t])), t, Waiting(s)))
  }

  /** Thread `t` increments the value and leaves sema_up. */
  function Increment(st: State, t: Tid, s: Sid): State
    requires t < |st.threads| && s < |st.semas|
  {
    WithPc(WithSema(st, s, st.semas[s].(value := st.semas[s].value + 1)), t, Outside)
  }

  /** The first waiter goes to the run queue. */
  function Unblock(st: State, s: Sid): State
    requires s < |st.semas| && st.semas[s].waiters != []
  {
    var x := st.semas[s];
    WithSema(st, s, x.(waiters := x.waiters[1..])).(ready := st.ready + [x.waiters[0]])
  }

  /** Thread `t` is set aside in the middle of sema_up. */
  function SetAside(st: State, t: Tid, s: Sid): State
    requires t < |st.threads|
  {
    WithPc(st, t, MidUp(s)).(ready := st.ready + [t])
  }

  /** Thread `t` wakes the first waiter, if any, and increments the value; the waiter goes first if
      its priority is higher. */
  function UpStep(st: State, t: Tid, s: Sid): State
    requires InRange(st) && t < |st.threads| && s < |st.semas|
  {
    var x := st.semas[s];
    if x.waiters == [] then Increment(st, t, s)
    else if st.threads[x.waiters[0]].prio > st.threads[t].prio then Schedule(SetAside(Unblock(st, s), t, s))
    else Increment(Unblock(st, s), t, s)
  }

  /** Thread `u` goes to the run queue, and the running thread `t` gives way if it has a lower priority. */
  function StartStep(st: State, t: Tid, u: Tid): State
    requires InRange(st) && t < |st.threads| && u < |st.threads|
  {
    if st.threads[u].prio > st.threads[t].prio then Schedule(Woke(st, u).(ready := st.ready + [u] + [t]))
    else Woke(st, u)
  }

  /** Thread `u`, which sleeps, goes to the run queue. */
  function Woke(st: State, u: Tid): State
    requires u < |st.threads|
  {
    WithPc(st, u, Outside).(ready := st.ready + [u])
  }

  /** What the code asserts, and where its thread must be, before the running thread acts. */
  ghost predicate CanAct(st: State, a: Action)
    requires InRange(st) && st.cpu.Running?
  {
    var t := st.cpu.t;
    var pc := st.threads[t].pc;
    match a
    case Down(s) => pc.Outside? && s < |st.semas| && st.semas[s].holder != Held(t)
    case TryDown(s) => pc.Outside? && s < |st.semas| && st.semas[s].holder != Held(t)
    case Recheck => pc.Waiting?
    case SetHolder => pc.Got?
    case ClearHolder(s) => pc.Outside? && s < |st.semas| && st.semas[s].isLock && st.semas[s].holder == Held(t)
    case Up(s) => pc.Outside? && s < |st.semas| && !st.semas[s].isLock
    case ReleaseUp => pc.Releasing?
    case FinishUp => pc.MidUp?
    case Yield => pc.Outside? || pc.Got? || pc.Releasing?
    case SetPriority(_) => pc.Outside?
    case Sleep => pc.Outside?
    case Start(u) => pc.Outside? && u < |st.threads| && st.threads[u].pc.Asleep?
  }

  function ActStep(st: State, a: Action): State
    requires InRange(st) && st.cpu.Running? && CanAct(st, a)
  {
    var t := st.cpu.t;
    var pc := st.threads[t].pc;
    match a
    case Down(s) => DownStep(st, t, s)
    case TryDown(s) => if st.semas[s].value > 0 then DownStep(st, t, s) else st
    case Recheck => DownStep(st, t, pc.s)
    case SetHolder => WithPc(WithSema(st, pc.s, st.semas[pc.s].(holder := Held(t))), t, Outside)
    case ClearHolder(s) => WithPc(WithSema(st, s, st.semas[s].(holder := Nobody)), t, Releasing(s))
    case Up(s) => UpStep(st, t, s)
    case ReleaseUp => UpStep(st, t, pc.s)
    case FinishUp => Increment(st, t, pc.s)
    case Yield => Schedule(st.(ready := st.ready + [t]))
    case SetPriority(p) => st.(threads := st.threads[t := st.threads[t].(prio := p)])
    case Sleep => Schedule(WithPc(st, t, Asleep))
    case Start(u) => StartStep(st, t, u)
  }

  /** A thread of higher priority than the running one cannot be woken by an interrupt handler:
      thread_unblock would call thread_yield, which asserts that it is not called from one. */
  ghost predicate Enabled(st: State, e: Event) {
    && InRange(st)
    && match e
       case Act(a) => st.cpu.Running? && CanAct(st, a)
       case Wake(u) => u < |st.threads| && st.threads[u].pc.Asleep?
                       && (st.cpu.Running? ==> st.threads[u].prio <= st.threads[st.cpu.t].prio)
       case LeaveIdle => st.cpu.Idle? && st.ready != []
  }

  function Step(st: State, e: Event): State
    requires Enabled(st, e)
  {
    match e
    case Act(a) => ActStep(st, a)
    case Wake(u) => Woke(st, u)
    case LeaveIdle => Schedule(st)
  }

  // ---------- A thread's list element is on one list only ----------

  /** Thread `t` is neither asleep nor on a waiter list. */
  ghost predicate Runnable(st: State, t: Tid)
    requires InRange(st) && t < |st.threads|
  {
    var pc := st.threads[t].pc;
    !pc.Asleep? && (pc.Waiting? ==> t !in st.semas[pc.s].waiters)
  }

  /** Runnable threads are on the run queue or running, waiting threads are on the list of the
      semaphore they wait for, and none is anywhere twice. */
  ghost predicate Placed(st: State) {
    && InRange(st)
    && Distinct(st.ready)
    && (forall s | 0 <= s < |st.semas| :: Distinct(st.semas[s].waiters))
    && (forall s, t | 0 <= s < |st.semas| && t in st.semas[s].waiters :: st.threads[t].pc == Waiting(s))
    && (forall t | t in st.ready :: Runnable(st, t))
    && (st.cpu.Running? ==> st.cpu.t !in st.ready && Runnable(st, st.cpu.t))
    && (forall t | 0 <= t < |st.threads| && Runnable(st, t) :: t in st.ready || st.cpu == Running(t))
  }

  lemma WithoutOne<T>(s: seq<T>, i: nat)
    requires Distinct(s) && i < |s|
    ensures Distinct(Without(s, i))
    ensures forall x :: x in Without(s, i) <==> x in s && x != s[i]
  {
    var r := Without(s, i);
    forall x | x in s && x != s[i]
      ensures x in r
    {
      var j :| 0 <= j < |s| && s[j] == x;
      assert r[if j < i then j else j - 1] == x;
    }
    forall x | x in r
      ensures x in s && x != s[i]
    {
      var j :| 0 <= j < |r| && r[j] == x;
      assert x == s[if j < i then j else j + 1];
    }
  }

  lemma SchedulePlaced(st: State)
    requires InRange(st) && Placed(st.(cpu := Idle))
    ensures Placed(Schedule(st))
  {
    if st.ready != [] {
      var i := Best(st.ready, st.threads);
      WithoutOne(st.ready, i);
    }
  }

  /** The running thread puts itself at the end of a waiter list. */
  lemma QueuePlaced(st: State, t: Tid, s: Sid)
    requires Placed(st) && st.cpu == Running(t) && s < |st.semas|
    ensures Placed(WithPc(WithSema(st, s, st.semas[s].(waiters := st.semas[s].waiters + [t])), t, Waiting(s)).(cpu := Idle))
  {
    assert t !in st.semas[s].waiters;
  }

  /** The running thread moves on in its code, and a value or a holder changes. */
  lemma MoveOnPlaced(st: State, t: Tid, s: Sid, x: Sema, pc: Pc)
    requires Placed(st) && st.cpu == Running(t) && s < |st.semas| && PcInRange(pc, |st.semas|)
    requires x.waiters == st.semas[s].waiters && !pc.Asleep? && !pc.Waiting?
    ensures Placed(WithPc(WithSema(st, s, x), t, pc))
  {
  }

  /** The first waiter goes to the run queue. */
  lemma UnblockPlaced(st: State, s: Sid)
    requires Placed(st) && s < |st.semas| && st.semas[s].waiters != []
    ensures Placed(Unblock(st, s))
  {
    var x := st.semas[s];
    var w := x.waiters[0];
    assert w in x.waiters;
    assert !Runnable(st, w);
    WithoutOne(x.waiters, 0);
    assert Without(x.waiters, 0) == x.waiters[1..];
  }

  /** The running thread goes back to the run queue. */
  lemma RequeuePlaced(st: State, t: Tid)
    requires Placed(st) && st.cpu == Running(t)
    ensures Placed(st.(ready := st.ready + [t], cpu := Idle))
  {
  }

  lemma SetAsidePlaced(st: State, t: Tid, s: Sid)
    requires Placed(st) && st.cpu == Running(t) && s < |st.semas|
    ensures Placed(Schedule(SetAside(st, t, s)))
  {
    MoveOnPlaced(st, t, s, st.semas[s], MidUp(s));
    assert WithSema(st, s, st.semas[s]) == st;
    RequeuePlaced(WithPc(st, t, MidUp(s)), t);
    SchedulePlaced(SetAside(st, t, s));
  }

  lemma IncrementPlaced(st: State, t: Tid, s: Sid)
    requires Placed(st) && st.cpu == Running(t) && s < |st.semas|
    ensures Placed(Increment(st, t, s))
  {
    MoveOnPlaced(st, t, s, st.semas[s].(value := st.semas[s].value + 1), Outside);
  }

  lemma UpPlaced(st: State, t: Tid, s: Sid)
    requires Placed(st) && st.cpu == Running(t) && s < |st.semas|
    ensures Placed(UpStep(st, t, s))
  {
    if st.semas[s].waiters == [] {
      IncrementPlaced(st, t, s);
    } else {
      UnblockPlaced(st, s);
      SetAsidePlaced(Unblock(st, s), t, s);
      IncrementPlaced(Unblock(st, s), t, s);
    }
  }

  lemma DownPlaced(st: State, t: Tid, s: Sid)
    requires Placed(st) && st.cpu == Running(t) && s < |st.semas|
    ensures Placed(DownStep(st, t, s))
  {
    var x := st.semas[s];
    if x.value > 0 {
      MoveOnPlaced(st, t, s, x.(value := x.value - 1), AfterDown(x, s));
    } else {
      QueuePlaced(st, t, s);
      SchedulePlaced(WithPc(WithSema(st, s, x.(waiters := x.waiters + [t])), t, Waiting(s)));
    }
  }

  lemma ActPlaced(st: State, a: Action)
    requires Placed(st) && st.cpu.Running? && CanAct(st, a)
    ensures Placed(ActStep(st, a))
  {
    var t := st.cpu.t;
    var pc := st.threads[t].pc;
    match a
    case Down(s) => DownPlaced(st, t, s);
    case TryDown(s) => DownPlaced(st, t, s);
    case Recheck => DownPlaced(st, t, pc.s);
    case SetHolder => MoveOnPlaced(st, t, pc.s, st.semas[pc.s].(holder := Held(t)), Outside);
    case ClearHolder(s) => MoveOnPlaced(st, t, s, st.semas[s].(holder := Nobody), Releasing(s));
    case Up(s) => UpPlaced(st, t, s);
    case ReleaseUp => UpPlaced(st, t, pc.s);
    case FinishUp => IncrementPlaced(st, t, pc.s);
    case Yield =>
      RequeuePlaced(st, t);
      SchedulePlaced(st.(ready := st.ready + [t]));
    case SetPriority(p) => PriorityPlaced(st, t, p);
    case Sleep => SleepPlaced(st, t);
    case Start(u) => StartPlaced(st, t, u);
  }

  lemma PriorityPlaced(st: State, t: Tid, p: int)
    requires Placed(st) && t < |st.threads|
    ensures Placed(st.(threads := st.threads[t := st.threads[t].(prio := p)]))
  {
    var st' := st.(threads := st.threads[t := st.threads[t].(prio := p)]);
    assert InRange(st');
    assert forall u | 0 <= u < |st.threads| :: Runnable(st', u) <==> Runnable(st, u);
  }

  lemma SleepPlaced(st: State, t: Tid)
    requires Placed(st) && st.cpu == Running(t) && st.threads[t].pc.Outside?
    ensures Placed(Schedule(WithPc(st, t, Asleep)))
  {
    SchedulePlaced(WithPc(st, t, Asleep));
  }

  lemma WakePlaced(st: State, u: Tid)
    requires Placed(st) && u < |st.threads| && st.threads[u].pc.Asleep?
    ensures Placed(Woke(st, u))
  {
    assert !Runnable(st, u);
    assert u !in st.ready;
  }

  lemma StartPlaced(st: State, t: Tid, u: Tid)
    requires Placed(st) && st.cpu == Running(t) && u < |st.threads| && st.threads[u].pc.Asleep?
    ensures Placed(StartStep(st, t, u))
  {
    WakePlaced(st, u);
    if st.threads[u].prio > st.threads[t].prio {
      RequeuePlaced(Woke(st, u), t);
      SchedulePlaced(Woke(st, u).(ready := st.ready + [u] + [t]));
    }
  }

  lemma StepPlaced(st: State, e: Event)
    requires Placed(st) && Enabled(st, e)
    ensures Placed(Step(st, e))
  {
    match e
    case Act(a) => ActPlaced(st, a);
    case Wake(u) => WakePlaced(st, u);
    case LeaveIdle => SchedulePlaced(st);
  }

  // ---------- Mutual exclusion ----------

  /** A place between the decrement and the increment at which the lock has no holder yet or any more. */
  predicate Inside(pc: Pc, s: Sid) {
    pc == Got(s) || pc == Releasing(s) || pc == MidUp(s)
  }

  /** Thread `t` is between a completed down on lock `s` and the matching increment. */
  ghost predicate Between(st: State, s: Sid, t: Tid)
    requires s < |st.semas|
  {
    && t < |st.threads|
    && (st.semas[s].holder == Held(t) || Inside(st.threads[t].pc, s))
  }

  /** The value of a lock's semaphore and the number of those threads add up to one. */
  ghost predicate LockOk(st: State, s: Sid)
    requires s < |st.semas|
  {
    && (st.semas[s].holder.Held? ==>
          st.semas[s].holder.t < |st.threads| && !Inside(st.threads[st.semas[s].holder.t].pc, s))
    && st.semas[s].value <= 1
    && (st.semas[s].value == 1 ==> forall t :: !Between(st, s, t))
    && (st.semas[s].value == 0 ==> exists t :: Between(st, s, t))
    && (forall t, u :: Between(st, s, t) && Between(st, s, u) ==> t == u)
  }

  ghost predicate LocksOk(st: State) {
    && (forall s | 0 <= s < |st.semas| && st.semas[s].isLock :: LockOk(st, s))
    && (forall s | 0 <= s < |st.semas| && !st.semas[s].isLock :: st.semas[s].holder.Nobody?)
    && (forall t | 0 <= t < |st.threads| :: OfLock(st, st.threads[t].pc))
  }

  /** The places in lock_acquire and lock_release have to do with a lock. */
  predicate OfLock(st: State, pc: Pc) {
    pc.Got? || pc.Releasing? ==> pc.s < |st.semas| && st.semas[pc.s].isLock
  }

  /** A thread at this place has to do with semaphore `s`, or with none as far as locks go. */
  predicate Concerns(pc: Pc, s: Sid) {
    match pc
    case Got(r) => r == s
    case Releasing(r) => r == s
    case MidUp(r) => r == s
    case _ => true
  }

  /** A step of thread `t` on semaphore `s` leaves the other locks alone. */
  lemma OtherLocksOk(st: State, st': State, t: Tid, s: Sid)
    requires LocksOk(st) && t < |st.threads| && s < |st.semas|
    requires |st'.threads| == |st.threads| && |st'.semas| == |st.semas|
    requires forall u | 0 <= u < |st.threads| && u != t :: st'.threads[u].pc == st.threads[u].pc
    requires Concerns(st.threads[t].pc, s) && Concerns(st'.threads[t].pc, s)
    requires forall r | 0 <= r < |st.semas| && r != s :: st'.semas[r] == st.semas[r]
    requires st'.semas[s].isLock == st.semas[s].isLock
    requires st'.semas[s].isLock ==> LockOk(st', s)
    requires !st'.semas[s].isLock ==> st'.semas[s].holder.Nobody?
    requires OfLock(st', st'.threads[t].pc)
    ensures LocksOk(st')
  {
    forall r | 0 <= r < |st.semas| && r != s && st'.semas[r].isLock
      ensures LockOk(st', r)
    {
      assert LockOk(st, r);
      assert forall u :: Between(st', r, u) <==> Between(st, r, u);
    }
  }

  lemma TakeLocksOk(st: State, t: Tid, s: Sid)
    requires LocksOk(st) && t < |st.threads| && s < |st.semas| && st.semas[s].value > 0
    requires st.threads[t].pc.Outside? || st.threads[t].pc.Waiting?
    ensures var x := st.semas[s];
            LocksOk(WithPc(WithSema(st, s, x.(value := x.value - 1)), t, AfterDown(x, s)))
  {
    var x := st.semas[s];
    var st' := WithPc(WithSema(st, s, x.(value := x.value - 1)), t, AfterDown(x, s));
    if x.isLock {
      assert LockOk(st, s);
      assert !x.holder.Held? by {
        if x.holder.Held? { assert Between(st, s, x.holder.t); }
      }
      assert Between(st', s, t);
      assert forall u :: Between(st', s, u) <==> u == t || Between(st, s, u);
      assert LockOk(st', s);
    }
    OtherLocksOk(st, st', t, s);
  }

  predicate Free(pc: Pc) {
    pc.Outside? || pc.Asleep? || pc.Waiting?
  }

  /** Threads move on without entering or leaving any lock. */
  lemma SameLocksOk(st: State, st': State)
    requires LocksOk(st)
    requires |st'.threads| == |st.threads| && |st'.semas| == |st.semas|
    requires forall r | 0 <= r < |st.semas| ::
               st'.semas[r].isLock == st.semas[r].isLock && st'.semas[r].value == st.semas[r].value
               && st'.semas[r].holder == st.semas[r].holder
    requires forall u | 0 <= u < |st.threads| ::
               st'.threads[u].pc == st.threads[u].pc || (Free(st'.threads[u].pc) && Free(st.threads[u].pc))
    ensures LocksOk(st')
  {
    forall r | 0 <= r < |st.semas| && st'.semas[r].isLock
      ensures LockOk(st', r)
    {
      assert LockOk(st, r);
      assert forall u :: Between(st', r, u) <==> Between(st, r, u);
    }
  }

  /** The holder is set or cleared by a thread that is inside the lock before or after. */
  lemma HolderLocksOk(st: State, t: Tid, s: Sid, h: Holder, pc: Pc)
    requires LocksOk(st) && t < |st.threads| && s < |st.semas| && st.semas[s].isLock
    requires (st.threads[t].pc == Got(s) && h == Held(t) && pc == Outside)
             || (st.threads[t].pc == Outside && st.semas[s].holder == Held(t) && h == Nobody && pc == Releasing(s))
    ensures LocksOk(WithPc(WithSema(st, s, st.semas[s].(holder := h)), t, pc))
  {
    var st' := WithPc(WithSema(st, s, st.semas[s].(holder := h)), t, pc);
    assert LockOk(st, s);
    assert Between(st, s, t);
    assert forall u :: Between(st', s, u) <==> Between(st, s, u);
    assert LockOk(st', s);
    OtherLocksOk(st, st', t, s);
  }

  lemma IncrementLocksOk(st: State, t: Tid, s: Sid)
    requires LocksOk(st) && t < |st.threads| && s < |st.semas|
    requires Concerns(st.threads[t].pc, s) && (st.semas[s].isLock ==> Inside(st.threads[t].pc, s))
    ensures LocksOk(Increment(st, t, s))
  {
    var st' := Increment(st, t, s);
    if st.semas[s].isLock {
      assert LockOk(st, s) && Between(st, s, t);
      assert !st.semas[s].holder.Held? by {
        if st.semas[s].holder.Held? { assert Between(st, s, st.semas[s].holder.t); }
      }
      assert forall u :: Between(st', s, u) <==> Between(st, s, u) && u != t;
      assert LockOk(st', s);
    }
    OtherLocksOk(st, st', t, s);
  }

  lemma ScheduleLocksOk(st: State)
    requires InRange(st) && LocksOk(st)
    ensures LocksOk(Schedule(st))
  {
    SameLocksOk(st, Schedule(st));
  }

  lemma AsideLocksOk(st: State, t: Tid, s: Sid)
    requires LocksOk(st) && t < |st.threads| && s < |st.semas|
    requires if st.semas[s].isLock then st.threads[t].pc == Releasing(s) else st.threads[t].pc == Outside
    ensures LocksOk(SetAside(st, t, s))
  {
    var st' := SetAside(st, t, s);
    if st.semas[s].isLock {
      assert LockOk(st, s);
      assert forall u :: Between(st', s, u) <==> Between(st, s, u);
      assert LockOk(st', s);
    }
    OtherLocksOk(st, st', t, s);
  }

  lemma UpLocksOk(st: State, t: Tid, s: Sid)
    requires InRange(st) && LocksOk(st) && t < |st.threads| && s < |st.semas|
    requires if st.semas[s].isLock then st.threads[t].pc == Releasing(s) else st.threads[t].pc == Outside
    ensures LocksOk(UpStep(st, t, s))
  {
    if st.semas[s].waiters == [] {
      IncrementLocksOk(st, t, s);
    } else {
      var st' := Unblock(st, s);
      SameLocksOk(st, st');
      if st.threads[st.semas[s].waiters[0]].prio > st.threads[t].prio {
        AsideLocksOk(st', t, s);
        ScheduleLocksOk(SetAside(st', t, s));
      } else {
        IncrementLocksOk(st', t, s);
      }
    }
  }

  lemma DownLocksOk(st: State, t: Tid, s: Sid)
    requires InRange(st) && LocksOk(st) && t < |st.threads| && s < |st.semas|
    requires st.threads[t].pc.Outside? || st.threads[t].pc.Waiting?
    ensures LocksOk(DownStep(st, t, s))
  {
    var x := st.semas[s];
    if x.value > 0 {
      TakeLocksOk(st, t, s);
    } else {
      var st' := WithPc(WithSema(st, s, x.(waiters := x.waiters + [t])), t, Waiting(s));
      SameLocksOk(st, st');
      ScheduleLocksOk(st');
    }
  }

  lemma ActLocksOk(st: State, a: Action)
    requires InRange(st) && LocksOk(st) && st.cpu.Running? && CanAct(st, a)
    ensures LocksOk(ActStep(st, a))
  {
    var t := st.cpu.t;
    var pc := st.threads[t].pc;
    match a
    case Down(s) => DownLocksOk(st, t, s);
    case TryDown(s) => DownLocksOk(st, t, s);
    case Recheck => DownLocksOk(st, t, pc.s);
    case SetHolder => HolderLocksOk(st, t, pc.s, Held(t), Outside);
    case ClearHolder(s) => HolderLocksOk(st, t, s, Nobody, Releasing(s));
    case Up(s) => UpLocksOk(st, t, s);
    case ReleaseUp => UpLocksOk(st, t, pc.s);
    case FinishUp => IncrementLocksOk(st, t, pc.s);
    case Yield => SameLocksOk(st, ActStep(st, a));
    case SetPriority(_) => SameLocksOk(st, ActStep(st, a));
    case Sleep => SameLocksOk(st, ActStep(st, a));
    case Start(_) => SameLocksOk(st, ActStep(st, a));
  }

  lemma StepLocksOk(st: State, e: Event)
    requires LocksOk(st) && Enabled(st, e)
    ensures LocksOk(Step(st, e))
  {
    match e
    case Act(a) => ActLocksOk(st, a);
    case Wake(u) => SameLocksOk(st, Step(st, e));
    case LeaveIdle => ScheduleLocksOk(st);
  }

  // ---------- Whole runs ----------

  /** Runs the events one after the other; there is no result if one of them cannot happen. */
  ghost function Run(st: State, events: seq<Event>): (r: Processed) {
    if events == [] then Reached(st)
    else
      match Run(st, events[..|events| - 1])
      case Stuck => Stuck
      case Reached(before) =>
        var e := events[|events| - 1];
        if Enabled(before, e) then Reached(Step(before, e)) else Stuck
  }

  datatype Processed = Stuck | Reached(st: State)

  /** No thread that is ready has a higher priority than the running one. */
  ghost predicate TopRuns(st: State) {
    st.cpu.Running? ==> forall k | 0 <= k < |st.ready| :: NotAbove(st, st.ready[k], st.cpu.t)
  }

  predicate NotAbove(st: State, u: Tid, t: Tid) {
    u < |st.threads| && t < |st.threads| && st.threads[u].prio <= st.threads[t].prio
  }

  /** Nobody is in a synchronization operation, every lock is free, and the right thread runs. */
  ghost predicate Initial(st: State) {
    && Placed(st) && TopRuns(st)
    && (forall t | 0 <= t < |st.threads| :: st.threads[t].pc.Outside? || st.threads[t].pc.Asleep?)
    && (forall s | 0 <= s < |st.semas| :: st.semas[s].waiters == [] && st.semas[s].holder == Nobody)
    && (forall s | 0 <= s < |st.semas| && st.semas[s].isLock :: st.semas[s].value == 1)
  }

  /** In every state of every run, a thread's list element is on one list at most and every lock's
      accounts balance. */
  lemma {:induction false} RunKeepsLocks(st: State, events: seq<Event>)
    requires Initial(st) && Run(st, events).Reached?
    ensures Placed(Run(st, events).st) && LocksOk(Run(st, events).st)
  {
    if events == [] {
      forall s | 0 <= s < |st.semas| && st.semas[s].isLock
        ensures LockOk(st, s)
      {
        assert forall t :: !Between(st, s, t);
      }
    } else {
      var m := |events| - 1;
      RunKeepsLocks(st, events[..m]);
      StepPlaced(Run(st, events[..m]).st, events[m]);
      StepLocksOk(Run(st, events[..m]).st, events[m]);
    }
  }

  ghost function Owners(st: State, s: Sid): set<Tid>
    requires s < |st.semas|
  {
    set t | 0 <= t < |st.threads| && Between(st, s, t)
  }

  lemma LockAddsUp(st: State, s: Sid)
    requires s < |st.semas| && LockOk(st, s)
    ensures st.semas[s].value + |Owners(st, s)| == 1
  {
    if st.semas[s].value == 0 {
      var t: Tid :| Between(st, s, t);
      assert Owners(st, s) == {t};
    } else {
      assert Owners(st, s) == {};
    }
  }

  /** No thread's list element is on two lists, or twice on one: on the run queue only if the
      thread is ready, on a waiter list only if it is blocked. */
  ghost predicate OnOneList(st: State) {
    && Distinct(st.ready)
    && (st.cpu.Running? ==> st.cpu.t !in st.ready)
    && (forall s | 0 <= s < |st.semas| :: Distinct(st.semas[s].waiters))
    && (forall s, t | 0 <= s < |st.semas| && t in st.semas[s].waiters ::
          t !in st.ready && st.cpu != Running(t))
    && (forall r, s, t | 0 <= r < s < |st.semas| && t in st.semas[s].waiters :: t !in st.semas[r].waiters)
  }

  lemma PlacedOnOneList(st: State)
    requires Placed(st)
    ensures OnOneList(st)
  {
    forall s, t | 0 <= s < |st.semas| && t in st.semas[s].waiters
      ensures t !in st.ready && st.cpu != Running(t)
    {
      assert !Runnable(st, t);
    }
    forall r, s, t | 0 <= r < s < |st.semas| && t in st.semas[s].waiters
      ensures t !in st.semas[r].waiters
    {
      assert st.threads[t].pc == Waiting(s);
    }
  }

  /** In every run, including those that switch threads inside sema_up, a lock's value and the
      number of threads between a completed down and the matching increment add up to one. */
  lemma {:induction false} MutualExclusion(st: State, events: seq<Event>, s: Sid)
    requires Initial(st) && Run(st, events).Reached?
    requires s < |Run(st, events).st.semas| && Run(st, events).st.semas[s].isLock
    ensures Run(st, events).st.semas[s].value + |Owners(Run(st, events).st, s)| == 1
    ensures OnOneList(Run(st, events).st)
  {
    RunKeepsLocks(st, events);
    LockAddsUp(Run(st, events).st, s);
    PlacedOnOneList(Run(st, events).st);
  }

  // ---------- Lost wake-ups ----------

  /** The threads that were woken from semaphore `s` and have not rechecked its value yet. */
  ghost function Woken(st: State, s: Sid): set<Tid>
    requires s < |st.semas|
  {
    set t | 0 <= t < |st.threads| && st.threads[t].pc == Waiting(s) && t !in st.semas[s].waiters
  }

  /** While threads wait for `s`, every unit of its value has a woken thread that will look at it. */
  ghost predicate NoneLost(st: State, s: Sid)
    requires s < |st.semas|
  {
    st.semas[s].waiters != [] ==> st.semas[s].value <= |Woken(st, s)|
  }

  ghost predicate NoneLostAnywhere(st: State) {
    forall s | 0 <= s < |st.semas| :: NoneLost(st, s)
  }

  /** No thread is held up in the middle of sema_up. */
  ghost predicate NoneAside(st: State) {
    forall t | 0 <= t < |st.threads| :: !st.threads[t].pc.MidUp?
  }

  /** A step of thread `t` on semaphore `s` leaves the other semaphores alone. */
  lemma OthersNoneLost(st: State, st': State, t: Tid, s: Sid)
    requires NoneLostAnywhere(st) && t < |st.threads| && s < |st.semas|
    requires |st'.threads| == |st.threads| && |st'.semas| == |st.semas|
    requires forall u | 0 <= u < |st.threads| && u != t :: st'.threads[u].pc == st.threads[u].pc
    requires forall r | 0 <= r < |st.semas| && r != s :: st'.semas[r] == st.semas[r]
    requires st.threads[t].pc == Waiting(s) || !st.threads[t].pc.Waiting?
    requires st'.threads[t].pc == Waiting(s) || !st'.threads[t].pc.Waiting?
    requires NoneLost(st', s)
    ensures NoneLostAnywhere(st')
  {
    forall r | 0 <= r < |st.semas| && r != s
      ensures NoneLost(st', r)
    {
      assert NoneLost(st, r);
      assert Woken(st', r) == Woken(st, r);
    }
  }

  /** Threads move on without entering or leaving a wait, and no value or list changes. */
  lemma SameNoneLost(st: State, st': State)
    requires NoneLostAnywhere(st)
    requires |st'.threads| == |st.threads| && |st'.semas| == |st.semas|
    requires forall r | 0 <= r < |st.semas| ::
               st'.semas[r].value == st.semas[r].value && st'.semas[r].waiters == st.semas[r].waiters
    requires forall u | 0 <= u < |st.threads| ::
               st'.threads[u].pc == st.threads[u].pc || (!st'.threads[u].pc.Waiting? && !st.threads[u].pc.Waiting?)
    ensures NoneLostAnywhere(st')
  {
    forall r | 0 <= r < |st.semas|
      ensures NoneLost(st', r)
    {
      assert NoneLost(st, r);
      assert Woken(st', r) == Woken(st, r);
    }
  }

  lemma DownNoneLost(st: State, t: Tid, s: Sid)
    requires InRange(st) && NoneLostAnywhere(st) && t < |st.threads| && s < |st.semas|
    requires st.threads[t].pc.Outside? || (st.threads[t].pc == Waiting(s) && t !in st.semas[s].waiters)
    ensures NoneLostAnywhere(DownStep(st, t, s))
  {
    var x := st.semas[s];
    if x.value > 0 {
      var st' := DownStep(st, t, s);
      assert NoneLost(st, s);
      assert Woken(st', s) == Woken(st, s) - {t};
      OthersNoneLost(st, st', t, s);
    } else {
      var st' := WithPc(WithSema(st, s, x.(waiters := x.waiters + [t])), t, Waiting(s));
      OthersNoneLost(st, st', t, s);
      SameNoneLost(st', Schedule(st'));
    }
  }

  lemma IncrementNoneLost(st: State, t: Tid, s: Sid)
    requires NoneLostAnywhere(st) && t < |st.threads| && s < |st.semas| && !st.threads[t].pc.Waiting?
    requires st.semas[s].waiters != [] ==> st.semas[s].value < |Woken(st, s)|
    ensures NoneLostAnywhere(Increment(st, t, s))
  {
    var st' := Increment(st, t, s);
    assert Woken(st', s) == Woken(st, s);
    OthersNoneLost(st, st', t, s);
  }

  /** An unblocked waiter is a woken thread more, before the value is incremented. */
  lemma UnblockGains(st: State, s: Sid)
    requires Placed(st) && NoneLostAnywhere(st) && s < |st.semas| && st.semas[s].waiters != []
    ensures NoneLostAnywhere(Unblock(st, s))
    ensures st.semas[s].value < |Woken(Unblock(st, s), s)|
  {
    var w := st.semas[s].waiters[0];
    var st' := Unblock(st, s);
    assert w in st.semas[s].waiters;
    WithoutOne(st.semas[s].waiters, 0);
    assert Without(st.semas[s].waiters, 0) == st.semas[s].waiters[1..];
    assert NoneLost(st, s);
    assert Woken(st', s) == Woken(st, s) + {w};
    OthersNoneLost(st, st', w, s);
  }

  lemma UpNoneLost(st: State, t: Tid, s: Sid)
    requires Placed(st) && NoneLostAnywhere(st) && t < |st.threads| && s < |st.semas| && !st.threads[t].pc.Waiting?
    requires st.semas[s].waiters != [] ==> st.threads[st.semas[s].waiters[0]].prio <= st.threads[t].prio
    ensures NoneLostAnywhere(UpStep(st, t, s))
  {
    if st.semas[s].waiters == [] {
      IncrementNoneLost(st, t, s);
    } else {
      UnblockGains(st, s);
      IncrementNoneLost(Unblock(st, s), t, s);
    }
  }

  /** The running thread is not about to be preempted inside sema_up. */
  ghost predicate Unpreempted(st: State, a: Action)
    requires InRange(st) && st.cpu.Running? && CanAct(st, a)
  {
    var t := st.cpu.t;
    var s := if a.Up? then a.s else if a.ReleaseUp? then st.threads[t].pc.s else 0;
    (a.Up? || a.ReleaseUp?) && st.semas[s].waiters != [] ==> st.threads[st.semas[s].waiters[0]].prio <= st.threads[t].prio
  }

  lemma ActNoneLost(st: State, a: Action)
    requires Placed(st) && NoneLostAnywhere(st) && NoneAside(st) && st.cpu.Running? && CanAct(st, a)
    requires Unpreempted(st, a)
    ensures NoneLostAnywhere(ActStep(st, a))
  {
    var t := st.cpu.t;
    var pc := st.threads[t].pc;
    match a
    case Down(s) => DownNoneLost(st, t, s);
    case TryDown(s) => DownNoneLost(st, t, s);
    case Recheck => DownNoneLost(st, t, pc.s);
    case SetHolder => SameNoneLost(st, ActStep(st, a));
    case ClearHolder(s) => SameNoneLost(st, ActStep(st, a));
    case Up(s) => UpNoneLost(st, t, s);
    case ReleaseUp => UpNoneLost(st, t, pc.s);
    case FinishUp => assert false;
    case Yield => SameNoneLost(st, ActStep(st, a));
    case SetPriority(_) => SameNoneLost(st, ActStep(st, a));
    case Sleep => SameNoneLost(st, ActStep(st, a));
    case Start(_) => SameNoneLost(st, ActStep(st, a));
  }

  /** A preempted up leaves its thread in the middle of sema_up. */
  lemma PreemptionShows(st: State, a: Action)
    requires Placed(st) && st.cpu.Running? && CanAct(st, a) && !Unpreempted(st, a)
    ensures !NoneAside(ActStep(st, a))
  {
    var t := st.cpu.t;
    assert ActStep(st, a).threads[t].pc.MidUp?;
  }

  lemma StepNoneLost(st: State, e: Event)
    requires Placed(st) && NoneLostAnywhere(st) && NoneAside(st) && Enabled(st, e) && NoneAside(Step(st, e))
    ensures NoneLostAnywhere(Step(st, e))
  {
    match e
    case Act(a) =>
      if Unpreempted(st, a) {
        ActNoneLost(st, a);
      } else {
        PreemptionShows(st, a);
      }
    case Wake(u) => SameNoneLost(st, Step(st, e));
    case LeaveIdle => SameNoneLost(st, Step(st, e));
  }

  /** In no state of the run is a thread held up in the middle of sema_up. */
  ghost predicate NeverPreempted(st: State, events: seq<Event>) {
    forall k | 0 <= k <= |events| :: Run(st, events[..k]).Reached? ==> NoneAside(Run(st, events[..k]).st)
  }

  /** If sema_up is never preempted by the thread it wakes, no wake-up is lost, whoever else comes
      in between. */
  lemma {:induction false} RunLosesNothing(st: State, events: seq<Event>)
    requires Initial(st) && Run(st, events).Reached? && NeverPreempted(st, events)
    ensures NoneLostAnywhere(Run(st, events).st)
  {
    assert events[..|events|] == events;
    if events != [] {
      var m := |events| - 1;
      assert forall k | 0 <= k <= m :: events[..m][..k] == events[..k];
      RunLosesNothing(st, events[..m]);
      RunKeepsLocks(st, events[..m]);
      StepNoneLost(Run(st, events[..m]).st, events[m]);
    }
  }

  // ---------- The right thread runs ----------

  lemma ScheduleTop(st: State)
    requires InRange(st)
    ensures TopRuns(Schedule(st))
  {
  }

  /** The same thread goes on running, and nobody above it becomes ready. */
  lemma StillTop(st: State, st': State)
    requires TopRuns(st) && st'.cpu == st.cpu && SamePriorities(st, st')
    requires forall k | 0 <= k < |st'.ready| :: st'.ready[k] in st.ready || (st.cpu.Running? ==> NotAbove(st, st'.ready[k], st.cpu.t))
    ensures TopRuns(st')
  {
  }

  lemma DownTop(st: State, t: Tid, s: Sid)
    requires InRange(st) && TopRuns(st) && st.cpu == Running(t) && s < |st.semas|
    ensures TopRuns(DownStep(st, t, s))
  {
    var x := st.semas[s];
    if x.value > 0 {
      StillTop(st, DownStep(st, t, s));
    } else {
      ScheduleTop(WithPc(WithSema(st, s, x.(waiters := x.waiters + [t])), t, Waiting(s)));
    }
  }

  lemma UpTop(st: State, t: Tid, s: Sid)
    requires InRange(st) && TopRuns(st) && st.cpu == Running(t) && s < |st.semas|
    ensures TopRuns(UpStep(st, t, s))
  {
    if st.semas[s].waiters == [] || st.threads[st.semas[s].waiters[0]].prio <= st.threads[t].prio {
      StillTop(st, UpStep(st, t, s));
    } else {
      ScheduleTop(SetAside(Unblock(st, s), t, s));
    }
  }

  lemma StartTop(st: State, t: Tid, u: Tid)
    requires InRange(st) && TopRuns(st) && st.cpu == Running(t) && u < |st.threads|
    ensures TopRuns(StartStep(st, t, u))
  {
    if st.threads[u].prio > st.threads[t].prio {
      ScheduleTop(Woke(st, u).(ready := st.ready + [u] + [t]));
    } else {
      StillTop(st, Woke(st, u));
    }
  }

  lemma ActTop(st: State, a: Action)
    requires InRange(st) && TopRuns(st) && st.cpu.Running? && CanAct(st, a) && !a.SetPriority?
    ensures TopRuns(ActStep(st, a))
  {
    var t := st.cpu.t;
    match a
    case Down(s) => DownTop(st, t, s);
    case TryDown(s) => DownTop(st, t, s);
    case Recheck => DownTop(st, t, st.threads[t].pc.s);
    case SetHolder => StillTop(st, ActStep(st, a));
    case ClearHolder(s) => StillTop(st, ActStep(st, a));
    case Up(s) => UpTop(st, t, s);
    case ReleaseUp => UpTop(st, t, st.threads[t].pc.s);
    case FinishUp => StillTop(st, ActStep(st, a));
    case Yield => ScheduleTop(st.(ready := st.ready + [t]));
    case Sleep => ScheduleTop(WithPc(st, t, Asleep));
    case Start(u) => StartTop(st, t, u);
  }

  /** Every step but a change of priority keeps the highest priority running. */
  lemma StepTop(st: State, e: Event)
    requires TopRuns(st) && Enabled(st, e) && !(e.Act? && e.action.SetPriority?)
    ensures TopRuns(Step(st, e))
  {
    match e
    case Act(a) => ActTop(st, a);
    case Wake(u) => StillTop(st, Woke(st, u));
    case LeaveIdle => ScheduleTop(st);
  }

  /** With fixed priorities, no ready thread ever has a higher priority than the running one. */
  lemma {:induction false} RunKeepsTop(st: State, events: seq<Event>)
    requires Initial(st) && PrioritiesFixed(events) && Run(st, events).Reached?
    ensures TopRuns(Run(st, events).st)
  {
    if events != [] {
      var m := |events| - 1;
      RunKeepsTop(st, events[..m]);
      StepTop(Run(st, events[..m]).st, events[m]);
    }
  }

  // ---------- Exactly when wake-ups can be lost ----------

  ghost function Priorities(st: State): seq<int> {
    seq(|st.threads|, t requires 0 <= t < |st.threads| => st.threads[t].prio)
  }

  ghost predicate PrioritiesFixed(events: seq<Event>) {
    forall k | 0 <= k < |events| :: !(events[k].Act? && events[k].action.SetPriority?)
  }

  ghost predicate AllEqual(p: seq<int>) {
    forall i, j | 0 <= i < |p| && 0 <= j < |p| :: p[i] == p[j]
  }

  ghost predicate SamePriorities(st: State, st': State) {
    |st'.threads| == |st.threads| && forall t | 0 <= t < |st.threads| :: st'.threads[t].prio == st.threads[t].prio
  }

  /** Only the place of thread `t` changes, and not to the middle of sema_up. */
  ghost predicate MovesOn(st: State, st': State, t: Tid)
    requires t < |st.threads|
  {
    exists pc: Pc :: !pc.MidUp? && st'.threads == st.threads[t := st.threads[t].(pc := pc)]
  }

  lemma MovesOnKeeps(st: State, st': State, t: Tid)
    requires t < |st.threads| && MovesOn(st, st', t)
    ensures SamePriorities(st, st') && (NoneAside(st) ==> NoneAside(st'))
  {
  }

  lemma DownMovesOn(st: State, t: Tid, s: Sid)
    requires InRange(st) && t < |st.threads| && s < |st.semas|
    ensures MovesOn(st, DownStep(st, t, s), t)
  {
    var pc := if st.semas[s].value > 0 then AfterDown(st.semas[s], s) else Waiting(s);
    assert DownStep(st, t, s).threads == st.threads[t := st.threads[t].(pc := pc)];
  }

  lemma UpMovesOn(st: State, t: Tid, s: Sid)
    requires InRange(st) && t < |st.threads| && s < |st.semas|
    requires st.semas[s].waiters != [] ==> st.threads[st.semas[s].waiters[0]].prio <= st.threads[t].prio
    ensures MovesOn(st, UpStep(st, t, s), t)
  {
    assert UpStep(st, t, s).threads == st.threads[t := st.threads[t].(pc := Outside)];
  }

  lemma ActMovesOn(st: State, a: Action)
    requires InRange(st) && st.cpu.Running? && CanAct(st, a) && Unpreempted(st, a) && !a.SetPriority? && !a.Start?
    ensures MovesOn(st, ActStep(st, a), st.cpu.t)
  {
    var t := st.cpu.t;
    var pc := st.threads[t].pc;
    match a
    case Down(s) => DownMovesOn(st, t, s);
    case TryDown(s) =>
      DownMovesOn(st, t, s);
      assert st.threads == st.threads[t := st.threads[t].(pc := pc)];
    case Recheck => DownMovesOn(st, t, pc.s);
    case Up(s) => UpMovesOn(st, t, s);
    case ReleaseUp => UpMovesOn(st, t, pc.s);
    case SetHolder => assert ActStep(st, a).threads == st.threads[t := st.threads[t].(pc := Outside)];
    case ClearHolder(s) => assert ActStep(st, a).threads == st.threads[t := st.threads[t].(pc := Releasing(s))];
    case FinishUp => assert ActStep(st, a).threads == st.threads[t := st.threads[t].(pc := Outside)];
    case Yield => assert ActStep(st, a).threads == st.threads[t := st.threads[t].(pc := pc)];
    case Sleep => assert ActStep(st, a).threads == st.threads[t := st.threads[t].(pc := Asleep)];
  }

  lemma StepKeepsEqual(st: State, e: Event)
    requires Enabled(st, e) && NoneAside(st) && !(e.Act? && e.action.SetPriority?)
    requires forall t, u | 0 <= t < |st.threads| && 0 <= u < |st.threads| :: st.threads[t].prio == st.threads[u].prio
    ensures NoneAside(Step(st, e)) && SamePriorities(st, Step(st, e))
  {
    match e
    case Act(a) =>
      if !a.Start? {
        assert Unpreempted(st, a);
        ActMovesOn(st, a);
        MovesOnKeeps(st, ActStep(st, a), st.cpu.t);
      }
    case Wake(u) =>
    case LeaveIdle =>
  }

  /** With equal priorities, sema_up is never preempted. */
  lemma {:induction false} EqualNeverPreempted(st: State, events: seq<Event>)
    requires Run(st, events).Reached? && PrioritiesFixed(events) && AllEqual(Priorities(st)) && NoneAside(st)
    ensures NoneAside(Run(st, events).st) && SamePriorities(st, Run(st, events).st)
  {
    if events != [] {
      var m := |events| - 1;
      EqualNeverPreempted(st, events[..m]);
      var before := Run(st, events[..m]).st;
      assert forall t | 0 <= t < |st.threads| :: Priorities(st)[t] == before.threads[t].prio;
      StepKeepsEqual(before, events[m]);
    }
  }

  /** Some events, none of them a change of priority, lead from one state to the other. */
  ghost predicate Reaches(st: State, st': State) {
    exists events: seq<Event> :: PrioritiesFixed(events) && Run(st, events) == Reached(st')
  }

  lemma ReachesItself(st: State)
    ensures Reaches(st, st)
  {
    assert PrioritiesFixed([]) && Run(st, []) == Reached(st);
  }

  lemma ReachesMore(st: State, before: State, a: Action, after: State)
    requires Reaches(st, before) && !a.SetPriority?
    requires Enabled(before, Act(a)) && Step(before, Act(a)) == after
    ensures Reaches(st, after)
  {
    var events: seq<Event> :| PrioritiesFixed(events) && Run(st, events) == Reached(before);
    var more := events + [Act(a)];
    assert more[..|more| - 1] == events;
    assert PrioritiesFixed(more) && Run(st, more) == Reached(after);
  }

  /** One lock and two active threads, `i` and `j`; the others are asleep. */
  datatype Scene = Scene(prios: seq<int>, i: Tid, j: Tid) {
    predicate Valid() {
      i < |prios| && j < |prios| && prios[i] < prios[j]
    }

    ghost function Threads(atI: Pc, atJ: Pc): (ts: seq<Thread>)
      requires Valid()
      ensures |ts| == |prios| && ts[i] == Thread(atI, prios[i]) && ts[j] == Thread(atJ, prios[j])
      ensures forall k | 0 <= k < |ts| && k != i && k != j :: ts[k] == Thread(Asleep, prios[k])
    {
      seq(|prios|, k requires 0 <= k < |prios| =>
        Thread(if k == i then atI else if k == j then atJ else Asleep, prios[k]))
    }

    ghost function At(x: Sema, atI: Pc, atJ: Pc, ready: seq<Tid>, cpu: Processor): State
      requires Valid()
    {
      State([x], Threads(atI, atJ), ready, cpu)
    }

    lemma Moved(atI: Pc, atJ: Pc, pc: Pc)
      requires Valid()
      ensures Threads(atI, atJ)[i := Thread(pc, prios[i])] == Threads(pc, atJ)
      ensures Threads(atI, atJ)[j := Thread(pc, prios[j])] == Threads(atI, pc)
    {
    }

    /** Between `i` and `j`, the scheduler takes `j` first. */
    lemma TakesJ(x: Sema, atI: Pc, atJ: Pc, cpu: Processor)
      requires Valid() && PcInRange(atI, 1) && PcInRange(atJ, 1) && x.waiters == []
      requires cpu.Running? ==> cpu.t < |prios|
      ensures var st := At(x, atI, atJ, [j, i], cpu);
              InRange(st) && Schedule(st) == At(x, atI, atJ, [i], Running(j))
    {
      var ready := [j, i];
      assert ready[0] == j && ready[1] == i;
      assert Without(ready, 0) == [i];
    }

    lemma TakesI(x: Sema, atI: Pc, atJ: Pc, cpu: Processor)
      requires Valid() && PcInRange(atI, 1) && PcInRange(atJ, 1) && x.waiters == [j]
      requires cpu.Running? ==> cpu.t < |prios|
      ensures var st := At(x, atI, atJ, [i], cpu);
              InRange(st) && Schedule(st) == At(x, atI, atJ, [], Running(i))
    {
      assert Without([i], 0) == [];
    }

    lemma InRangeAt(x: Sema, atI: Pc, atJ: Pc, ready: seq<Tid>, cpu: Processor)
      requires Valid() && PcInRange(atI, 1) && PcInRange(atJ, 1)
      requires (forall k | 0 <= k < |x.waiters| :: x.waiters[k] < |prios|)
      requires (forall k | 0 <= k < |ready| :: ready[k] < |prios|)
      requires cpu.Running? ==> cpu.t < |prios|
      ensures InRange(At(x, atI, atJ, ready, cpu))
    {
    }

    lemma Takes(from: State)
      requires Valid()
      requires Reaches(from, At(Sema(true, 1, [], Nobody), Outside, Asleep, [], Running(i)))
      ensures Reaches(from, At(Sema(true, 0, [], Nobody), Got(0), Asleep, [], Running(i)))
    {
      InRangeAt(Sema(true, 1, [], Nobody), Outside, Asleep, [], Running(i));
      Moved(Outside, Asleep, Got(0));
      ReachesMore(from, At(Sema(true, 1, [], Nobody), Outside, Asleep, [], Running(i)), Down(0),
                  At(Sema(true, 0, [], Nobody), Got(0), Asleep, [], Running(i)));
    }

    lemma BecomesHolder(from: State)
      requires Valid()
      requires Reaches(from, At(Sema(true, 0, [], Nobody), Got(0), Asleep, [], Running(i)))
      ensures Reaches(from, At(Sema(true, 0, [], Held(i)), Outside, Asleep, [], Running(i)))
    {
      InRangeAt(Sema(true, 0, [], Nobody), Got(0), Asleep, [], Running(i));
      Moved(Got(0), Asleep, Outside);
      ReachesMore(from, At(Sema(true, 0, [], Nobody), Got(0), Asleep, [], Running(i)), SetHolder,
                  At(Sema(true, 0, [], Held(i)), Outside, Asleep, [], Running(i)));
    }

    /** `i` starts `j`, which goes first. */
    lemma Starts(from: State)
      requires Valid()
      requires Reaches(from, At(Sema(true, 0, [], Held(i)), Outside, Asleep, [], Running(i)))
      ensures Reaches(from, At(Sema(true, 0, [], Held(i)), Outside, Outside, [i], Running(j)))
    {
      InRangeAt(Sema(true, 0, [], Held(i)), Outside, Asleep, [], Running(i));
      Moved(Outside, Asleep, Outside);
      var x := Sema(true, 0, [], Held(i));
      var st := At(x, Outside, Asleep, [], Running(i));
      assert Woke(st, j).(ready := [] + [j] + [i]) == At(x, Outside, Outside, [j, i], Running(i)) by {
        assert [] + [j] + [i] == [j, i];
      }
      TakesJ(x, Outside, Outside, Running(i));
      ReachesMore(from, st, Start(j), At(x, Outside, Outside, [i], Running(j)));
    }

    /** `j` finds the value zero and queues up; the processor goes back to `i`. */
    lemma Queues(from: State, h: Holder, atI: Pc, atJ: Pc, a: Action)
      requires Valid() && PcInRange(atI, 1) && h != Held(j)
      requires (a == Down(0) && atJ == Outside) || (a == Recheck && atJ == Waiting(0))
      requires Reaches(from, At(Sema(true, 0, [], h), atI, atJ, [i], Running(j)))
      ensures Reaches(from, At(Sema(true, 0, [j], h), atI, Waiting(0), [], Running(i)))
    {
      InRangeAt(Sema(true, 0, [], h), atI, atJ, [i], Running(j));
      Moved(atI, atJ, Waiting(0));
      var x := Sema(true, 0, [], h);
      var st := At(x, atI, atJ, [i], Running(j));
      assert x.waiters + [j] == [j] && [x][0 := x.(waiters := [j])] == [x.(waiters := [j])];
      assert WithPc(WithSema(st, 0, x.(waiters := [j])), j, Waiting(0)) == At(x.(waiters := [j]), atI, Waiting(0), [i], Running(j));
      TakesI(Sema(true, 0, [j], h), atI, Waiting(0), Running(j));
      ReachesMore(from, At(Sema(true, 0, [], h), atI, atJ, [i], Running(j)), a,
                  At(Sema(true, 0, [j], h), atI, Waiting(0), [], Running(i)));
    }

    lemma ClearsHolder(from: State)
      requires Valid()
      requires Reaches(from, At(Sema(true, 0, [j], Held(i)), Outside, Waiting(0), [], Running(i)))
      ensures Reaches(from, At(Sema(true, 0, [j], Nobody), Releasing(0), Waiting(0), [], Running(i)))
    {
      InRangeAt(Sema(true, 0, [j], Held(i)), Outside, Waiting(0), [], Running(i));
      Moved(Outside, Waiting(0), Releasing(0));
      ReachesMore(from, At(Sema(true, 0, [j], Held(i)), Outside, Waiting(0), [], Running(i)), ClearHolder(0),
                  At(Sema(true, 0, [j], Nobody), Releasing(0), Waiting(0), [], Running(i)));
    }

    /** `i` wakes `j`, which goes first. */
    lemma IsPreempted(from: State)
      requires Valid()
      requires Reaches(from, At(Sema(true, 0, [j], Nobody), Releasing(0), Waiting(0), [], Running(i)))
      ensures Reaches(from, At(Sema(true, 0, [], Nobody), MidUp(0), Waiting(0), [i], Running(j)))
    {
      InRangeAt(Sema(true, 0, [j], Nobody), Releasing(0), Waiting(0), [], Running(i));
      Moved(Releasing(0), Waiting(0), MidUp(0));
      var x := Sema(true, 0, [j], Nobody);
      var st := At(x, Releasing(0), Waiting(0), [], Running(i));
      assert x.waiters[1..] == [] && [x][0 := x.(waiters := [])] == [x.(waiters := [])];
      assert Unblock(st, 0) == At(x.(waiters := []), Releasing(0), Waiting(0), [j], Running(i)) by {
        assert [] + [j] == [j];
      }
      assert SetAside(Unblock(st, 0), i, 0) == At(x.(waiters := []), MidUp(0), Waiting(0), [j, i], Running(i)) by {
        assert [j] + [i] == [j, i];
      }
      TakesJ(Sema(true, 0, [], Nobody), MidUp(0), Waiting(0), Running(i));
      ReachesMore(from, At(Sema(true, 0, [j], Nobody), Releasing(0), Waiting(0), [], Running(i)), ReleaseUp,
                  At(Sema(true, 0, [], Nobody), MidUp(0), Waiting(0), [i], Running(j)));
    }

    lemma Finishes(from: State)
      requires Valid()
      requires Reaches(from, At(Sema(true, 0, [j], Nobody), MidUp(0), Waiting(0), [], Running(i)))
      ensures Reaches(from, At(Sema(true, 1, [j], Nobody), Outside, Waiting(0), [], Running(i)))
    {
      InRangeAt(Sema(true, 0, [j], Nobody), MidUp(0), Waiting(0), [], Running(i));
      Moved(MidUp(0), Waiting(0), Outside);
      ReachesMore(from, At(Sema(true, 0, [j], Nobody), MidUp(0), Waiting(0), [], Running(i)), FinishUp,
                  At(Sema(true, 1, [j], Nobody), Outside, Waiting(0), [], Running(i)));
    }
  }

  lemma SceneBegins(c: Scene)
    requires c.Valid()
    ensures Initial(c.At(Sema(true, 1, [], Nobody), Outside, Asleep, [], Running(c.i)))
    ensures Priorities(c.At(Sema(true, 1, [], Nobody), Outside, Asleep, [], Running(c.i))) == c.prios
  {
    c.InRangeAt(Sema(true, 1, [], Nobody), Outside, Asleep, [], Running(c.i));
  }

  /** Lock `s` is free and thread `j` alone waits for it, but nobody has been woken to take it and
      nobody is in the middle of giving it up. */
  ghost predicate LeftWaiting(st: State, s: Sid, j: Tid) {
    && s < |st.semas| && st.semas[s] == Sema(true, 1, [j], Nobody)
    && Woken(st, s) == {} && NoneAside(st) && st.cpu != Running(j) && j !in st.ready
  }

  lemma SceneEnds(c: Scene)
    requires c.Valid()
    ensures LeftWaiting(c.At(Sema(true, 1, [c.j], Nobody), Outside, Waiting(0), [], Running(c.i)), 0, c.j)
    ensures !NoneLostAnywhere(c.At(Sema(true, 1, [c.j], Nobody), Outside, Waiting(0), [], Running(c.i)))
  {
    var st := c.At(Sema(true, 1, [c.j], Nobody), Outside, Waiting(0), [], Running(c.i));
    assert Woken(st, 0) == {};
    assert !NoneLost(st, 0);
  }

  /** A thread of lower priority takes a lock and starts one of higher priority, which waits for it.
      When the lock is given up the wake-up is lost. */
  lemma WakeupLost(c: Scene) returns (st: State, events: seq<Event>)
    requires c.Valid()
    ensures Initial(st) && Priorities(st) == c.prios && PrioritiesFixed(events)
    ensures Run(st, events).Reached? && LeftWaiting(Run(st, events).st, 0, c.j)
    ensures !NoneLostAnywhere(Run(st, events).st)
  {
    st := c.At(Sema(true, 1, [], Nobody), Outside, Asleep, [], Running(c.i));
    ReachesItself(st);
    c.Takes(st);
    c.BecomesHolder(st);
    c.Starts(st);
    c.Queues(st, Held(c.i), Outside, Outside, Down(0));
    c.ClearsHolder(st);
    c.IsPreempted(st);
    c.Queues(st, Nobody, MidUp(0), Waiting(0), Recheck);
    c.Finishes(st);
    var end := c.At(Sema(true, 1, [c.j], Nobody), Outside, Waiting(0), [], Running(c.i));
    events :| PrioritiesFixed(events) && Run(st, events) == Reached(end);
    SceneBegins(c);
    SceneEnds(c);
  }

  /** With fixed priorities, no run can lose a wake-up exactly if all priorities are equal. */
  lemma NoneLostIffEqual(prios: seq<int>)
    ensures AllEqual(prios) <==>
            forall st: State, events: seq<Event> |
              Initial(st) && Priorities(st) == prios && PrioritiesFixed(events) && Run(st, events).Reached? ::
              NoneLostAnywhere(Run(st, events).st)
  {
    if AllEqual(prios) {
      forall st: State, events: seq<Event> |
        Initial(st) && Priorities(st) == prios && PrioritiesFixed(events) && Run(st, events).Reached?
        ensures NoneLostAnywhere(Run(st, events).st)
      {
        EqualLosesNothing(st, events);
      }
    } else {
      var i, j :| 0 <= i < |prios| && 0 <= j < |prios| && prios[i] != prios[j];
      var c := if prios[i] < prios[j] then Scene(prios, i, j) else Scene(prios, j, i);
      var st, events := WakeupLost(c);
    }
  }

  lemma {:induction false} EqualLosesNothing(st: State, events: seq<Event>)
    requires Initial(st) && AllEqual(Priorities(st)) && PrioritiesFixed(events) && Run(st, events).Reached?
    ensures NoneLostAnywhere(Run(st, events).st)
  {
    forall k | 0 <= k <= |events| && Run(st, events[..k]).Reached?
      ensures NoneAside(Run(st, events[..k]).st)
    {
      EqualNeverPreempted(st, events[..k]);
    }
    RunLosesNothing(st, events);
  }

}
