/** The run queue of threads/thread.c: two arrays of 64 queues, one queue for each priority, with a
    bitmap of the queues that are not empty. Each array refines one plain list of threads in the
    order in which they came. */
module RunQueue {
  import opened Common
  import opened Bitmaps

  const PRI_MAX: nat := 63

  type Priority = p: int | 0 <= p <= 63

  /** A thread. Its priority does not change while it is on the run queue. */
  class Thread {
    const priority: Priority
    var timeslice: int

    constructor (p: Priority)
      ensures priority == p && timeslice == p + 5
    {
      priority, timeslice := p, p + 5;
    }
  }

  // ---------- The plain list ----------

  /** The threads of one priority, in order. */
  ghost function OfPriority(s: seq<Thread>, p: int): seq<Thread> {
    if s == [] then []
    else
      var m := |s| - 1;
      OfPriority(s[..m], p) + (if s[m].priority == p then [s[m]] else [])
  }

  /** The place of the oldest thread of the highest priority. */
  ghost function Oldest(s: seq<Thread>): (i: nat)
    requires s != []
    ensures i < |s|
    ensures forall j | 0 <= j < |s| :: s[j].priority <= s[i].priority
    ensures forall j | 0 <= j < i :: s[j].priority < s[i].priority
  {
    var m := |s| - 1;
    if m == 0 then 0
    else
      var i := Oldest(s[..m]);
      assert forall j | 0 <= j < m :: s[..m][j] == s[j];
      if s[m].priority > s[i].priority then m else i
  }

  lemma {:induction false} OfPriorityConcat(s: seq<Thread>, t: seq<Thread>, p: int)
    ensures OfPriority(s + t, p) == OfPriority(s, p) + OfPriority(t, p)
  {
    if t == [] {
      assert s + t == s;
    } else {
      var m := |t| - 1;
      assert (s + t)[..|s + t| - 1] == s + t[..m];
      OfPriorityConcat(s, t[..m], p);
    }
  }

  lemma {:induction false} OfPriorityEmpty(s: seq<Thread>, p: int)
    ensures OfPriority(s, p) == [] <==> forall i | 0 <= i < |s| :: s[i].priority != p
  {
    if s != [] {
      var m := |s| - 1;
      OfPriorityEmpty(s[..m], p);
      assert forall i | 0 <= i < m :: s[..m][i] == s[i];
    }
  }

  lemma {:induction false} OfPriorityAdd(s: seq<Thread>, t: Thread, p: int)
    ensures OfPriority(s + [t], p) == OfPriority(s, p) + if t.priority == p then [t] else []
  {
    assert (s + [t])[..|s|] == s;
  }

  lemma {:induction false} TakenOut(A: seq<Thread>, x: Thread, B: seq<Thread>, p: int)
    ensures x.priority != p ==> OfPriority(A + [x] + B, p) == OfPriority(A + B, p)
    ensures x.priority == p && OfPriority(A, p) == [] ==> OfPriority(A + [x] + B, p) == [x] + OfPriority(A + B, p)
  {
    OfPriorityConcat(A + [x], B, p);
    OfPriorityAdd(A, x, p);
    OfPriorityConcat(A, B, p);
  }

  /** The first thread of the highest priority heads the queue of that priority, and taking it out
      takes the head off that queue and leaves the other queues alone. */
  lemma {:induction false} OldestHeadsQueue(s: seq<Thread>, p: int)
    requires s != []
    ensures var x := s[Oldest(s)];
            OfPriority(s, p) == (if p == x.priority then [x] else []) + OfPriority(Without(s, Oldest(s)), p)
  {
    var i := Oldest(s);
    var A, B := s[..i], s[i + 1..];
    assert s == A + [s[i]] + B;
    OfPriorityEmpty(A, s[i].priority);
    TakenOut(A, s[i], B, p);
  }

  // ---------- One array of queues ----------

  class PrioArray {
    var num: nat
    const occupied: Bitmap
    const queue: array<seq<Thread>>
    ghost var arrivals: seq<Thread>

    ghost predicate Valid()
      reads this, occupied.words, queue
    {
      && occupied.Valid() && occupied.bitCnt == 64 && queue.Length == 64
      && num == |arrivals|
      && (forall p | 0 <= p < 64 :: queue[p] == OfPriority(arrivals, p))
      && (forall p | 0 <= p < 64 :: occupied.Contents()[63 - p] <==> queue[p] != [])
    }

    constructor ()
      ensures Valid() && arrivals == [] && fresh(occupied.words) && fresh(queue)
    {
      num, arrivals := 0, [];
      occupied := new Bitmap(64);
      queue := new seq<Thread>[64](_ => []);
    }

    method Insert(t: Thread)
      requires Valid()
      modifies this, occupied.words, queue
      ensures Valid() && arrivals == old(arrivals) + [t]
    {
      num := num + 1;
      occupied.Mark(PRI_MAX - t.priority);
      queue[t.priority] := queue[t.priority] + [t];
      forall p | 0 <= p < 64
        ensures OfPriority(arrivals + [t], p) == OfPriority(arrivals, p) + if t.priority == p then [t] else []
      {
        OfPriorityAdd(arrivals, t, p);
      }
      arrivals := arrivals + [t];
    }

    /** Takes the head off a queue, and clears its bit if that was its last thread. */
    method PopQueue(first: nat) returns (t: Thread)
      requires occupied.Valid() && occupied.bitCnt == 64 && queue.Length == 64
      requires first < 64 && queue[63 - first] != [] && occupied.Contents()[first]
      modifies occupied.words, queue
      ensures t == old(queue[63 - first][0])
      ensures forall p | 0 <= p < 64 :: queue[p] == if p == 63 - first then old(queue[p][1..]) else old(queue[p])
      ensures forall k | 0 <= k < 64 ::
                occupied.Contents()[k] <==> if k == first then queue[63 - k] != [] else old(occupied.Contents()[k])
    {
      var highest := PRI_MAX - first;
      t := queue[highest][0];
      queue[highest] := queue[highest][1..];
      if queue[highest] == [] {
        occupied.Reset(first);
      }
    }

    /** Takes the oldest thread of the highest priority. */
    method Remove() returns (t: Thread)
      requires Valid() && num != 0
      modifies this, occupied.words, queue
      ensures Valid()
      ensures t == old(arrivals)[Oldest(old(arrivals))] && arrivals == Without(old(arrivals), Oldest(old(arrivals)))
    {
      ghost var i := Oldest(arrivals);
      FirstBitIsTop();
      var first := occupied.FirstGroup(0, 1, true);
      OldestHeadsQueue(arrivals, arrivals[i].priority);
      t := PopQueue(first.value);
      forall p | 0 <= p < 64
        ensures queue[p] == OfPriority(Without(arrivals, i), p)
      {
        OldestHeadsQueue(arrivals, p);
      }
      num := num - 1;
      arrivals := Without(arrivals, i);
    }

    /** The first bit that is set is the one of the highest priority. */
    lemma FirstBitIsTop()
      requires Valid() && arrivals != []
      ensures Scan(occupied.Contents(), 0, 1, true) == Some(63 - arrivals[Oldest(arrivals)].priority)
    {
      var top := arrivals[Oldest(arrivals)].priority;
      OldestHeadsQueue(arrivals, top);
      forall k | 0 <= k < 63 - top
        ensures !occupied.Contents()[k]
      {
        OfPriorityEmpty(arrivals, 63 - k);
        assert queue[63 - k] == [];
        assert !occupied.Contents()[63 - (63 - k)];
      }
      assert queue[top] != [];
      ScanForOne(occupied.Contents(), 0, 63 - top, true);
    }
  }

  // ---------- The two arrays ----------

  /** What the run queue is: the active threads and the expired ones, each in order of arrival. */
  datatype Lists = Lists(active: seq<Thread>, expired: seq<Thread>)

  /** The next thread to run: from the active ones as long as there are any, then from the
      expired ones, which become the active ones. None means the idle thread. */
  ghost function Choose(q: Lists): (Option<Thread>, Lists) {
    if q.active == [] && q.expired == [] then (None, q)
    else
      var q' := if q.active == [] then Lists(q.expired, q.active) else q;
      var i := Oldest(q'.active);
      (Some(q'.active[i]), q'.(active := Without(q'.active, i)))
  }

  /** `t` was taken from `from` and the others are left in order: none of them has a higher priority, and none
      of the same came earlier. */
  ghost predicate TakesBest(from: seq<Thread>, t: Thread, left: seq<Thread>) {
    exists i | 0 <= i < |from| ::
      && from[i] == t && left == from[..i] + from[i + 1..]
      && (forall j | 0 <= j < |from| :: from[j].priority <= t.priority)
      && (forall j | 0 <= j < i :: from[j].priority < t.priority)
  }

  /** The idle thread is chosen only if there is no other. The active threads come first, and when there are
      none the expired ones are the active ones from then on. */
  ghost predicate Chosen(q: Lists, next: Option<Thread>, r: Lists) {
    if q.active == [] && q.expired == [] then next.None? && r == q
    else
      && next.Some?
      && TakesBest(if q.active != [] then q.active else q.expired, next.value, r.active)
      && r.expired == (if q.active != [] then q.expired else [])
  }

  lemma ChoosesBest(q: Lists)
    ensures Chosen(q, Choose(q).0, Choose(q).1)
  {
    if q.active != [] || q.expired != [] {
      var from := if q.active != [] then q.active else q.expired;
      var i := Oldest(from);
      assert Without(from, i) == from[..i] + from[i + 1..];
    }
  }

  class RunQueues {
    const arrays0: PrioArray
    const arrays1: PrioArray
    var active: PrioArray
    var expired: PrioArray

    ghost function Repr(): set<object> {
      {this, arrays0, arrays1, arrays0.occupied.words, arrays1.occupied.words, arrays0.queue, arrays1.queue}
    }

    ghost predicate Valid()
      reads Repr()
    {
      && arrays0 != arrays1 && arrays0.occupied.words != arrays1.occupied.words && arrays0.queue != arrays1.queue
      && arrays0.Valid() && arrays1.Valid()
      && ((active == arrays0 && expired == arrays1) || (active == arrays1 && expired == arrays0))
    }

    ghost function Contents(): Lists
      reads this, active, expired
    {
      Lists(active.arrivals, expired.arrivals)
    }

    constructor ()
      ensures Valid() && Contents() == Lists([], []) && fresh(Repr())
    {
      arrays0 := new PrioArray();
      arrays1 := new PrioArray();
      active, expired := arrays0, arrays1;
    }

    method ActiveInsert(t: Thread)
      requires Valid()
      modifies Repr()
      ensures Valid() && Contents() == old(Contents()).(active := old(Contents()).active + [t])
    {
      active.Insert(t);
    }

    /** A thread whose time slice is used up waits for the others, with a new time slice. */
    method ExpiredInsert(t: Thread)
      requires Valid()
      modifies Repr(), t
      ensures Valid() && Contents() == old(Contents()).(expired := old(Contents()).expired + [t])
      ensures t.timeslice == t.priority + 5
    {
      t.timeslice := t.priority + 5;
      expired.Insert(t);
    }

    method NextThreadToRun() returns (next: Option<Thread>)
      requires Valid()
      modifies Repr()
      ensures Valid() && (next, Contents()) == Choose(old(Contents()))
      ensures Chosen(old(Contents()), next, Contents())
    {
      ChoosesBest(Contents());
      if active.num == 0 && expired.num == 0 {
        return None;
      } else if active.num == 0 {
        active, expired := expired, active;
      }
      var t := active.Remove();
      next := Some(t);
    }
  }

  // ---------- Whole runs ----------

  datatype Op = Arrive(t: Thread) | Expire(t: Thread) | Switch

  /** The threads that a sequence of operations makes the plain lists hand out. */
  ghost function Serve(q: Lists, ops: seq<Op>): (seq<Option<Thread>>, Lists) {
    if ops == [] then ([], q)
    else
      var (outs, q') := Serve(q, ops[..|ops| - 1]);
      match ops[|ops| - 1]
      case Arrive(t) => (outs, q'.(active := q'.active + [t]))
      case Expire(t) => (outs, q'.(expired := q'.expired + [t]))
      case Switch => (outs + [Choose(q').0], Choose(q').1)
  }

  /** How often thread `x` was handed out. */
  ghost function Handed(outs: seq<Option<Thread>>, x: Thread): nat {
    if outs == [] then 0 else Handed(outs[..|outs| - 1], x) + if outs[|outs| - 1] == Some(x) then 1 else 0
  }

  /** How often a sequence of operations puts it in. */
  ghost function Given(ops: seq<Op>, x: Thread): nat {
    if ops == [] then 0
    else
      var last := ops[|ops| - 1];
      Given(ops[..|ops| - 1], x) + if !last.Switch? && last.t == x then 1 else 0
  }

  ghost function Held(q: Lists, x: Thread): nat {
    Count(q.active, x) + Count(q.expired, x)
  }

  lemma ChooseTakesOne(q: Lists, x: Thread)
    ensures var (next, r) := Choose(q); Held(q, x) == Held(r, x) + if next == Some(x) then 1 else 0
  {
    if q.active != [] || q.expired != [] {
      var from := if q.active != [] then q.active else q.expired;
      CountWithout(from, Oldest(from), x);
    }
  }

  /** Over every run, every thread that was put in was handed out or is still there, as often as it was put
      in. */
  lemma {:induction false} NoneGoesMissing(q: Lists, ops: seq<Op>, x: Thread)
    ensures var (outs, r) := Serve(q, ops); Handed(outs, x) + Held(r, x) == Held(q, x) + Given(ops, x)
  {
    if ops != [] {
      var m := |ops| - 1;
      NoneGoesMissing(q, ops[..m], x);
      var (outs, r) := Serve(q, ops[..m]);
      match ops[m]
      case Arrive(t) => CountConcat(r.active, [t], x);
      case Expire(t) => CountConcat(r.expired, [t], x);
      case Switch =>
        ChooseTakesOne(r, x);
        assert (outs + [Choose(r).0])[..|outs|] == outs;
    }
  }

  /** How often a sequence of operations puts thread `x` among the active ones, and how often among the expired. */
  ghost function Arrived(ops: seq<Op>, x: Thread): nat {
    if ops == [] then 0 else Arrived(ops[..|ops| - 1], x) + if ops[|ops| - 1] == Arrive(x) then 1 else 0
  }

  ghost function Expired(ops: seq<Op>, x: Thread): nat {
    if ops == [] then 0 else Expired(ops[..|ops| - 1], x) + if ops[|ops| - 1] == Expire(x) then 1 else 0
  }

  /** The number of active threads after a sequence of operations, if all its switches take one of them. */
  function ActiveAfter(n: int, ops: seq<Op>): int {
    if ops == [] then n
    else
      ActiveAfter(n, ops[..|ops| - 1]) +
      match ops[|ops| - 1]
      case Arrive(_) => 1
      case Expire(_) => 0
      case Switch => -1
  }

  /** Expired threads wait for the active ones: as long as there are enough of those for all switches, only they are
      handed out, and all that expired are still there. */
  lemma {:induction false} ExpiredWait(q: Lists, ops: seq<Op>, x: Thread)
    requires forall i | 0 <= i <= |ops| :: ActiveAfter(|q.active|, ops[..i]) >= 0
    ensures var (outs, r) := Serve(q, ops);
            && |r.active| == ActiveAfter(|q.active|, ops)
            && Handed(outs, x) + Count(r.active, x) == Count(q.active, x) + Arrived(ops, x)
            && Count(r.expired, x) == Count(q.expired, x) + Expired(ops, x)
  {
    assert ops[..|ops|] == ops;
    if ops != [] {
      var m := |ops| - 1;
      assert forall i | 0 <= i <= m :: ops[..m][..i] == ops[..i];
      ExpiredWait(q, ops[..m], x);
      var (outs, r) := Serve(q, ops[..m]);
      match ops[m]
      case Arrive(t) =>
        CountConcat(r.active, [t], x);
        CountOne(t, x);
      case Expire(t) =>
        CountConcat(r.expired, [t], x);
        CountOne(t, x);
      case Switch =>
        CountWithout(r.active, Oldest(r.active), x);
        assert (outs + [Choose(r).0])[..|outs|] == outs;
    }
  }

  /** Any sequence of insertions and switches gets from the run queue what it would get from the
      plain lists. */
  method Run(r: RunQueues, ops: seq<Op>) returns (outs: seq<Option<Thread>>)
    requires r.Valid()
    modifies r.Repr(), set op | op in ops && !op.Switch? :: op.t
    ensures r.Valid() && (outs, r.Contents()) == Serve(old(r.Contents()), ops)
  {
    outs := [];
    for k := 0 to |ops|
      invariant r.Valid() && (outs, r.Contents()) == Serve(old(r.Contents()), ops[..k])
    {
      assert ops[..k + 1][..k] == ops[..k];
      match ops[k] {
        case Arrive(t) => r.ActiveInsert(t);
        case Expire(t) => r.ExpiredInsert(t);
        case Switch =>
          var next := r.NextThreadToRun();
          outs := outs + [next];
      }
    }
    assert ops[..|ops|] == ops;
  }
}
