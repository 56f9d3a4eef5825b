/** The chained hash table of lib/kernel/hash.c, refined to a set without equal elements. */
module HashTable {
  import opened Common
  import opened Bits
  import opened Orders

  // ---------- The number of buckets ----------

  /** `x` with its lowest set bit turned off. */
  function TurnOffLeast(x: nat): nat
    requires x > 0
  {
    And(x, x - 1)
  }

  lemma {:induction false} AndSelf(x: nat)
    ensures And(x, x) == x
  {
    if x > 0 {
      AndSelf(x / 2);
    }
  }

  lemma TurnOffStep(x: nat)
    requires x > 0
    ensures TurnOffLeast(x) == if x % 2 == 1 then x - 1 else 2 * TurnOffLeast(x / 2)
  {
    AndStep(x, x - 1);
    if x % 2 == 1 {
      AndSelf(x / 2);
    } else {
      assert (x - 1) / 2 == x / 2 - 1;
    }
  }

  /** Turning off the lowest set bit gives a smaller number that keeps the highest set bit, unless
      that is the lowest one too. */
  lemma {:induction false} TurnOffKeepsTop(x: nat, k: nat)
    requires Pow2(k) <= x < Pow2(k + 1)
    ensures TurnOffLeast(x) < x
    ensures x == Pow2(k) ==> TurnOffLeast(x) == 0
    ensures x != Pow2(k) ==> Pow2(k) <= TurnOffLeast(x)
  {
    TurnOffStep(x);
    if k > 0 && x % 2 == 0 {
      TurnOffKeepsTop(x / 2, k - 1);
    }
  }

  /** The position of the highest set bit. */
  function Top(x: nat): (k: nat)
    requires x > 0
    ensures Pow2(k) <= x < Pow2(k + 1)
  {
    if x == 1 then 0 else Top(x / 2) + 1
  }

  /** The bucket count that a table of `cnt` elements should have: the loop ends, and it ends in
      the largest power of two that is not above half the elements, or in four. */
  method BestCount(cnt: nat) returns (n: nat, ghost k: nat)
    ensures n == Pow2(k) && n >= 4
    ensures cnt < 4 * n && (n > 4 ==> cnt >= 2 * n)
  {
    n := cnt / 2;
    if n < 4 {
      n := 4;
    }
    k := Top(n);
    ghost var start := n;
    while TurnOffLeast(n) != 0
      invariant Pow2(k) <= n <= start
      decreases n
    {
      TurnOffKeepsTop(n, k);
      n := TurnOffLeast(n);
    }
    TurnOffKeepsTop(n, k);
    FourOrMore(start, k);
  }

  lemma FourOrMore(start: nat, k: nat)
    requires 4 <= start < Pow2(k + 1)
    ensures Pow2(k) >= 4 && Pow2(k + 1) == 2 * Pow2(k)
  {
    Pow2Small();
    Pow2Monotone(k + 1, if k < 2 then 2 else k + 1);
    Pow2Monotone(2, k);
  }

  // ---------- Buckets ----------

  /** The elements of the buckets from number `b` on. */
  ghost function Held<T>(buckets: seq<seq<T>>, b: nat): multiset<T>
    decreases |buckets| - b
  {
    if b >= |buckets| then multiset{} else multiset(buckets[b]) + Held(buckets, b + 1)
  }

  /** Changing one bucket changes the elements held by as much as it changes that bucket. */
  lemma {:induction false} CountHeld<T>(buckets: seq<seq<T>>, i: nat, bucket: seq<T>, b: nat, x: T)
    requires b <= i < |buckets|
    ensures Held(buckets[i := bucket], b)[x] + multiset(buckets[i])[x] == Held(buckets, b)[x] + multiset(bucket)[x]
    decreases i - b
  {
    if b < i {
      CountHeld(buckets, i, bucket, b + 1, x);
    } else {
      SameLaterBuckets(buckets, buckets[i := bucket], i + 1);
    }
  }

  lemma WithoutOne<T>(s: seq<T>, i: nat)
    requires i < |s|
    ensures multiset(Without(s, i)) + multiset{s[i]} == multiset(s)
  {
    assert s == s[..i] + [s[i]] + s[i + 1..];
  }

  lemma PushHeld<T>(buckets: seq<seq<T>>, b: nat, e: T)
    requires b < |buckets|
    ensures Held(buckets[b := [e] + buckets[b]], 0) == Held(buckets, 0) + multiset{e}
  {
    forall x {
      CountHeld(buckets, b, [e] + buckets[b], 0, x);
    }
  }

  lemma {:induction false} RemoveHeld<T>(buckets: seq<seq<T>>, b: nat, i: nat)
    requires b < |buckets| && i < |buckets[b]|
    ensures multiset{buckets[b][i]} <= Held(buckets, 0)
    ensures Held(buckets[b := Without(buckets[b], i)], 0)
         == Held(buckets, 0) - multiset{buckets[b][i]}
  {
    WithoutOne(buckets[b], i);
    forall x {
      CountHeld(buckets, b, Without(buckets[b], i), 0, x);
    }
  }

  lemma {:induction false} SameLaterBuckets<T>(x: seq<seq<T>>, y: seq<seq<T>>, b: nat)
    requires |x| == |y| && forall k | b <= k < |x| :: x[k] == y[k]
    ensures Held(x, b) == Held(y, b)
    decreases |x| - b
  {
    if b < |x| {
      SameLaterBuckets(x, y, b + 1);
    }
  }

  lemma {:induction false} EmptyBuckets<T>(buckets: seq<seq<T>>, b: nat)
    requires forall k | b <= k < |buckets| :: buckets[k] == []
    ensures Held(buckets, b) == multiset{}
    decreases |buckets| - b
  {
    if b < |buckets| {
      EmptyBuckets(buckets, b + 1);
    }
  }

  lemma {:induction false} HasBucket<T>(buckets: seq<seq<T>>, b: nat, x: T)
    requires x in Held(buckets, b)
    ensures exists k :: b <= k < |buckets| && x in buckets[k]
    decreases |buckets| - b
  {
    if x !in buckets[b] {
      HasBucket(buckets, b + 1, x);
    }
  }

  lemma {:induction false} BucketHeld<T>(buckets: seq<seq<T>>, b: nat, k: nat, x: T)
    requires b <= k < |buckets| && x in buckets[k]
    ensures x in Held(buckets, b)
    decreases |buckets| - b
  {
    if b < k {
      BucketHeld(buckets, b + 1, k, x);
    }
  }

  /** The bucket, out of `n`, for an element whose hash is `h`. */
  function BucketOf(h: nat, n: nat): (b: nat)
    requires n > 0
    ensures b < n
  {
    AndAtMost(h, n - 1);
    And(h, n - 1)
  }

  /** With a power of two of buckets, the mask takes the hash modulo their number. */
  lemma {:induction false} BucketIsRemainder(h: nat, k: nat)
    ensures BucketOf(h, Pow2(k)) == h % Pow2(k)
  {
    AndMaskIsRemainder(h, k);
  }

  ghost predicate InPlace<T>(hash: T -> nat, buckets: seq<seq<T>>) {
    forall b, x | 0 <= b < |buckets| && x in buckets[b] :: BucketOf(hash(x), |buckets|) == b
  }

  lemma PushInPlace<T>(hash: T -> nat, buckets: seq<seq<T>>, e: T)
    requires |buckets| > 0 && InPlace(hash, buckets)
    ensures var b := BucketOf(hash(e), |buckets|); InPlace(hash, buckets[b := [e] + buckets[b]])
  {
  }

  lemma RemoveInPlace<T>(hash: T -> nat, buckets: seq<seq<T>>, b: nat, i: nat)
    requires b < |buckets| && i < |buckets[b]| && InPlace(hash, buckets)
    ensures InPlace(hash, buckets[b := Without(buckets[b], i)])
  {
  }

  lemma AddOne<T>(s: set<T>, e: T)
    requires e !in s
    ensures multiset(s + {e}) == multiset(s) + multiset{e} && |s + {e}| == |s| + 1
  {
  }

  lemma TakeOne<T>(s: set<T>, e: T)
    requires e in s
    ensures multiset(s - {e}) == multiset(s) - multiset{e} && |s - {e}| == |s| - 1
  {
  }

  // ---------- The set that the table stands for ----------

  /** "Neither is less" is an equality, and elements that it makes equal have the same hash. */
  ghost predicate Lawful<T(!new)>(hash: T -> nat, less: (T, T) -> bool) {
    && (forall x :: Equivalent(less, x, x))
    && (forall x, y, z {:trigger Equivalent(less, x, y), Equivalent(less, y, z)} ::
          Equivalent(less, x, y) && Equivalent(less, y, z) ==> Equivalent(less, x, z))
    && (forall x, y {:trigger Equivalent(less, x, y)} :: Equivalent(less, x, y) ==> hash(x) == hash(y))
  }

  ghost predicate NoneEqual<T(!new)>(less: (T, T) -> bool, s: set<T>) {
    forall x, y {:trigger Equivalent(less, x, y)} | x in s && y in s && Equivalent(less, x, y) :: x == y
  }

  /** `r` is an answer to a search for an element equal to `e` in `s`. */
  ghost predicate Answers<T(!new)>(less: (T, T) -> bool, s: set<T>, e: T, r: Option<T>) {
    match r
    case None => forall x | x in s :: !Equivalent(less, x, e)
    case Some(x) => x in s && Equivalent(less, x, e)
  }

  ghost function Lookup<T(!new)>(less: (T, T) -> bool, s: set<T>, e: T): Option<T> {
    if x :| x in s && Equivalent(less, x, e) then Some(x) else None
  }

  /** Among elements of which no two are equal, a search has one answer. */
  lemma OneAnswer<T(!new)>(hash: T -> nat, less: (T, T) -> bool, s: set<T>, e: T, r: Option<T>)
    requires Lawful(hash, less) && NoneEqual(less, s) && Answers(less, s, e, r)
    ensures r == Lookup(less, s, e)
  {
    var q := Lookup(less, s, e);
    assert Answers(less, s, e, q);
    if r.Some? && q.Some? {
      assert Equivalent(less, e, q.value);
      assert Equivalent(less, r.value, q.value);
    }
  }

  lemma OnlyOneEqual<T(!new)>(hash: T -> nat, less: (T, T) -> bool, s: set<T>, e: T, x: T)
    requires Lawful(hash, less) && NoneEqual(less, s) && x in s && Equivalent(less, x, e)
    ensures forall y | y in s && y != x :: !Equivalent(less, y, e)
  {
    forall y | y in s && Equivalent(less, y, e)
      ensures y == x
    {
      assert Equivalent(less, e, x);
      assert Equivalent(less, y, x);
    }
  }

  // ---------- The table ----------

  class Table<T(!new)> {
    const hash: T -> nat
    const less: (T, T) -> bool
    var elemCnt: nat
    var buckets: seq<seq<T>>
    ghost var order: nat
    ghost var contents: set<T>

    /** The buckets hold the elements of `contents`, each once and each in the bucket that its hash
        selects; no two are equal, and there are a power of two of buckets. */
    ghost predicate Valid()
      reads this
    {
      && Lawful(hash, less)
      && |buckets| == Pow2(order) && |buckets| >= 4
      && InPlace(hash, buckets)
      && Held(buckets, 0) == multiset(contents)
      && elemCnt == |contents|
      && NoneEqual(less, contents)
    }

    /** Fewer than four elements to a bucket, and at least two unless there are four buckets only. */
    ghost predicate Balanced()
      reads this
    {
      elemCnt < 4 * |buckets| && (|buckets| > 4 ==> elemCnt >= 2 * |buckets|)
    }

    constructor (hash: T -> nat, less: (T, T) -> bool)
      requires Lawful(hash, less)
      ensures Valid() && Balanced() && contents == {} && this.hash == hash && this.less == less
    {
      this.hash, this.less := hash, less;
      elemCnt := 0;
      buckets := [[], [], [], []];
      order := 2;
      contents := {};
      Pow2Small();
      EmptyBuckets<T>([[], [], [], []], 0);
    }

    /** The one bucket that is searched decides for the whole table. */
    method FindElem(e: T) returns (r: Option<T>, i: nat)
      requires Valid()
      ensures r == Lookup(less, contents, e)
      ensures r.Some? ==> var bucket := buckets[BucketOf(hash(e), |buckets|)]; i < |bucket| && bucket[i] == r.value
    {
      var b := BucketOf(hash(e), |buckets|);
      i := 0;
      while i < |buckets[b]| && !Equivalent(less, buckets[b][i], e)
        invariant i <= |buckets[b]|
        invariant forall k | 0 <= k < i :: !Equivalent(less, buckets[b][k], e)
      {
        i := i + 1;
      }
      r := if i < |buckets[b]| then Some(buckets[b][i]) else None;
      assert Answers(less, contents, e, r) by {
        forall x
          ensures x in contents <==> x in Held(buckets, 0)
        {
        }
        if i < |buckets[b]| {
          BucketHeld(buckets, 0, b, buckets[b][i]);
        } else {
          forall x | x in contents
            ensures !Equivalent(less, x, e)
          {
            HasBucket(buckets, 0, x);
          }
        }
      }
      OneAnswer(hash, less, contents, e, r);
    }

    method InsertElem(e: T)
      requires Valid() && forall x | x in contents :: !Equivalent(less, x, e)
      modifies this`elemCnt, this`buckets, this`contents
      ensures Valid() && contents == old(contents) + {e}
    {
      var b := BucketOf(hash(e), |buckets|);
      assert e !in contents by {
        assert Equivalent(less, e, e);
      }
      PushHeld(buckets, b, e);
      PushInPlace(hash, buckets, e);
      AddOne(contents, e);
      elemCnt := elemCnt + 1;
      buckets := buckets[b := [e] + buckets[b]];
      contents := contents + {e};
    }

    /** Removes element number `i` of the bucket for `e`. */
    method RemoveElem(e: T, i: nat)
      requires Valid() && i < |buckets[BucketOf(hash(e), |buckets|)]|
      modifies this`elemCnt, this`buckets, this`contents
      ensures Valid() && contents == old(contents) - {old(buckets[BucketOf(hash(e), |buckets|)][i])}
    {
      var b := BucketOf(hash(e), |buckets|);
      var x := buckets[b][i];
      RemoveHeld(buckets, b, i);
      RemoveInPlace(hash, buckets, b, i);
      assert x in multiset(contents);
      TakeOne(contents, x);
      elemCnt := elemCnt - 1;
      buckets := buckets[b := Without(buckets[b], i)];
      contents := contents - {x};
    }

    /** Takes every element out of the buckets `from` and pushes it on its own bucket out of `n`. */
    method Move(from: seq<seq<T>>, n: nat) returns (to: seq<seq<T>>)
      requires n > 0
      ensures |to| == n && InPlace(hash, to)
      ensures Held(to, 0) == Held(from, 0)
    {
      to := seq(n, _ => []);
      EmptyBuckets(to, 0);
      var rest := from;
      for i := 0 to |from|
        invariant |rest| == |from| && forall k | 0 <= k < i :: rest[k] == []
        invariant |to| == n && InPlace(hash, to)
        invariant Held(rest, 0) + Held(to, 0) == Held(from, 0)
      {
        while rest[i] != []
          invariant |rest| == |from| && forall k | 0 <= k < i :: rest[k] == []
          invariant |to| == n && InPlace(hash, to)
          invariant Held(rest, 0) + Held(to, 0) == Held(from, 0)
          decreases |rest[i]|
        {
          rest, to := MoveOne(rest, i, to);
        }
      }
      EmptyBuckets(rest, 0);
    }

    method MoveOne(from: seq<seq<T>>, i: nat, to: seq<seq<T>>) returns (rest: seq<seq<T>>, more: seq<seq<T>>)
      requires i < |from| && from[i] != [] && |to| > 0 && InPlace(hash, to)
      ensures rest == from[i := Without(from[i], 0)] && |more| == |to| && InPlace(hash, more)
      ensures Held(rest, 0) + Held(more, 0)
           == Held(from, 0) + Held(to, 0)
    {
      var e := from[i][0];
      var b := BucketOf(hash(e), |to|);
      RemoveHeld(from, i, 0);
      PushHeld(to, b, e);
      PushInPlace(hash, to, e);
      rest := from[i := Without(from[i], 0)];
      more := to[b := [e] + to[b]];
    }

    /** Fits the number of buckets to the number of elements, unless there is no memory to be had. */
    method Rehash(memory: bool)
      requires Valid()
      modifies this`buckets, this`order
      ensures Valid()
      ensures if memory then Balanced() else buckets == old(buckets)
    {
      var n, k := BestCount(elemCnt);
      if n != |buckets| && memory {
        buckets := Move(buckets, n);
        order := k;
      }
    }

    /** The equal element that was there before, if any; only in its absence is `e` added. */
    method Insert(e: T, memory: bool) returns (r: Option<T>)
      requires Valid()
      modifies this
      ensures Valid() && (memory ==> Balanced())
      ensures r == Lookup(less, old(contents), e)
      ensures contents == if r.None? then old(contents) + {e} else old(contents)
    {
      var i;
      r, i := FindElem(e);
      if r.None? {
        InsertElem(e);
      }
      Rehash(memory);
    }

    method Replace(e: T, memory: bool) returns (r: Option<T>)
      requires Valid()
      modifies this
      ensures Valid() && (memory ==> Balanced())
      ensures r == Lookup(less, old(contents), e)
      ensures contents == (if r.None? then old(contents) else old(contents) - {r.value}) + {e}
    {
      var i;
      r, i := FindElem(e);
      if r.Some? {
        RemoveElem(e, i);
        OnlyOneEqual(hash, less, old(contents), e, r.value);
      }
      InsertElem(e);
      Rehash(memory);
    }

    method Find(e: T) returns (r: Option<T>)
      requires Valid()
      ensures r == Lookup(less, contents, e)
    {
      var i;
      r, i := FindElem(e);
    }

    method Delete(e: T, memory: bool) returns (r: Option<T>)
      requires Valid()
      modifies this
      ensures Valid() && (memory && (r.Some? || old(Balanced())) ==> Balanced())
      ensures r == Lookup(less, old(contents), e)
      ensures contents == if r.None? then old(contents) else old(contents) - {r.value}
    {
      var i;
      r, i := FindElem(e);
      if r.Some? {
        RemoveElem(e, i);
        Rehash(memory);
      }
    }

    method Perform(op: Op<T>, memory: bool) returns (r: Option<T>)
      requires Valid()
      modifies this
      ensures Valid() && (memory && old(Balanced()) ==> Balanced())
      ensures r == Lookup(less, old(contents), op.e) && contents == After(less, old(contents), op)
    {
      match op {
        case Insert(e) => r := this.Insert(e, memory);
        case Replace(e) => r := this.Replace(e, memory);
        case Find(e) => r := this.Find(e);
        case Delete(e) => r := this.Delete(e, memory);
      }
    }
  }

  // ---------- Every run ----------

  datatype Op<T> = Insert(e: T) | Replace(e: T) | Find(e: T) | Delete(e: T)

  /** What an operation does to the set that the table stands for; its reply is the equal element. */
  ghost function After<T(!new)>(less: (T, T) -> bool, s: set<T>, op: Op<T>): set<T> {
    var found := Lookup(less, s, op.e);
    match op
    case Insert(e) => if found.None? then s + {e} else s
    case Replace(e) => (if found.None? then s else s - {found.value}) + {e}
    case Find(e) => s
    case Delete(e) => if found.None? then s else s - {found.value}
  }

  /** The set after the first `n` operations on an empty one. */
  ghost function State<T(!new)>(less: (T, T) -> bool, ops: seq<Op<T>>, n: nat): set<T>
    requires n <= |ops|
  {
    if n == 0 then {} else After(less, State(less, ops, n - 1), ops[n - 1])
  }

  /** What the set replies to operation number `k`. */
  ghost function Reply<T(!new)>(less: (T, T) -> bool, ops: seq<Op<T>>): nat -> Option<T> {
    (k: nat) => if k < |ops| then Lookup(less, State(less, ops, k), ops[k].e) else None
  }

  ghost predicate Replied<T>(reply: nat -> Option<T>, replies: seq<Option<T>>) {
    forall k | 0 <= k < |replies| :: replies[k] == reply(k)
  }

  ghost predicate AllTrue(s: seq<bool>, n: nat) {
    n <= |s| && forall k | 0 <= k < n :: s[k]
  }

  /** Over every run, whatever the hash function and whenever memory runs out, the table replies as
      the set would; and its load stays balanced if memory never runs out. */
  method Run<T(!new)>(hash: T -> nat, less: (T, T) -> bool, ops: seq<Op<T>>, memory: seq<bool>)
    returns (replies: seq<Option<T>>, t: Table<T>)
    requires Lawful(hash, less) && |memory| == |ops|
    ensures |replies| == |ops| && Replied(Reply(less, ops), replies)
    ensures fresh(t) && t.Valid() && t.contents == State(less, ops, |ops|)
    ensures AllTrue(memory, |memory|) ==> t.Balanced()
  {
    t := new Table(hash, less);
    replies := [];
    for i := 0 to |ops|
      invariant fresh(t) && t.Valid() && t.less == less && t.contents == State(less, ops, i)
      invariant |replies| == i && Replied(Reply(less, ops), replies)
      invariant AllTrue(memory, i) ==> t.Balanced()
    {
      replies := Step(t, ops, memory[i], replies);
    }
  }

  method Step<T(!new)>(t: Table<T>, ops: seq<Op<T>>, memory: bool, replies: seq<Option<T>>)
    returns (more: seq<Option<T>>)
    requires |replies| < |ops| && Replied(Reply(t.less, ops), replies)
    requires t.Valid() && t.contents == State(t.less, ops, |replies|)
    modifies t
    ensures t.Valid() && (memory && old(t.Balanced()) ==> t.Balanced())
    ensures |more| == |replies| + 1 && Replied(Reply(t.less, ops), more) && t.contents == State(t.less, ops, |more|)
  {
    var r := t.Perform(ops[|replies|], memory);
    more := replies + [r];
    assert Reply(t.less, ops)(|replies|) == r;
    RepliesMore(Reply(t.less, ops), replies, r);
  }

  lemma {:induction false} RepliesMore<T>(reply: nat -> Option<T>, replies: seq<Option<T>>, r: Option<T>)
    requires Replied(reply, replies) && r == reply(|replies|)
    ensures Replied(reply, replies + [r])
  {
  }

  // ---------- Iteration ----------

  /** The elements from number `pos` of bucket `b` on, in the order of iteration. */
  function Onward<T>(buckets: seq<seq<T>>, b: nat, pos: nat): seq<T>
    decreases |buckets| - b, if b < |buckets| then |buckets[b]| - pos else 0
  {
    if b >= |buckets| then []
    else if pos < |buckets[b]| then [buckets[b][pos]] + Onward(buckets, b, pos + 1)
    else Onward(buckets, b + 1, 0)
  }

  lemma {:induction false} OnwardIsHeld<T>(buckets: seq<seq<T>>, b: nat, pos: nat)
    requires b < |buckets| && pos <= |buckets[b]|
    ensures multiset(Onward(buckets, b, pos)) == multiset(buckets[b][pos..]) + Held(buckets, b + 1)
    decreases |buckets| - b, |buckets[b]| - pos
  {
    if pos < |buckets[b]| {
      assert buckets[b][pos..] == [buckets[b][pos]] + buckets[b][pos + 1..];
      OnwardIsHeld(buckets, b, pos + 1);
    } else if b + 1 < |buckets| {
      OnwardIsHeld(buckets, b + 1, 0);
      assert buckets[b + 1][0..] == buckets[b + 1];
    }
  }

  class Iterator<T(!new)> {
    const table: Table<T>
    var bucket: nat
    /** The position in the bucket, before its first element at first. */
    var pos: int

    ghost predicate Valid()
      reads this, table
    {
      bucket < |table.buckets| && -1 <= pos < |table.buckets[bucket]|
    }

    /** The elements still to come. */
    ghost function Rest(): seq<T>
      requires Valid()
      reads this, table
    {
      Onward(table.buckets, bucket, pos + 1)
    }

    /** Before the first element. */
    constructor (t: Table<T>)
      requires t.Valid()
      ensures table == t && Valid() && Rest() == Onward(t.buckets, 0, 0)
    {
      table := t;
      bucket, pos := 0, -1;
    }

    method Next() returns (r: Option<T>)
      requires Valid()
      modifies this
      ensures old(Rest()) == [] <==> r.None?
      ensures r.Some? ==> Valid() && old(Rest()) == [r.value] + Rest()
    {
      pos := pos + 1;
      while pos == |table.buckets[bucket]|
        invariant bucket < |table.buckets| && 0 <= pos <= |table.buckets[bucket]|
        invariant old(Rest()) == Onward(table.buckets, bucket, pos)
        decreases |table.buckets| - bucket
      {
        bucket := bucket + 1;
        if bucket >= |table.buckets| {
          return None;
        }
        pos := 0;
      }
      r := Some(table.buckets[bucket][pos]);
    }
  }

  /** Iterating a table visits each of its elements once and then ends. */
  method Visit<T(!new)>(t: Table<T>) returns (visited: seq<T>)
    requires t.Valid()
    ensures multiset(visited) == multiset(t.contents) && |visited| == t.elemCnt
  {
    visited := Collect(t);
    OnwardIsHeld(t.buckets, 0, 0);
    assert t.buckets[0][0..] == t.buckets[0];
  }

  method Collect<T(!new)>(t: Table<T>) returns (visited: seq<T>)
    requires t.Valid()
    ensures visited == Onward(t.buckets, 0, 0)
  {
    var i := new Iterator(t);
    visited := [];
    var r := i.Next();
    ghost var ahead := Onward(t.buckets, 0, 0);
    while r.Some?
      invariant visited + ahead == Onward(t.buckets, 0, 0) && (r.None? ==> ahead == [])
      invariant r.Some? ==> i.Valid() && i.table == t && ahead == [r.value] + i.Rest()
      decreases |ahead|
    {
      assert visited + ahead == (visited + [r.value]) + i.Rest();
      visited, ahead := visited + [r.value], i.Rest();
      r := i.Next();
    }
  }
}
