/** Sequences under a strict weak order, the kind of comparison that list.c is given, and the
    natural merge sort of list.c on them. The laws are demanded only of the elements at hand. */
module Orders {

  /** `less` is a strict weak order on the elements of `S`: irreflexive, transitive, and
      with a transitive "not less" relation. */
  ghost predicate StrictWeak<T>(less: (T, T) -> bool, S: set<T>) {
    && (forall a {:trigger less(a, a)} | a in S :: !less(a, a))
    && (forall a, b, c {:trigger less(a, b), less(b, c), less(a, c)} | a in S && b in S && c in S ::
          less(a, b) && less(b, c) ==> less(a, c))
    && (forall a, b, c {:trigger less(a, b), less(b, c), less(a, c)} | a in S && b in S && c in S ::
          !less(a, b) && !less(b, c) ==> !less(a, c))
  }

  ghost predicate Within<T>(s: seq<T>, S: set<T>) {
    forall i | 0 <= i < |s| :: s[i] in S
  }

  /** Within `s[lo..hi]` no element is less than one before it. */
  ghost predicate SortedRange<T>(less: (T, T) -> bool, s: seq<T>, lo: nat, hi: nat)
    requires lo <= hi <= |s|
  {
    forall i, j {:trigger less(s[j], s[i])} | lo <= i < j < hi :: !less(s[j], s[i])
  }

  ghost predicate Sorted<T>(less: (T, T) -> bool, s: seq<T>) {
    SortedRange(less, s, 0, |s|)
  }

  /** Within `s[lo..hi]` no element is less than the one just before it: what one scan can test. */
  ghost predicate Stepwise<T>(less: (T, T) -> bool, s: seq<T>, lo: nat, hi: nat)
    requires lo <= hi <= |s|
  {
    forall i, j {:trigger less(s[j], s[i])} | lo <= i && j == i + 1 < hi :: !less(s[j], s[i])
  }

  lemma {:induction false} StepwiseIsSorted<T>(less: (T, T) -> bool, s: seq<T>, lo: nat, hi: nat, S: set<T>)
    requires StrictWeak(less, S) && Within(s, S) && lo <= hi <= |s|
    ensures Stepwise(less, s, lo, hi) <==> SortedRange(less, s, lo, hi)
    decreases hi - lo
  {
    if Stepwise(less, s, lo, hi) && lo + 1 < hi {
      var m := hi - 1;
      StepwiseIsSorted(less, s, lo, m, S);
      forall i | lo <= i < m
        ensures !less(s[m], s[i])
      {
        assert !less(s[m], s[m - 1]);
        assert i == m - 1 || !less(s[m - 1], s[i]);
      }
    }
  }

  // ---------- Stability ----------

  predicate Equivalent<T>(less: (T, T) -> bool, a: T, b: T) {
    !less(a, b) && !less(b, a)
  }

  /** The elements of `s` that are equivalent to `x`, in their order in `s`. */
  ghost function Class<T>(less: (T, T) -> bool, x: T, s: seq<T>): seq<T> {
    if s == [] then []
    else if Equivalent(less, x, s[0]) then [s[0]] + Class(less, x, s[1..])
    else Class(less, x, s[1..])
  }

  ghost function Classes<T>(less: (T, T) -> bool, s: seq<T>): map<T, seq<T>> {
    map x | x in s :: Class(less, x, s)
  }

  /** `t` is a rearrangement of `s` in which equivalent elements keep their order. */
  ghost predicate Stable<T>(less: (T, T) -> bool, s: seq<T>, t: seq<T>) {
    multiset(s) == multiset(t) && Classes(less, s) == Classes(less, t)
  }

  lemma {:induction false} SameClasses<T>(less: (T, T) -> bool, s: seq<T>, t: seq<T>)
    requires multiset(s) == multiset(t)
    requires forall x | x in s :: Class(less, x, s) == Class(less, x, t)
    ensures Stable(less, s, t)
  {
    assert forall x :: x in s <==> x in multiset(s);
    assert forall x :: x in t <==> x in multiset(t);
  }

  lemma {:induction false} ClassConcat<T>(less: (T, T) -> bool, x: T, s: seq<T>, t: seq<T>)
    ensures Class(less, x, s + t) == Class(less, x, s) + Class(less, x, t)
  {
    if s == [] {
      assert s + t == t;
    } else {
      assert (s + t)[1..] == s[1..] + t;
      ClassConcat(less, x, s[1..], t);
    }
  }

  lemma {:induction false} ClassEmpty<T>(less: (T, T) -> bool, x: T, s: seq<T>)
    requires forall i | 0 <= i < |s| :: !Equivalent(less, x, s[i])
    ensures Class(less, x, s) == []
  {
    if s != [] {
      ClassEmpty(less, x, s[1..]);
    }
  }

  /** Two neighbouring blocks may change places when one of them has no equivalent of `x`. */
  lemma {:induction false} ClassSwap<T>(less: (T, T) -> bool, x: T, A: seq<T>, B: seq<T>, C: seq<T>, D: seq<T>)
    requires Class(less, x, B) == [] || Class(less, x, C) == []
    ensures Class(less, x, A + B + C + D) == Class(less, x, A + C + B + D)
  {
    ClassConcat(less, x, A + B + C, D);
    ClassConcat(less, x, A + B, C);
    ClassConcat(less, x, A, B);
    ClassConcat(less, x, A + C + B, D);
    ClassConcat(less, x, A + C, B);
    ClassConcat(less, x, A, C);
  }

  /** What is equivalent to `y` is equivalent to nothing that `y` is less than. */
  lemma LessNotEquivalent<T>(less: (T, T) -> bool, x: T, y: T, z: T, S: set<T>)
    requires StrictWeak(less, S) && x in S && y in S && z in S
    requires Equivalent(less, x, y) && less(y, z)
    ensures !Equivalent(less, x, z)
  {
    assert !less(x, z) && !less(z, y) ==> !less(x, y);
    assert !less(y, x) && !less(x, z) ==> !less(y, z);
  }

  lemma SwapBlocksStable<T>(less: (T, T) -> bool, A: seq<T>, B: seq<T>, y: T, C: seq<T>, S: set<T>)
    requires StrictWeak(less, S) && Within(A + B + [y] + C, S)
    requires forall i | 0 <= i < |B| :: less(y, B[i])
    ensures Stable(less, A + B + [y] + C, A + [y] + B + C)
  {
    var s := A + B + [y] + C;
    assert y == s[|A| + |B|];
    assert Within(B, S) by {
      assert forall i | 0 <= i < |B| :: B[i] == s[|A| + i];
    }
    forall x | x in s
      ensures Class(less, x, s) == Class(less, x, A + [y] + B + C)
    {
      if Equivalent(less, x, y) {
        forall i | 0 <= i < |B|
          ensures !Equivalent(less, x, B[i])
        {
          LessNotEquivalent(less, x, y, B[i], S);
        }
        ClassEmpty(less, x, B);
      }
      ClassSwap(less, x, A, B, [y], C);
    }
    SameClasses(less, s, A + [y] + B + C);
  }

  // ---------- Moving one element back, and merging with such moves ----------

  /** Takes the element at `q` out of `s` and puts it back in at `p`. */
  ghost function MovedBack<T>(s: seq<T>, p: nat, q: nat): (t: seq<T>)
    requires p <= q < |s|
    ensures |t| == |s|
  {
    seq(|s|, i requires 0 <= i < |s| => if i < p || q < i then s[i] else if i == p then s[q] else s[i - 1])
  }

  lemma MovedBackBlocks<T>(s: seq<T>, p: nat, q: nat)
    requires p <= q < |s|
    ensures s == s[..p] + s[p..q] + [s[q]] + s[q + 1..]
    ensures MovedBack(s, p, q) == s[..p] + [s[q]] + s[p..q] + s[q + 1..]
  {
  }

  /** Moving an element back over elements that are all greater than it is stable. */
  lemma MovedBackStable<T>(less: (T, T) -> bool, s: seq<T>, p: nat, q: nat, S: set<T>)
    requires StrictWeak(less, S) && Within(s, S)
    requires p <= q < |s|
    requires forall i | p <= i < q :: less(s[q], s[i])
    ensures Stable(less, s, MovedBack(s, p, q))
  {
    MovedBackBlocks(s, p, q);
    SwapBlocksStable(less, s[..p], s[p..q], s[q], s[q + 1..], S);
  }

  /** A merge in progress: `s[lo..p]` is output, `s[p..q]` and `s[q..r]` are still to be merged. */
  ghost predicate Merging<T>(less: (T, T) -> bool, s: seq<T>, lo: nat, p: nat, q: nat, r: nat)
    requires lo <= p <= q <= r <= |s|
  {
    && SortedRange(less, s, lo, q)
    && SortedRange(less, s, q, r)
    && (forall i, j {:trigger less(s[j], s[i])} | lo <= i < p && q <= j < r :: !less(s[j], s[i]))
  }

  lemma MergeSkip<T>(less: (T, T) -> bool, s: seq<T>, lo: nat, p: nat, q: nat, r: nat, S: set<T>)
    requires StrictWeak(less, S) && Within(s, S)
    requires lo <= p < q < r <= |s| && Merging(less, s, lo, p, q, r)
    requires !less(s[q], s[p])
    ensures Merging(less, s, lo, p + 1, q, r)
  {
    forall j | q <= j < r
      ensures !less(s[j], s[p])
    {
      assert j == q || !less(s[j], s[q]);
    }
  }

  lemma LessThenNotLess<T>(less: (T, T) -> bool, a: T, b: T, c: T, S: set<T>)
    requires StrictWeak(less, S) && a in S && b in S && c in S
    requires less(a, b) && !less(c, b)
    ensures less(a, c) && !less(c, a)
  {
    assert !less(a, c) && !less(c, b) ==> !less(a, b);
    assert less(c, a) && less(a, b) ==> less(c, b);
  }

  lemma MergeMove<T>(less: (T, T) -> bool, s: seq<T>, lo: nat, p: nat, q: nat, r: nat, S: set<T>)
    requires StrictWeak(less, S) && Within(s, S)
    requires lo <= p < q < r <= |s| && Merging(less, s, lo, p, q, r)
    requires less(s[q], s[p])
    ensures Merging(less, MovedBack(s, p, q), lo, p + 1, q + 1, r)
    ensures Stable(less, s, MovedBack(s, p, q))
  {
    forall i | p <= i < q
      ensures less(s[q], s[i]) && !less(s[i], s[q])
    {
      LessThenNotLess(less, s[q], s[p], s[i], S);
    }
    MovedBackStable(less, s, p, q, S);
  }

  /** Merges `s[p..q]` with `s[q..r]`. An element of the second range that is less than the next
      one of the first is moved back to before it; of two equivalent ones the first stays first. */
  ghost function Merged<T>(less: (T, T) -> bool, s: seq<T>, p: nat, q: nat, r: nat): (t: seq<T>)
    requires p <= q <= r <= |s|
    ensures |t| == |s|
    decreases r - p
  {
    if p == q || q == r then s
    else if !less(s[q], s[p]) then Merged(less, s, p + 1, q, r)
    else Merged(less, MovedBack(s, p, q), p + 1, q + 1, r)
  }

  ghost predicate SameOutside<T>(s: seq<T>, t: seq<T>, lo: nat, hi: nat) {
    && |s| == |t|
    && forall i | 0 <= i < |s| && (i < lo || hi <= i) :: s[i] == t[i]
  }

  /** Merging two sorted ranges sorts them together, is stable and touches nothing else. */
  lemma {:induction false} MergedIsSorted<T>(less: (T, T) -> bool, s: seq<T>, lo: nat, p: nat, q: nat, r: nat, S: set<T>)
    requires StrictWeak(less, S) && Within(s, S)
    requires lo <= p <= q <= r <= |s| && Merging(less, s, lo, p, q, r)
    ensures SortedRange(less, Merged(less, s, p, q, r), lo, r)
    ensures Stable(less, s, Merged(less, s, p, q, r))
    ensures SameOutside(s, Merged(less, s, p, q, r), lo, r)
    decreases r - p
  {
    if p == q || q == r {
    } else if !less(s[q], s[p]) {
      MergeSkip(less, s, lo, p, q, r, S);
      MergedIsSorted(less, s, lo, p + 1, q, r, S);
    } else {
      MergeMove(less, s, lo, p, q, r, S);
      MergedIsSorted(less, MovedBack(s, p, q), lo, p + 1, q + 1, r, S);
    }
  }

  // ---------- One pass of the natural merge sort ----------

  /** The places in `s[..n]` where an element is less than the one before it. */
  ghost function Descents<T>(less: (T, T) -> bool, s: seq<T>, n: nat): nat
    requires n <= |s|
  {
    if n <= 1 then 0
    else Descents(less, s, n - 1) + (if less(s[n - 1], s[n - 2]) then 1 else 0)
  }

  /** The number of maximal nondecreasing runs of `s[..n]`. */
  ghost function Runs<T>(less: (T, T) -> bool, s: seq<T>, n: nat): nat
    requires n <= |s|
  {
    if n == 0 then 0 else 1 + Descents(less, s, n)
  }

  /** `s[i..j]` is a run, and it does not go on after `j`. */
  ghost predicate RunTo<T>(less: (T, T) -> bool, s: seq<T>, i: nat, j: nat) {
    && i < j <= |s|
    && Stepwise(less, s, i, j)
    && (j < |s| ==> less(s[j], s[j - 1]))
  }

  /** Where the run that `s[m - 1]` is part of ends, not after `j`. */
  ghost function RunEnd<T>(less: (T, T) -> bool, s: seq<T>, m: nat, j: nat): (e: nat)
    requires 0 < m <= j <= |s|
    ensures m <= e <= j
    decreases j - m
  {
    if m == j || less(s[m], s[m - 1]) then m else RunEnd(less, s, m + 1, j)
  }

  lemma {:induction false} RunEndIsRun<T>(less: (T, T) -> bool, s: seq<T>, i: nat, m: nat)
    requires i < m <= |s| && Stepwise(less, s, i, m)
    ensures RunTo(less, s, i, RunEnd(less, s, m, |s|))
    decreases |s| - m
  {
    if m < |s| && !less(s[m], s[m - 1]) {
      RunEndIsRun(less, s, i, m + 1);
    }
  }

  lemma {:induction false} SameDescents<T>(less: (T, T) -> bool, s: seq<T>, t: seq<T>, n: nat)
    requires n <= |s| && n <= |t| && forall i | 0 <= i < n :: s[i] == t[i]
    ensures Descents(less, s, n) == Descents(less, t, n)
  {
    if n > 1 {
      SameDescents(less, s, t, n - 1);
    }
  }

  lemma {:induction false} DescentsThroughRun<T>(less: (T, T) -> bool, s: seq<T>, i: nat, j: nat)
    requires i < j <= |s| && Stepwise(less, s, i, j)
    ensures Descents(less, s, j) == Descents(less, s, i + 1)
    decreases j
  {
    if i + 1 < j {
      assert !less(s[j - 1], s[j - 2]);
      DescentsThroughRun(less, s, i, j - 1);
    }
  }

  /** A sorted range adds at most one run to what is before it, and exactly one at a descent. */
  lemma RunAdds<T>(less: (T, T) -> bool, s: seq<T>, i: nat, j: nat)
    requires i < j <= |s| && Stepwise(less, s, i, j)
    ensures Runs(less, s, j) <= Runs(less, s, i) + 1
    ensures i == 0 || less(s[i], s[i - 1]) ==> Runs(less, s, j) == Runs(less, s, i) + 1
  {
    DescentsThroughRun(less, s, i, j);
  }

  lemma {:induction false} OneRunIsStepwise<T>(less: (T, T) -> bool, s: seq<T>, n: nat)
    requires n <= |s|
    ensures Runs(less, s, n) <= 1 <==> Stepwise(less, s, 0, n)
  {
    if n > 1 {
      OneRunIsStepwise(less, s, n - 1);
      assert Stepwise(less, s, 0, n) ==> !less(s[n - 1], s[n - 2]);
    }
  }

  /** A pass over `s0` that has reached position `i`: the runs of `s0[..i]` were merged two by
      two, giving `cnt` output runs, and nothing from `i` on has been touched. */
  ghost predicate Passing<T>(less: (T, T) -> bool, s0: seq<T>, s: seq<T>, i: nat, cnt: nat) {
    && i <= |s| == |s0|
    && (forall m | i <= m < |s| :: s[m] == s0[m])
    && Stable(less, s0, s)
    && Runs(less, s, i) <= cnt
    && Runs(less, s0, i) == 2 * cnt
    && (0 < i < |s| ==> less(s0[i], s0[i - 1]))
  }

  lemma PassEnds<T>(less: (T, T) -> bool, s0: seq<T>, s: seq<T>, i: nat, cnt: nat)
    requires Passing(less, s0, s, i, cnt) && RunTo(less, s, i, |s|)
    ensures Halved(less, s0, s, cnt + 1)
  {
    assert Stepwise(less, s0, i, |s0|);
    RunAdds(less, s0, i, |s0|);
    RunAdds(less, s, i, |s|);
  }

  lemma PassMerges<T>(less: (T, T) -> bool, s0: seq<T>, s: seq<T>, t: seq<T>, i: nat, j: nat, k: nat, cnt: nat)
    requires Passing(less, s0, s, i, cnt)
    requires RunTo(less, s, i, j) && RunTo(less, s, j, k)
    requires SameOutside(s, t, i, k) && Stable(less, s, t) && Stepwise(less, t, i, k)
    ensures Passing(less, s0, t, k, cnt + 1)
  {
    assert Stepwise(less, s0, i, j) && Stepwise(less, s0, j, k);
    RunAdds(less, s0, i, j);
    RunAdds(less, s0, j, k);
    RunAdds(less, t, i, k);
    SameDescents(less, s, t, i);
  }

  /** One merge of two adjacent runs takes the pass two runs further. */
  lemma {:induction false} PassStep<T>(less: (T, T) -> bool, s0: seq<T>, s: seq<T>, i: nat, j: nat, k: nat, cnt: nat, S: set<T>)
    requires StrictWeak(less, S) && Within(s, S)
    requires Passing(less, s0, s, i, cnt)
    requires RunTo(less, s, i, j) && RunTo(less, s, j, k)
    ensures Passing(less, s0, Merged(less, s, i, j, k), k, cnt + 1)
    ensures Within(Merged(less, s, i, j, k), S)
  {
    var t := Merged(less, s, i, j, k);
    StepwiseIsSorted(less, s, i, j, S);
    StepwiseIsSorted(less, s, j, k, S);
    MergedIsSorted(less, s, i, i, j, k, S);
    PermutedWithin(s, t, S);
    StepwiseIsSorted(less, t, i, k, S);
    PassMerges(less, s0, s, t, i, j, k, cnt);
  }

  lemma PermutedWithin<T>(s: seq<T>, t: seq<T>, S: set<T>)
    requires Within(s, S) && multiset(s) == multiset(t)
    ensures Within(t, S)
  {
    forall i | 0 <= i < |t|
      ensures t[i] in S
    {
      assert t[i] in multiset(t);
      assert t[i] in s;
    }
  }

  /** One pass from position `i` on: adjacent runs are merged two by two. Gives the result and the
      number of runs output, on top of the `cnt` already output. */
  ghost function Pass<T>(less: (T, T) -> bool, s: seq<T>, i: nat, cnt: nat): (seq<T>, nat)
    requires i <= |s|
    decreases |s| - i
  {
    if i == |s| then (s, cnt)
    else
      var j := RunEnd(less, s, i + 1, |s|);
      if j == |s| then (s, cnt + 1)
      else
        var k := RunEnd(less, s, j + 1, |s|);
        Pass(less, Merged(less, s, i, j, k), k, cnt + 1)
  }

  lemma PassOn<T>(less: (T, T) -> bool, s: seq<T>, i: nat, cnt: nat)
    requires i < |s| && RunEnd(less, s, i + 1, |s|) < |s|
    ensures var j := RunEnd(less, s, i + 1, |s|);
            var k := RunEnd(less, s, j + 1, |s|);
            Pass(less, s, i, cnt) == Pass(less, Merged(less, s, i, j, k), k, cnt + 1)
  {
  }

  /** `t` rearranges `s` stably and has at most `cnt` runs, half as many as `s` rounded up. */
  ghost predicate Halved<T>(less: (T, T) -> bool, s: seq<T>, t: seq<T>, cnt: nat) {
    && Stable(less, s, t)
    && Runs(less, s, |s|) <= 2 * cnt <= Runs(less, s, |s|) + 1
    && Runs(less, t, |t|) <= cnt
  }

  /** A pass is stable and at least halves the number of runs, rounded up; it returns that half. */
  lemma {:induction false} PassHalvesRuns<T>(less: (T, T) -> bool, s0: seq<T>, s: seq<T>, i: nat, cnt: nat, S: set<T>)
    requires StrictWeak(less, S) && Within(s, S)
    requires Passing(less, s0, s, i, cnt)
    ensures Halved(less, s0, Pass(less, s, i, cnt).0, Pass(less, s, i, cnt).1)
    decreases |s| - i
  {
    if i < |s| {
      var j := RunEnd(less, s, i + 1, |s|);
      RunEndIsRun(less, s, i, i + 1);
      if j == |s| {
        PassEnds(less, s0, s, i, cnt);
      } else {
        var k := RunEnd(less, s, j + 1, |s|);
        RunEndIsRun(less, s, j, j + 1);
        PassStep(less, s0, s, i, j, k, cnt, S);
        PassHalvesRuns(less, s0, Merged(less, s, i, j, k), k, cnt + 1, S);
      }
    }
  }

  // ---------- Ordered insertion ----------

  /** The first place from `k` on whose element `x` is less than, or the end. */
  ghost function Place<T>(less: (T, T) -> bool, x: T, s: seq<T>, k: nat): (p: nat)
    requires k <= |s|
    ensures k <= p <= |s|
    decreases |s| - k
  {
    if k == |s| || less(x, s[k]) then k else Place(less, x, s, k + 1)
  }

  ghost function Inserted<T>(s: seq<T>, k: nat, x: T): (t: seq<T>)
    requires k <= |s|
    ensures |t| == |s| + 1
  {
    seq(|s| + 1, i requires 0 <= i <= |s| => if i < k then s[i] else if i == k then x else s[i - 1])
  }

  lemma {:induction false} PlaceIsFirst<T>(less: (T, T) -> bool, x: T, s: seq<T>, k: nat)
    requires k <= |s|
    ensures var p := Place(less, x, s, k);
            (forall i | k <= i < p :: !less(x, s[i])) && (p < |s| ==> less(x, s[p]))
    decreases |s| - k
  {
    if k < |s| && !less(x, s[k]) {
      PlaceIsFirst(less, x, s, k + 1);
    }
  }

  /** Inserting at that place keeps a sorted sequence sorted, and puts `x` after its equivalents:
      everything before it is not greater, everything after it is. */
  lemma {:induction false} InsertedSorted<T>(less: (T, T) -> bool, x: T, s: seq<T>, S: set<T>)
    requires StrictWeak(less, S) && Within(s, S) && x in S && Sorted(less, s)
    ensures var p := Place(less, x, s, 0);
            && Sorted(less, Inserted(s, p, x))
            && (forall i | 0 <= i < p :: !less(x, s[i]))
            && (forall i | p <= i < |s| :: less(x, s[i]))
  {
    var p := Place(less, x, s, 0);
    PlaceIsFirst(less, x, s, 0);
    forall i | p <= i < |s|
      ensures less(x, s[i]) && !less(s[i], x)
    {
      assert i == p || !less(s[i], s[p]);
      LessThenNotLess(less, x, s[p], s[i], S);
    }
  }

}
