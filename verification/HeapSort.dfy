/** The heap sort and binary search of lib/stdlib.c. Heap positions count from 1, as in the source;
    `cmp` is a strcmp()-type comparison. */
module HeapSort {

  ghost predicate TotalPreorder<T(!new)>(cmp: (T, T) -> int) {
    && (forall a, b :: cmp(a, b) > 0 <==> cmp(b, a) < 0)
    && (forall a, b, c {:trigger cmp(a, b), cmp(b, c), cmp(a, c)} :: cmp(a, b) <= 0 && cmp(b, c) <= 0 ==> cmp(a, c) <= 0)
  }

  ghost predicate Sorted<T>(cmp: (T, T) -> int, s: seq<T>) {
    forall i, j {:trigger cmp(s[i], s[j])} | 0 <= i < j < |s| :: cmp(s[i], s[j]) <= 0
  }

  /** The element at heap position `p` of the first `n` is not less than those below it. */
  ghost predicate NodeOk<T>(cmp: (T, T) -> int, s: seq<T>, p: nat, n: nat)
    requires 1 <= p && n <= |s|
  {
    && (2 * p <= n ==> cmp(s[2 * p - 1], s[p - 1]) <= 0)
    && (2 * p + 1 <= n ==> cmp(s[2 * p], s[p - 1]) <= 0)
  }

  /** The positions from `lo` on of the first `n` elements are in heap order. */
  ghost predicate Heap<T>(cmp: (T, T) -> int, s: seq<T>, lo: nat, n: nat)
    requires 1 <= lo && n <= |s|
  {
    forall p | lo <= p :: NodeOk(cmp, s, p, n)
  }

  /** In a heap no element is greater than the first. */
  lemma {:induction false} RootIsGreatest<T(!new)>(cmp: (T, T) -> int, s: seq<T>, n: nat, p: nat)
    requires TotalPreorder(cmp) && n <= |s| && 1 <= p <= n && Heap(cmp, s, 1, n)
    ensures cmp(s[p - 1], s[0]) <= 0
    decreases p
  {
    if p > 1 {
      RootIsGreatest(cmp, s, n, p / 2);
      assert NodeOk(cmp, s, p / 2, n);
      assert cmp(s[p - 1], s[p / 2 - 1]) <= 0;
    }
  }

  ghost function Swapped<T>(s: seq<T>, i: nat, j: nat): seq<T>
    requires i < |s| && j < |s|
  {
    s[i := s[j]][j := s[i]]
  }

  lemma SwapPermutes<T>(s: seq<T>, i: nat, j: nat)
    requires i < |s| && j < |s|
    ensures multiset(Swapped(s, i, j)) == multiset(s)
  {
  }

  /** Heap order except for the children of `i`, the element that is still floating down from `lo`;
      its children are in order with its parent. */
  ghost predicate Floating<T>(cmp: (T, T) -> int, s: seq<T>, lo: nat, i: nat, n: nat)
    requires 1 <= lo <= i && n <= |s|
  {
    && (forall p | lo <= p && p != i :: NodeOk(cmp, s, p, n))
    && (i > lo ==> i / 2 >= lo && i <= n)
    && (i > lo && 2 * i <= n ==> cmp(s[2 * i - 1], s[i / 2 - 1]) <= 0)
    && (i > lo && 2 * i + 1 <= n ==> cmp(s[2 * i], s[i / 2 - 1]) <= 0)
  }

  /** The position of the greatest among `i` and its children. */
  function Greatest<T>(cmp: (T, T) -> int, s: seq<T>, i: nat, n: nat): (m: nat)
    requires 1 <= i <= n <= |s|
    ensures m == i || m == 2 * i || m == 2 * i + 1
    ensures i <= m <= n
  {
    var m := if 2 * i <= n && cmp(s[2 * i - 1], s[i - 1]) > 0 then 2 * i else i;
    if 2 * i + 1 <= n && cmp(s[2 * i], s[m - 1]) > 0 then 2 * i + 1 else m
  }

  lemma GreatestAbove<T(!new)>(cmp: (T, T) -> int, s: seq<T>, i: nat, n: nat)
    requires TotalPreorder(cmp) && 1 <= i <= n <= |s| && Greatest(cmp, s, i, n) != i
    ensures NodeOk(cmp, Swapped(s, i - 1, Greatest(cmp, s, i, n) - 1), i, n)
  {
  }

  lemma FloatEnds<T(!new)>(cmp: (T, T) -> int, s: seq<T>, lo: nat, i: nat, n: nat)
    requires TotalPreorder(cmp) && 1 <= lo <= i <= n <= |s| && Floating(cmp, s, lo, i, n)
    requires Greatest(cmp, s, i, n) == i
    ensures Heap(cmp, s, lo, n)
  {
    assert NodeOk(cmp, s, i, n);
  }

  lemma FloatDown<T(!new)>(cmp: (T, T) -> int, s: seq<T>, lo: nat, i: nat, n: nat)
    requires TotalPreorder(cmp) && 1 <= lo <= i <= n <= |s| && Floating(cmp, s, lo, i, n)
    requires Greatest(cmp, s, i, n) != i
    ensures Floating(cmp, Swapped(s, i - 1, Greatest(cmp, s, i, n) - 1), lo, Greatest(cmp, s, i, n), n)
  {
    var m := Greatest(cmp, s, i, n);
    var t := Swapped(s, i - 1, m - 1);
    assert m / 2 == i;
    forall p | lo <= p && p != m
      ensures NodeOk(cmp, t, p, n)
    {
      if p == i {
        GreatestAbove(cmp, s, i, n);
      } else {
        assert NodeOk(cmp, s, p, n);
        if p == i / 2 {
          assert i > lo;
        } else {
          assert 2 * p != i && 2 * p + 1 != i && 2 * p != m && 2 * p + 1 != m;
        }
      }
    }
    assert NodeOk(cmp, s, m, n);
  }

  /** Floats the element at position `start` down among the first `n`. */
  method Heapify<T(!new)>(a: array<T>, start: nat, n: nat, cmp: (T, T) -> int)
    requires TotalPreorder(cmp) && 1 <= start <= n <= a.Length && Heap(cmp, a[..], start + 1, n)
    modifies a
    ensures Heap(cmp, a[..], start, n)
    ensures multiset(a[..]) == old(multiset(a[..])) && forall k | n <= k < a.Length :: a[k] == old(a[k])
  {
    var i := start;
    while true
      invariant start <= i <= n && Floating(cmp, a[..], start, i, n)
      invariant multiset(a[..]) == old(multiset(a[..])) && forall k | n <= k < a.Length :: a[k] == old(a[k])
      decreases n - i
    {
      var max := FindGreatest(a, i, n, cmp);
      if max == i {
        FloatEnds(cmp, a[..], start, i, n);
        return;
      }
      assert Floating(cmp, Swapped(a[..], i - 1, max - 1), start, max, n) by {
        FloatDown(cmp, a[..], start, i, n);
      }
      DoSwap(a, i, max);
      i := max;
    }
  }

  method FindGreatest<T>(a: array<T>, i: nat, n: nat, cmp: (T, T) -> int) returns (max: nat)
    requires 1 <= i <= n <= a.Length
    ensures max == Greatest(cmp, a[..], i, n)
  {
    var left, right := 2 * i, 2 * i + 1;
    max := i;
    if left <= n && cmp(a[left - 1], a[max - 1]) > 0 {
      max := left;
    }
    if right <= n && cmp(a[right - 1], a[max - 1]) > 0 {
      max := right;
    }
  }

  /** Exchanges the elements at two heap positions. */
  method DoSwap<T>(a: array<T>, i: nat, j: nat)
    requires 1 <= i <= a.Length && 1 <= j <= a.Length
    modifies a
    ensures a[..] == Swapped(old(a[..]), i - 1, j - 1) && multiset(a[..]) == old(multiset(a[..]))
    ensures forall k | 0 <= k < a.Length && k != i - 1 && k != j - 1 :: a[k] == old(a[k])
  {
    SwapPermutes(a[..], i - 1, j - 1);
    a[i - 1], a[j - 1] := a[j - 1], a[i - 1];
    assert a[..] == Swapped(old(a[..]), i - 1, j - 1);
  }

  /** The elements from `n` on are sorted, and none before is greater than any of them. */
  ghost predicate Done<T>(cmp: (T, T) -> int, s: seq<T>, n: nat)
    requires n <= |s|
  {
    forall i, j {:trigger cmp(s[i], s[j])} | 0 <= i < j < |s| && n <= j :: cmp(s[i], s[j]) <= 0
  }

  /** What holds of every one of the first `n` elements still does after they were rearranged. */
  lemma PermutedPrefix<T>(s: seq<T>, t: seq<T>, n: nat, i: nat)
    requires |s| == |t| && i < n <= |s| && multiset(s) == multiset(t) && s[n..] == t[n..]
    ensures t[i] in s[..n]
  {
    assert s == s[..n] + s[n..] && t == t[..n] + t[n..];
    assert multiset(s[..n]) == multiset(s) - multiset(s[n..]);
    assert multiset(t[..n]) == multiset(t) - multiset(t[n..]);
    assert t[..n][i] == t[i] && t[i] in multiset(t[..n]);
    assert t[i] in multiset(s[..n]);
  }

  lemma DoneKept<T>(cmp: (T, T) -> int, s: seq<T>, t: seq<T>, n: nat)
    requires |s| == |t| && n <= |s| && multiset(s) == multiset(t) && s[n..] == t[n..] && Done(cmp, s, n)
    ensures Done(cmp, t, n)
  {
    forall i, j | 0 <= i < j < |t| && n <= j
      ensures cmp(t[i], t[j]) <= 0
    {
      assert t[j] == t[n..][j - n] == s[j];
      if i < n {
        PermutedPrefix(s, t, n, i);
        var k :| 0 <= k < n && s[..n][k] == t[i];
        assert cmp(s[k], s[j]) <= 0;
      } else {
        assert t[i] == t[n..][i - n] == s[i];
      }
    }
  }

  /** Putting the root of the heap behind it extends the sorted part by one. */
  lemma RootToEnd<T(!new)>(cmp: (T, T) -> int, s: seq<T>, n: nat)
    requires TotalPreorder(cmp) && 1 < n <= |s| && Heap(cmp, s, 1, n) && Done(cmp, s, n)
    ensures Done(cmp, Swapped(s, 0, n - 1), n - 1) && Heap(cmp, Swapped(s, 0, n - 1), 2, n - 1)
  {
    var t, m := Swapped(s, 0, n - 1), n - 1;
    forall i | 0 <= i < m
      ensures cmp(t[i], t[m]) <= 0
    {
      RootIsGreatest(cmp, s, n, if i == 0 then n else i + 1);
    }
    forall p | 2 <= p
      ensures NodeOk(cmp, t, p, m)
    {
      assert NodeOk(cmp, s, p, n);
    }
  }

  method BuildHeap<T(!new)>(a: array<T>, cmp: (T, T) -> int)
    requires TotalPreorder(cmp)
    modifies a
    ensures Heap(cmp, a[..], 1, a.Length) && multiset(a[..]) == old(multiset(a[..]))
  {
    var i := a.Length / 2;
    while i > 0
      invariant 0 <= i <= a.Length / 2 && Heap(cmp, a[..], i + 1, a.Length)
      invariant multiset(a[..]) == old(multiset(a[..]))
    {
      Heapify(a, i, a.Length, cmp);
      i := i - 1;
    }
  }

  /** Moves the root of the heap of the first `n` elements behind it. */
  method MoveRoot<T(!new)>(a: array<T>, n: nat, cmp: (T, T) -> int)
    requires TotalPreorder(cmp) && 1 < n <= a.Length && Heap(cmp, a[..], 1, n) && Done(cmp, a[..], n)
    modifies a
    ensures Heap(cmp, a[..], 1, n - 1) && Done(cmp, a[..], n - 1) && multiset(a[..]) == old(multiset(a[..]))
  {
    RootToEnd(cmp, a[..], n);
    DoSwap(a, 1, n);
    ghost var before := a[..];
    Heapify(a, 1, n - 1, cmp);
    assert before[n - 1..] == a[n - 1..];
    DoneKept(cmp, before, a[..], n - 1);
  }

  /** Sorts the array: builds a heap, then moves its root behind it until nothing is left. */
  method Sort<T(!new)>(a: array<T>, cmp: (T, T) -> int)
    requires TotalPreorder(cmp)
    modifies a
    ensures Sorted(cmp, a[..]) && multiset(a[..]) == old(multiset(a[..]))
  {
    BuildHeap(a, cmp);
    var i := a.Length;
    while i > 1
      invariant 0 <= i <= a.Length && Heap(cmp, a[..], 1, i) && Done(cmp, a[..], i)
      invariant multiset(a[..]) == old(multiset(a[..]))
    {
      MoveRoot(a, i, cmp);
      i := i - 1;
    }
  }

  datatype Found = NotFound | At(index: nat)

  /** Finds a match in a sorted array exactly if there is one. */
  method BinarySearch<T(!new)>(key: T, a: array<T>, cmp: (T, T) -> int) returns (r: Found)
    requires TotalPreorder(cmp) && Sorted(cmp, a[..])
    ensures r.At? ==> r.index < a.Length && cmp(key, a[r.index]) == 0
    ensures r.NotFound? ==> forall i | 0 <= i < a.Length :: cmp(key, a[i]) != 0
  {
    var first, last := 0, a.Length;
    while first < last
      invariant 0 <= first <= last <= a.Length
      invariant forall i | 0 <= i < first :: cmp(key, a[i]) > 0
      invariant forall i | last <= i < a.Length :: cmp(key, a[i]) < 0
    {
      var middle := first + (last - first) / 2;
      var c := cmp(key, a[middle]);
      if c < 0 {
        forall i | middle <= i < a.Length
          ensures cmp(key, a[i]) < 0
        {
          assert middle < i ==> cmp(a[..][middle], a[..][i]) <= 0;
        }
        last := middle;
      } else if c > 0 {
        forall i | 0 <= i <= middle
          ensures cmp(key, a[i]) > 0
        {
          assert i < middle ==> cmp(a[..][i], a[..][middle]) <= 0;
        }
        first := middle + 1;
      } else {
        return At(middle);
      }
    }
    r := NotFound;
  }

}
