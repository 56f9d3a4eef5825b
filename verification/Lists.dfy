/** The intrusive doubly linked lists of lib/kernel/list.c: `prev` and `next` fields rewritten
    in place, with a head and a tail node that are not elements. */
module Lists {
  import opened Common
  import opened Orders

  class Elem {
    var prev: Elem?
    var next: Elem?

    constructor ()
      ensures prev == null && next == null
    {
      prev, next := null, null;
    }
  }

  predicate Apart(s: seq<Elem>, i: nat, j: nat) {
    i < j < |s| ==> s[i] != s[j]
  }

  /** The same as `Distinct`, for proofs that use it of a few named pairs only. */
  ghost predicate AllApart(s: seq<Elem>) {
    forall i: nat, j: nat {:trigger Apart(s, i, j)} :: Apart(s, i, j)
  }

  lemma ApartIsDistinct(s: seq<Elem>)
    ensures AllApart(s) <==> Distinct(s)
  {
    if AllApart(s) {
      forall i, j | 0 <= i < j < |s|
        ensures s[i] != s[j]
      {
        assert Apart(s, i, j);
      }
    }
  }

  /** Every node of `s` points to its neighbours in `s`, both ways. */
  ghost predicate Chain(s: seq<Elem>)
    reads s
  {
    && (forall i {:trigger s[i].next} | 0 <= i < |s| - 1 :: s[i].next == s[i + 1])
    && (forall i {:trigger s[i].prev} | 1 <= i < |s| :: s[i].prev == s[i - 1])
  }

  ghost predicate Disjoint(s: seq<Elem>, t: seq<Elem>) {
    forall i, j | 0 <= i < |s| && 0 <= j < |t| :: s[i] != t[j]
  }

  lemma ChainConcat(s: seq<Elem>, t: seq<Elem>)
    requires Chain(s) && Chain(t) && s != [] && t != []
    requires s[|s| - 1].next == t[0] && t[0].prev == s[|s| - 1]
    ensures Chain(s + t)
  {
  }

  /** Unlinks `first` through `last`, the nodes `s[i..j]`, from their list; they stay linked to
      each other. */
  method Detach(first: Elem, last: Elem, ghost s: seq<Elem>, ghost i: nat, ghost j: nat)
    requires Chain(s) && Distinct(s) && 1 <= i < j < |s| && s[i] == first && s[j - 1] == last
    modifies s[i - 1], s[j]
    ensures Chain(CutOut(s, i, j)) && Chain(s[i..j])
    ensures s[0].prev == old(s[0].prev) && s[|s| - 1].next == old(s[|s| - 1].next)
    ensures first.prev == old(first.prev) && last.next == old(last.next)
  {
    first.prev.next := last.next;
    last.next.prev := first.prev;
  }

  /** Links the chain `mid`, which runs from `first` to `last`, in just before `before`. */
  method Attach(before: Elem, first: Elem, last: Elem, ghost mid: seq<Elem>, ghost s: seq<Elem>, ghost k: nat)
    requires Chain(s) && Distinct(s) && 1 <= k < |s| && s[k] == before
    requires Chain(mid) && Distinct(mid) && mid != [] && mid[0] == first && mid[|mid| - 1] == last
    requires Disjoint(mid, s)
    modifies first, last, s[k - 1], before
    ensures Chain(With(s, k, mid))
    ensures s[0].prev == old(s[0].prev) && s[|s| - 1].next == old(s[|s| - 1].next)
  {
    first.prev := before.prev;
    last.next := before;
    before.prev.next := first;
    before.prev := last;
    assert Chain(s[..k]) && Chain(s[k..]) && Chain(mid);
    ChainConcat(s[..k], mid);
    ChainConcat(s[..k] + mid, s[k..]);
  }

  lemma PartsDistinct(s: seq<Elem>, i: nat, j: nat)
    requires Distinct(s) && i <= j <= |s|
    ensures Distinct(CutOut(s, i, j)) && Distinct(s[i..j]) && Disjoint(s[i..j], CutOut(s, i, j))
  {
  }

  /** What is left of the list `s` without its nodes `s[i..j]`. */
  ghost function CutOut(s: seq<Elem>, i: nat, j: nat): seq<Elem>
    requires i <= j <= |s|
  {
    s[..i] + s[j..]
  }

  /** The list `s` with the nodes `mid` just before `s[k]`. */
  ghost function With(s: seq<Elem>, k: nat, mid: seq<Elem>): seq<Elem>
    requires k <= |s|
  {
    s[..k] + mid + s[k..]
  }

  /** Removes `first` up to but not including `last` from their list, whose nodes are `src`, and
      inserts them just before `before`. Here `dst` is the list without them that `before` is on:
      another list, or what is left of the same one. */
  method Splice(before: Elem, first: Elem, last: Elem,
                ghost src: seq<Elem>, ghost i: nat, ghost j: nat, ghost dst: seq<Elem>, ghost k: nat)
    requires Chain(src) && Distinct(src) && 1 <= i <= j < |src| && src[i] == first && src[j] == last
    requires dst == CutOut(src, i, j) || (Disjoint(src, dst) && Chain(dst) && Distinct(dst))
    requires 1 <= k < |dst| && dst[k] == before
    modifies src, dst
    ensures Chain(With(dst, k, src[i..j]))
    ensures Disjoint(src, dst) ==> Chain(CutOut(src, i, j))
    ensures src[0].prev == old(src[0].prev) && src[|src| - 1].next == old(src[|src| - 1].next)
    ensures dst[0].prev == old(dst[0].prev) && dst[|dst| - 1].next == old(dst[|dst| - 1].next)
  {
    if first == last {
      assert i == j;
      assert CutOut(src, i, j) == src;
      assert With(dst, k, src[i..j]) == dst;
      return;
    }
    var l := last.prev;
    PartsDistinct(src, i, j);
    Detach(first, l, src, i, j);
    Attach(before, first, l, src[i..j], dst, k);
  }

  ghost function Reversed(s: seq<Elem>): seq<Elem> {
    seq(|s|, i requires 0 <= i < |s| => s[|s| - 1 - i])
  }

  ghost function Elements(s: seq<Elem>): set<Elem> {
    set x | x in s
  }

  lemma MovedBackIsSpliced(s: seq<Elem>, p: nat, q: nat)
    requires p < q < |s|
    ensures MovedBack(s, p, q) == With(CutOut(s, q, q + 1), p, s[q..q + 1])
  {
    MovedBackBlocks(s, p, q);
    var w := CutOut(s, q, q + 1);
    assert w[..p] == s[..p] && w[p..] == s[p..q] + s[q + 1..];
  }

  /** A moved node is still between the head and the tail, and all are still different nodes. */
  lemma MovedBackNodes(head: Elem, s: seq<Elem>, tail: Elem, p: nat, q: nat)
    requires p < q < |s| && Distinct([head] + s + [tail])
    ensures [head] + MovedBack(s, p, q) + [tail] == MovedBack([head] + s + [tail], p + 1, q + 1)
    ensures Distinct(MovedBack([head] + s + [tail], p + 1, q + 1))
  {
  }

  /** A node more between the head and the tail. */
  lemma WithOne(head: Elem, s: seq<Elem>, tail: Elem, k: nat, elem: Elem)
    requires k <= |s| && Distinct([head] + s + [tail]) && elem !in [head] + s + [tail]
    ensures [head] + With(s, k, [elem]) + [tail] == With([head] + s + [tail], k + 1, [elem])
    ensures Distinct([head] + With(s, k, [elem]) + [tail])
    ensures forall e | e in [head] + With(s, k, [elem]) + [tail] :: e == elem || e in [head] + s + [tail]
  {
  }

  class List {
    const head: Elem
    const tail: Elem
    ghost var elems: seq<Elem>
    ghost var repr: set<Elem>

    ghost function Nodes(): seq<Elem>
      reads this
    {
      [head] + elems + [tail]
    }

    ghost predicate Valid()
      reads this, repr
    {
      && (forall i | 0 <= i < |Nodes()| :: Nodes()[i] in repr)
      && head in repr && tail in repr
      && AllApart(Nodes())
      && Chain(Nodes())
      && head.prev == null && tail.next == null
    }

    constructor ()
      ensures Valid() && elems == [] && fresh(repr)
    {
      var h := new Elem();
      var t := new Elem();
      h.next, t.prev := t, h;
      head, tail, elems, repr := h, t, [], {h, t};
    }

    method Begin() returns (e: Elem)
      requires Valid()
      ensures e == Nodes()[1]
    {
      assert head == Nodes()[0];
      e := head.next;
    }

    method Insert(before: Elem, elem: Elem, ghost k: nat)
      requires Valid() && k <= |elems| && before == Nodes()[k + 1] && elem !in Nodes()
      modifies this, repr, elem
      ensures Valid() && elems == With(old(elems), k, [elem]) && repr == old(repr) + {elem}
    {
      ApartIsDistinct(Nodes());
      Attach(before, elem, elem, [elem], Nodes(), k + 1);
      WithOne(head, elems, tail, k, elem);
      elems, repr := With(elems, k, [elem]), repr + {elem};
      ApartIsDistinct(Nodes());
    }

    method Remove(elem: Elem, ghost k: nat) returns (next: Elem)
      requires Valid() && k < |elems| && elem == elems[k]
      modifies this, repr
      ensures Valid() && elems == CutOut(old(elems), k, k + 1) && repr == old(repr) && next == old(Nodes())[k + 2]
    {
      assert Nodes()[k + 1] == elem;
      ApartIsDistinct(Nodes());
      Detach(elem, elem, Nodes(), k + 1, k + 2);
      elems := CutOut(elems, k, k + 1);
      assert Nodes() == CutOut(old(Nodes()), k + 1, k + 2);
      ApartIsDistinct(Nodes());
      next := elem.next;
    }

    lemma TurnedAround(ns: seq<Elem>, rs: seq<Elem>)
      requires |ns| == |rs| > 2 && ns[0] == rs[0] && ns[|ns| - 1] == rs[|ns| - 1] && Distinct(ns)
      requires forall m | 1 <= m < |ns| - 1 :: rs[m] == ns[|ns| - 1 - m]
      requires forall m {:trigger ns[m].next} | 2 <= m < |ns| - 1 :: ns[m].next == ns[m - 1]
      requires forall m {:trigger ns[m].prev} | 1 <= m < |ns| - 2 :: ns[m].prev == ns[m + 1]
      requires ns[0].next == ns[|ns| - 2] && ns[|ns| - 2].prev == ns[0]
      requires ns[|ns| - 1].prev == ns[1] && ns[1].next == ns[|ns| - 1]
      ensures Chain(rs) && Distinct(rs)
    {
    }

    /** Turns every node around, then exchanges the ends. */
    method Reverse()
      requires Valid()
      modifies this, repr
      ensures Valid() && elems == Reversed(old(elems)) && repr == old(repr)
    {
      ghost var ns := Nodes();
      ApartIsDistinct(ns);
      assert head == ns[0] && tail == ns[|ns| - 1];
      if head.next != tail {
        var e := head.next;
        ghost var n := 0;
        while e != tail
          invariant elems == old(elems) && repr == old(repr) && 0 <= n <= |elems| && e == ns[n + 1]
          invariant forall m {:trigger ns[m].prev} | 1 <= m < |ns| - 1 ::
                      ns[m].prev == if m <= n then ns[m + 1] else ns[m - 1]
          invariant forall m {:trigger ns[m].next} | 1 <= m < |ns| - 1 ::
                      ns[m].next == if m <= n then ns[m - 1] else ns[m + 1]
          invariant head.prev == null && head.next == ns[1]
          invariant tail.prev == ns[|ns| - 2] && tail.next == null
          decreases |elems| - n
        {
          e.prev, e.next := e.next, e.prev;
          e := e.prev;
          n := n + 1;
        }
        head.next, tail.prev := tail.prev, head.next;
        head.next.prev, tail.prev.next := tail.prev.next, head.next.prev;
        elems := Reversed(elems);
        TurnedAround(ns, Nodes());
        ApartIsDistinct(Nodes());
      } else {
        assert elems == [] == Reversed(elems);
      }
    }

    /** Whether the elements from `a` up to but not including `b` are in order. */
    method IsSorted(a: Elem, b: Elem, less: (Elem, Elem) -> bool, ghost i: nat, ghost j: nat) returns (sorted: bool)
      requires Valid() && i <= j <= |elems| && a == Nodes()[i + 1] && b == Nodes()[j + 1]
      ensures sorted <==> Stepwise(less, elems, i, j)
    {
      if a != b {
        var e := a.next;
        ghost var m := i + 1;
        while e != b
          invariant i < m <= j && e == Nodes()[m + 1]
          invariant Stepwise(less, elems, i, m)
          decreases j - m
        {
          assert e == elems[m] && e.prev == elems[m - 1];
          if less(e, e.prev) {
            return false;
          }
          e := e.next;
          m := m + 1;
        }
        assert Apart(Nodes(), m + 1, j + 1);
      }
      assert Apart(Nodes(), i + 1, j + 1);
      return true;
    }

    /** The end of the run that starts at `a`, not after `b`. */
    method FindEndOfRun(a: Elem, b: Elem, less: (Elem, Elem) -> bool, ghost i: nat, ghost j: nat) returns (end: Elem)
      requires Valid() && i < j <= |elems| && a == Nodes()[i + 1] && b == Nodes()[j + 1]
      ensures end == Nodes()[RunEnd(less, elems, i + 1, j) + 1]
    {
      end := a.next;
      ghost var m := i + 1;
      while end != b && !less(end, end.prev)
        invariant i < m <= j && end == Nodes()[m + 1] && end.prev != null && end.prev == Nodes()[m]
        invariant RunEnd(less, elems, m, j) == RunEnd(less, elems, i + 1, j)
        decreases j - m
      {
        assert end == elems[m] && end.prev == elems[m - 1];
        end := end.next;
        m := m + 1;
      }
      assert Apart(Nodes(), m + 1, j + 1);
      assert m < j ==> end == elems[m] && end.prev == elems[m - 1];
    }

    /** Splices the node before `after`, the one at position `q`, in just before `before`. */
    method MoveBack(before: Elem, after: Elem, ghost p: nat, ghost q: nat)
      requires Valid() && p < q < |elems| && before == Nodes()[p + 1] && after == Nodes()[q + 2]
      modifies this, repr
      ensures Valid() && elems == MovedBack(old(elems), p, q)
      ensures before == Nodes()[p + 2]
      ensures forall m | q + 1 < m < |Nodes()| :: Nodes()[m] == old(Nodes())[m]
      ensures repr == old(repr)
    {
      ghost var ns := Nodes();
      ApartIsDistinct(ns);
      MovedBackIsSpliced(ns, p + 1, q + 1);
      MovedBackNodes(head, elems, tail, p, q);
      Splice(before, after.prev, after, ns, q + 1, q + 2, CutOut(ns, q + 1, q + 2), p + 1);
      elems := MovedBack(elems, p, q);
      ApartIsDistinct(Nodes());
    }

    /** Merges the sorted ranges `a0`..`a1b0` and `a1b0`..`b1` by splicing, one node at a time. */
    method InplaceMerge(a0: Elem, a1b0: Elem, b1: Elem, less: (Elem, Elem) -> bool,
                        ghost lo: nat, ghost mid: nat, ghost hi: nat)
      requires Valid() && lo <= mid <= hi <= |elems|
      requires a0 == Nodes()[lo + 1] && a1b0 == Nodes()[mid + 1] && b1 == Nodes()[hi + 1]
      modifies this, repr
      ensures Valid() && elems == Merged(less, old(elems), lo, mid, hi)
      ensures repr == old(repr) && b1 == Nodes()[hi + 1]
    {
      var a, b := a0, a1b0;
      ghost var p, q := lo, mid;
      while a != b && b != b1
        invariant Valid() && repr == old(repr)
        invariant lo <= p <= q <= hi <= |elems|
        invariant a == Nodes()[p + 1] && b == Nodes()[q + 1] && b1 == Nodes()[hi + 1]
        invariant Merged(less, elems, p, q, hi) == Merged(less, old(elems), lo, mid, hi)
        decreases hi - p
      {
        assert a == elems[p] && b == elems[q];
        if !less(b, a) {
          a := a.next;
          p := p + 1;
        } else {
          b := b.next;
          MoveBack(a, b, p, q);
          p, q := p + 1, q + 1;
        }
      }
      assert Apart(Nodes(), p + 1, q + 1) && Apart(Nodes(), q + 1, hi + 1);
    }

    /** Merges the run that starts at `a0` with the next one, unless it is the last one. This takes the
        pass, which has output `cnt` runs so far, one run further. */
    method MergeRuns(a0: Elem, less: (Elem, Elem) -> bool, ghost i: nat, ghost cnt: nat)
      returns (last: bool, b1: Elem, ghost next: nat)
      requires Valid() && i < |elems| && a0 == Nodes()[i + 1]
      modifies this, repr
      ensures Valid() && repr == old(repr) && |elems| == |old(elems)|
      ensures last ==> Pass(less, old(elems), i, cnt) == (elems, cnt + 1)
      ensures !last ==> i < next <= |elems| && b1 == Nodes()[next + 1]
      ensures !last ==> Pass(less, old(elems), i, cnt) == Pass(less, elems, next, cnt + 1)
    {
      ghost var j := RunEnd(less, elems, i + 1, |elems|);
      var a1b0 := FindEndOfRun(a0, tail, less, i, |elems|);
      b1, next := a1b0, j;
      if a1b0 == tail {
        assert Apart(Nodes(), j + 1, |elems| + 1) || j == |elems|;
        last := true;
      } else {
        assert j < |elems|;
        next := RunEnd(less, elems, j + 1, |elems|);
        b1 := FindEndOfRun(a1b0, tail, less, j, |elems|);
        MergeNext(a0, a1b0, b1, less, i, j, next, cnt);
        last := false;
      }
    }

    method MergeNext(a0: Elem, a1b0: Elem, b1: Elem, less: (Elem, Elem) -> bool,
                     ghost lo: nat, ghost mid: nat, ghost hi: nat, ghost cnt: nat)
      requires Valid() && lo < mid < hi <= |elems|
      requires mid == RunEnd(less, elems, lo + 1, |elems|) && hi == RunEnd(less, elems, mid + 1, |elems|)
      requires a0 == Nodes()[lo + 1] && a1b0 == Nodes()[mid + 1] && b1 == Nodes()[hi + 1]
      modifies this, repr
      ensures Valid() && repr == old(repr) && |elems| == |old(elems)| && b1 == Nodes()[hi + 1]
      ensures Pass(less, old(elems), lo, cnt) == Pass(less, elems, hi, cnt + 1)
    {
      PassOn(less, elems, lo, cnt);
      InplaceMerge(a0, a1b0, b1, less, lo, mid, hi);
    }

    /** One pass of the sort: merges the runs of the list two by two, and counts the results. */
    method SortPass(less: (Elem, Elem) -> bool) returns (runs: nat)
      requires Valid()
      modifies this, repr
      ensures Valid() && repr == old(repr)
      ensures (elems, runs) == Pass(less, old(elems), 0, 0)
    {
      runs := 0;
      var a0 := Begin();
      ghost var i: nat := 0;
      while a0 != tail
        invariant Valid() && repr == old(repr)
        invariant i <= |elems| && a0 == Nodes()[i + 1]
        invariant Pass(less, elems, i, runs) == Pass(less, old(elems), 0, 0)
        decreases |elems| - i
      {
        var last;
        last, a0, i := MergeRuns(a0, less, i, runs);
        runs := runs + 1;
        if last {
          return;
        }
      }
      assert Apart(Nodes(), i + 1, |elems| + 1) || i == |elems|;
    }

    /** Sorts the list, stably, in passes that at least halve the number of runs. */
    method Sort(less: (Elem, Elem) -> bool)
      requires Valid() && StrictWeak(less, Elements(elems))
      modifies this, repr
      ensures Valid() && repr == old(repr)
      ensures Sorted(less, elems) && Stable(less, old(elems), elems)
    {
      ghost var S := Elements(elems);
      PassHalvesRuns(less, elems, elems, 0, 0, S);
      var runs := SortPass(less);
      while runs > 1
        invariant Valid() && repr == old(repr)
        invariant Stable(less, old(elems), elems) && Runs(less, elems, |elems|) <= runs
        decreases runs
      {
        PermutedWithin(old(elems), elems, S);
        PassHalvesRuns(less, elems, elems, 0, 0, S);
        runs := SortPass(less);
      }
      PermutedWithin(old(elems), elems, S);
      OneRunIsStepwise(less, elems, |elems|);
      StepwiseIsSorted(less, elems, 0, |elems|, S);
      var first := Begin();
      var ok := IsSorted(first, tail, less, 0, |elems|);
      assert ok;
    }

    /** Inserts `elem` before the first element it is less than. */
    method InsertOrdered(elem: Elem, less: (Elem, Elem) -> bool)
      requires Valid() && elem !in Nodes()
      modifies this, repr, elem
      ensures Valid() && repr == old(repr) + {elem}
      ensures elems == Inserted(old(elems), Place(less, elem, old(elems), 0), elem)
    {
      var e := Begin();
      ghost var k: nat := 0;
      while e != tail
        invariant k <= |elems| && e == Nodes()[k + 1]
        invariant Place(less, elem, elems, k) == Place(less, elem, elems, 0)
        decreases |elems| - k
      {
        assert e == elems[k];
        if less(elem, e) {
          break;
        }
        e := e.next;
        k := k + 1;
      }
      assert k < |elems| ==> e == elems[k];
      Insert(e, elem, k);
      assert elems == Inserted(old(elems), k, elem);
    }
  }

}
