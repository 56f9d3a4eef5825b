/** The choice of a victim in filesys/buf_cache.c: a clock hand that gives every entry in use a
    second chance. */
module ClockSweep {

  /** The part of a cache entry that the clock looks at. */
  datatype Marks = Marks(accessed: bool, accessors: nat, evictable: bool)

  predicate Pickable(m: Marks) {
    m.accessors == 0 && m.evictable
  }

  /** The hand stops here. */
  predicate Stops(m: Marks) {
    Pickable(m) && !m.accessed
  }

  function Next(n: nat, hand: nat): (h: nat)
    requires hand < n
    ensures h < n
  {
    if hand + 1 == n then 0 else hand + 1
  }

  /** The hand has moved past `hand`. */
  function Passed(marks: seq<Marks>, hand: nat): seq<Marks>
    requires hand < |marks|
  {
    if Pickable(marks[hand]) then marks[hand := marks[hand].(accessed := false)] else marks
  }

  /** Where the hand stops, and the marks it leaves, if that takes no more than `steps` steps. */
  function Sweep(marks: seq<Marks>, hand: nat, steps: nat): (r: (seq<Marks>, nat))
    requires hand < |marks|
    ensures |r.0| == |marks| && r.1 < |marks|
    decreases steps
  {
    if steps == 0 || Stops(marks[hand]) then (marks, hand)
    else Sweep(Passed(marks, hand), Next(|marks|, hand), steps - 1)
  }

  /** The steps from `hand` forward to `p`. */
  function Distance(n: nat, hand: nat, p: nat): nat
    requires hand < n && p < n
  {
    if hand <= p then p - hand else p - hand + n
  }

  /** The steps after which the hand has stopped, at the latest at the pickable entry `p`. */
  function StepsTo(marks: seq<Marks>, hand: nat, p: nat): nat
    requires hand < |marks| && p < |marks|
  {
    Distance(|marks|, hand, p) + if marks[p].accessed then |marks| else 0
  }

  /** Only marks of use were cleared, and only those of pickable entries. */
  ghost predicate OnlyCleared(from: seq<Marks>, to: seq<Marks>) {
    && |from| == |to|
    && forall i | 0 <= i < |from| :: to[i] == from[i] || (Pickable(from[i]) && to[i] == from[i].(accessed := false))
  }

  /** A step that does not stop brings the hand one step nearer to stopping. */
  lemma Nearer(marks: seq<Marks>, hand: nat, p: nat)
    requires hand < |marks| && p < |marks| && Pickable(marks[p]) && !Stops(marks[hand])
    ensures StepsTo(Passed(marks, hand), Next(|marks|, hand), p) + 1 == StepsTo(marks, hand, p)
    ensures Pickable(Passed(marks, hand)[p])
  {
  }

  /** From any position, if some entry is pickable, the hand stops within two sweeps, at an entry
      that is pickable and not marked as used. */
  lemma {:induction false} SweepStops(marks: seq<Marks>, hand: nat, steps: nat, p: nat)
    requires hand < |marks| && p < |marks| && Pickable(marks[p]) && StepsTo(marks, hand, p) <= steps
    ensures var (after, v) := Sweep(marks, hand, steps); Stops(after[v]) && OnlyCleared(marks, after)
    decreases steps
  {
    if !Stops(marks[hand]) {
      Nearer(marks, hand, p);
      SweepStops(Passed(marks, hand), Next(|marks|, hand), steps - 1, p);
    }
  }

  /** The second chance: an entry in use is taken only if all that could be taken are in use; the
      one taken is the first of the others that the hand meets. */
  lemma {:induction false} SecondChance(marks: seq<Marks>, hand: nat, steps: nat, q: nat)
    requires hand < |marks| && q < |marks| && Stops(marks[q]) && StepsTo(marks, hand, q) <= steps
    ensures var v := Sweep(marks, hand, steps).1;
            Stops(marks[v]) && Distance(|marks|, hand, v) <= Distance(|marks|, hand, q)
    decreases steps
  {
    if !Stops(marks[hand]) {
      Nearer(marks, hand, q);
      SecondChance(Passed(marks, hand), Next(|marks|, hand), steps - 1, q);
    }
  }

  /** In any case the one taken is the nearest of those that can be, where an entry in use counts as a whole round
      farther away. */
  lemma {:induction false} NearestTaken(marks: seq<Marks>, hand: nat, steps: nat, p: nat)
    requires hand < |marks| && p < |marks| && Pickable(marks[p]) && StepsTo(marks, hand, p) <= steps
    ensures var v := Sweep(marks, hand, steps).1; Pickable(marks[v]) && StepsTo(marks, hand, v) <= StepsTo(marks, hand, p)
    decreases steps
  {
    if !Stops(marks[hand]) {
      Nearer(marks, hand, p);
      NearestTaken(Passed(marks, hand), Next(|marks|, hand), steps - 1, p);
      Nearer(marks, hand, Sweep(marks, hand, steps).1);
    }
  }

  function Clock(marks: seq<Marks>, hand: nat): (r: (seq<Marks>, nat))
    requires hand < |marks|
    ensures |r.0| == |marks| && r.1 < |marks|
  {
    Sweep(marks, hand, 2 * |marks|)
  }
}
