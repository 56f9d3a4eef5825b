/** The swap partition of vm/swap.c: slots of eight sectors, taken from a list of free slots or
    from above a high-water mark. A slot is known by its first sector. */
module Swap {
  import opened Common

  const SLOT_SIZE: nat := 8

  predicate IsPage(p: seq<Byte>) {
    |p| == PAGE_SIZE
  }

  /** The sectors from `s` up to but not including `s + n`, one after the other. */
  function Joined(disk: seq<seq<Byte>>, s: nat, n: nat): seq<Byte>
    requires s + n <= |disk|
  {
    if n == 0 then [] else Joined(disk, s, n - 1) + disk[s + n - 1]
  }

  lemma {:induction false} JoinedSame(d: seq<seq<Byte>>, d': seq<seq<Byte>>, s: nat, n: nat)
    requires s + n <= |d| && s + n <= |d'| && forall k | s <= k < s + n :: d[k] == d'[k]
    ensures Joined(d, s, n) == Joined(d', s, n)
  {
    if n > 0 {
      JoinedSame(d, d', s, n - 1);
    }
  }

  datatype Outcome = Stored(slot: nat) | Overflow | OutOfRange

  ghost predicate Ascending(s: seq<nat>) {
    forall i, j | 0 <= i < j < |s| :: s[i] < s[j]
  }

  predicate IsSlot(k: int, cnt: nat) {
    0 <= k && k % 8 == 0 && k + 8 <= cnt
  }

  /** The slots below the mark `cnt` are divided into free ones, in ascending order, and live ones. */
  ghost predicate Divided(cnt: nat, free: seq<nat>, live: set<nat>) {
    && cnt % 8 == 0
    && Ascending(free)
    && (forall k | k in free :: IsSlot(k, cnt) && k !in live)
    && (forall k | k in live :: IsSlot(k, cnt))
    && (forall k: nat | IsSlot(k, cnt) :: k in live || k in free)
  }

  lemma TakeFirst(cnt: nat, free: seq<nat>, live: set<nat>)
    requires Divided(cnt, free, live) && free != []
    ensures Divided(cnt, free[1..], live + {free[0]})
  {
    assert free == [free[0]] + free[1..];
    assert forall i, j | 0 <= i < j < |free| - 1 :: free[1..][i] == free[i + 1] && free[1..][j] == free[j + 1];
  }

  lemma TakeNew(cnt: nat, live: set<nat>)
    requires Divided(cnt, [], live)
    ensures Divided(cnt + 8, [], live + {cnt})
  {
    forall k: nat | IsSlot(k, cnt + 8)
      ensures k in live + {cnt}
    {
      assert k == cnt || IsSlot(k, cnt);
    }
  }

  lemma GiveBack(cnt: nat, free: seq<nat>, live: set<nat>, i: nat, s: nat)
    requires Divided(cnt, free, live) && s in live && i <= |free|
    requires forall k | 0 <= k < i :: free[k] < s
    requires i < |free| ==> s < free[i]
    ensures Divided(cnt, free[..i] + [s] + free[i..], live - {s})
  {
    var r := free[..i] + [s] + free[i..];
    forall j, k | 0 <= j < k < |r|
      ensures r[j] < r[k]
    {
      assert r[j] == if j < i then free[j] else if j == i then s else free[j - 1];
      assert r[k] == if k < i then free[k] else if k == i then s else free[k - 1];
    }
    assert free == free[..i] + free[i..];
  }

  /** The slot just below the mark is given up: a live one that is freed, or the last free one. */
  lemma LowerMark(cnt: nat, free: seq<nat>, live: set<nat>, s: nat)
    requires Divided(cnt, free, live) && s + 8 == cnt && s in live
    ensures Divided(s, free, live - {s})
  {
    assert forall k | IsSlot(k, cnt) && k != s :: IsSlot(k, s);
  }

  lemma LowerMarkFree(cnt: nat, free: seq<nat>, live: set<nat>)
    requires Divided(cnt, free, live) && free != [] && free[|free| - 1] + 8 == cnt
    ensures Divided(cnt - 8, free[..|free| - 1], live)
  {
    var s, rest := free[|free| - 1], free[..|free| - 1];
    assert free == rest + [s];
    assert forall k | IsSlot(k, cnt) && k != s :: IsSlot(k, s);
    forall k | k in rest
      ensures k in free && k != s
    {
      var i :| 0 <= i < |rest| && rest[i] == k;
      assert free[i] == k && free[i] < free[|free| - 1];
    }
  }

  /** Below a mark that no free slot ends at, the last slot is live. */
  lemma TopIsLive(cnt: nat, free: seq<nat>, live: set<nat>)
    requires Divided(cnt, free, live) && cnt > 0 && (free != [] ==> free[|free| - 1] + 8 != cnt)
    ensures cnt - 8 in live
  {
    assert IsSlot(cnt - 8, cnt);
    assert free != [] ==> free[|free| - 1] in free;
  }

  function Slots(cnt: nat): set<nat> {
    if cnt < 8 then {} else Slots(cnt - 8) + {cnt - 8}
  }

  lemma {:induction false} SlotsCount(cnt: nat)
    requires cnt % 8 == 0
    ensures |Slots(cnt)| == cnt / 8 && forall k: nat :: k in Slots(cnt) <==> IsSlot(k, cnt)
  {
    if cnt >= 8 {
      SlotsCount(cnt - 8);
      forall k: nat
        ensures IsSlot(k, cnt) <==> IsSlot(k, cnt - 8) || k == cnt - 8
      {
        SlotBelow(k, cnt);
      }
    }
  }

  lemma SlotBelow(k: nat, cnt: nat)
    requires cnt % 8 == 0 && cnt >= 8
    ensures IsSlot(k, cnt) <==> IsSlot(k, cnt - 8) || k == cnt - 8
  {
  }

  function Listed(free: seq<nat>): set<nat> {
    set k | k in free
  }

  lemma {:induction false} AscendingCount(free: seq<nat>)
    requires Ascending(free)
    ensures |Listed(free)| == |free|
  {
    if free != [] {
      var n := |free| - 1;
      AscendingCount(free[..n]);
      assert free == free[..n] + [free[n]];
      assert Listed(free) == Listed(free[..n]) + {free[n]};
      assert free[n] !in Listed(free[..n]);
    }
  }

  /** Free and live slots together are all the slots below the mark. */
  lemma DividedCount(cnt: nat, free: seq<nat>, live: set<nat>)
    requires Divided(cnt, free, live)
    ensures |live| + |free| == cnt / 8
  {
    SlotsCount(cnt);
    AscendingCount(free);
    assert Slots(cnt) == live + Listed(free);
    assert live * Listed(free) == {};
  }

  /** Every live slot holds its page. */
  ghost predicate Holds(disk: seq<seq<Byte>>, live: map<nat, seq<Byte>>) {
    forall k | k in live :: k + 8 <= |disk| && Joined(disk, k, 8) == live[k]
  }

  /** Writing one slot leaves the pages of the others alone. */
  lemma {:induction false} HoldsMore(disk: seq<seq<Byte>>, disk': seq<seq<Byte>>, live: map<nat, seq<Byte>>, s: nat, page: seq<Byte>)
    requires Holds(disk, live) && |disk'| == |disk| && s + 8 <= |disk|
    requires s % 8 == 0 && forall k | k in live :: k % 8 == 0 && k != s
    requires forall k | 0 <= k < |disk| && !(s <= k < s + 8) :: disk'[k] == disk[k]
    requires Joined(disk', s, 8) == page
    ensures Holds(disk', live[s := page])
  {
    forall k | k in live
      ensures Joined(disk', k, 8) == live[k]
    {
      JoinedSame(disk, disk', k, 8);
    }
  }

  lemma MinusKeys<K, V>(m: map<K, V>, k: K)
    ensures (m - {k}).Keys == m.Keys - {k}
  {
  }

  lemma PlusKeys<K, V>(m: map<K, V>, k: K, v: V)
    ensures m[k := v].Keys == m.Keys + {k}
  {
  }

  class SwapArea {
    const partition: array<seq<Byte>>
    var cnt: nat
    var freeSwap: seq<nat>
    ghost var live: map<nat, seq<Byte>>

    /** Free and live slots divide what is below the mark; the free list is ascending; the slot just
        below the mark is live; and every live slot holds its page. */
    ghost predicate Valid()
      reads this, partition
    {
      && cnt <= partition.Length
      && Divided(cnt, freeSwap, live.Keys)
      && (cnt > 0 ==> cnt - SLOT_SIZE in live)
      && Holds(partition[..], live)
    }

    constructor (capacity: nat)
      ensures Valid() && live == map[] && partition.Length == capacity && fresh(partition)
    {
      partition := new seq<Byte>[capacity](_ => []);
      cnt, freeSwap, live := 0, [], map[];
    }

    /** Writes a page to the sectors of a slot. */
    method Store(page: seq<Byte>, s: nat) returns (ok: bool)
      requires IsPage(page)
      modifies partition
      ensures ok <==> s + SLOT_SIZE <= partition.Length
      ensures ok ==> Joined(partition[..], s, SLOT_SIZE) == page
      ensures forall k | 0 <= k < partition.Length && !(s <= k < s + SLOT_SIZE) :: partition[k] == old(partition[k])
    {
      var i, j, sector := 0, 0, s;
      while j < PAGE_SIZE
        invariant 0 <= i <= 8 && j == 512 * i && sector == s + i && (i > 0 ==> sector <= partition.Length)
        invariant i > 0 ==> Joined(partition[..], s, i) == page[..j]
        invariant forall k | 0 <= k < partition.Length && !(s <= k < s + i) :: partition[k] == old(partition[k])
      {
        if sector >= partition.Length {
          return false;
        }
        ghost var before := partition[..];
        partition[sector] := page[i * SECTOR_SIZE..i * SECTOR_SIZE + SECTOR_SIZE];
        JoinedSame(before, partition[..], s, i);
        assert page[..j + 512] == page[..j] + page[j..j + 512];
        sector, i, j := sector + 1, i + 1, j + SECTOR_SIZE;
      }
      assert page[..4096] == page;
      ok := true;
    }

    /** Reads a page from the sectors of a slot. */
    method Fetch(s: nat) returns (page: seq<Byte>)
      requires s + SLOT_SIZE <= partition.Length
      ensures page == Joined(partition[..], s, SLOT_SIZE)
    {
      page := [];
      var i, j, sector := 0, 0, s;
      while j < PAGE_SIZE
        invariant 0 <= i <= 8 && j == 512 * i && sector == s + i
        invariant page == Joined(partition[..], s, i)
      {
        page := page + partition[sector];
        sector, i, j := sector + 1, i + 1, j + SECTOR_SIZE;
      }
    }

    /** Stores a page in the first free slot, or in a new one above the mark. */
    method WriteSwap(page: seq<Byte>) returns (r: Outcome)
      requires Valid() && IsPage(page)
      modifies this, partition
      ensures r.Stored? ==> Valid() && r.slot !in old(live) && live == old(live)[r.slot := page]
      ensures r.Stored? && old(freeSwap) != [] ==>
                r.slot == old(freeSwap)[0] && freeSwap == old(freeSwap)[1..] && cnt == old(cnt)
      ensures r.Stored? && old(freeSwap) == [] ==>
                r.slot == old(cnt) && freeSwap == [] && cnt == old(cnt) + SLOT_SIZE
      ensures r.Stored? <==> |old(live.Keys)| < partition.Length / SLOT_SIZE
      ensures r.Overflow? <==> old(freeSwap) == [] && old(cnt) >= partition.Length
      ensures r.OutOfRange? <==> old(freeSwap) == [] && old(cnt) < partition.Length < old(cnt) + SLOT_SIZE
    {
      DividedCount(cnt, freeSwap, live.Keys);
      if freeSwap != [] {
        r := Reuse(page);
      } else if cnt >= partition.Length {
        r := Overflow;
      } else {
        r := Extend(page);
      }
    }

    method Reuse(page: seq<Byte>) returns (r: Outcome)
      requires Valid() && IsPage(page) && freeSwap != []
      modifies this, partition
      ensures Valid() && r == Stored(old(freeSwap)[0]) && r.slot !in old(live) && live == old(live)[r.slot := page]
      ensures freeSwap == old(freeSwap)[1..] && cnt == old(cnt)
    {
      var s := freeSwap[0];
      assert s in freeSwap;
      TakeFirst(cnt, freeSwap, live.Keys);
      freeSwap := freeSwap[1..];
      var ok := Store(page, s);
      assert forall k | k in live :: IsSlot(k, cnt);
      HoldsMore(old(partition[..]), partition[..], live, s, page);
      PlusKeys(live, s, page);
      live := live[s := page];
      r := Stored(s);
    }

    method Extend(page: seq<Byte>) returns (r: Outcome)
      requires Valid() && IsPage(page) && freeSwap == []
      modifies this, partition
      ensures r == if old(cnt) + SLOT_SIZE <= partition.Length then Stored(old(cnt)) else OutOfRange
      ensures r.Stored? ==> Valid() && r.slot !in old(live) && live == old(live)[r.slot := page]
      ensures r.Stored? ==> freeSwap == [] && cnt == old(cnt) + SLOT_SIZE
    {
      var s := cnt;
      TakeNew(cnt, live.Keys);
      assert forall k | k in live :: IsSlot(k, cnt);
      var ok := Store(page, s);
      if !ok {
        return OutOfRange;
      }
      cnt := s + SLOT_SIZE;
      HoldsMore(old(partition[..]), partition[..], live, s, page);
      PlusKeys(live, s, page);
      live := live[s := page];
      r := Stored(s);
    }

    /** Reads the page of a slot, and frees the slot. */
    method ReadSwap(s: nat) returns (page: seq<Byte>)
      requires Valid() && s in live
      modifies this
      ensures Valid() && page == old(live)[s] && live == old(live) - {s}
    {
      page := Fetch(s);
      FreeSlot(s);
    }

    /** Frees a slot. If it is the last one, the mark goes down, past any free slots below it. */
    method FreeSlot(s: nat)
      requires Valid() && s in live
      modifies this
      ensures Valid() && live == old(live) - {s}
    {
      MinusKeys(live, s);
      ghost var keys := live.Keys - {s};
      if s + SLOT_SIZE == cnt {
        LowerMark(cnt, freeSwap, live.Keys, s);
        cnt := cnt - SLOT_SIZE;
        Retreat(keys);
      } else {
        InsertOrdered(s);
      }
      live := live - {s};
    }

    method Retreat(ghost keys: set<nat>)
      requires Divided(cnt, freeSwap, keys)
      modifies this`cnt, this`freeSwap
      ensures Divided(cnt, freeSwap, keys) && cnt <= old(cnt) && (cnt > 0 ==> cnt - SLOT_SIZE in keys)
    {
      while freeSwap != [] && freeSwap[|freeSwap| - 1] + SLOT_SIZE == cnt
        invariant cnt <= old(cnt) && Divided(cnt, freeSwap, keys)
        decreases |freeSwap|
      {
        LowerMarkFree(cnt, freeSwap, keys);
        freeSwap := freeSwap[..|freeSwap| - 1];
        cnt := cnt - SLOT_SIZE;
      }
      if cnt > 0 {
        TopIsLive(cnt, freeSwap, keys);
      }
    }

    method InsertOrdered(s: nat)
      requires Divided(cnt, freeSwap, live.Keys) && s in live
      modifies this`freeSwap
      ensures Divided(cnt, freeSwap, live.Keys - {s})
    {
      var i := 0;
      while i < |freeSwap| && !(s < freeSwap[i])
        invariant 0 <= i <= |freeSwap|
        invariant forall k | 0 <= k < i :: freeSwap[k] < s
      {
        assert freeSwap[i] in freeSwap;
        i := i + 1;
      }
      GiveBack(cnt, freeSwap, live.Keys, i, s);
      freeSwap := freeSwap[..i] + [s] + freeSwap[i..];
    }
  }

  // ---------- Whole runs ----------

  /** Writing pages until the partition is full ends with the clean overflow panic exactly if its
      size in sectors is a multiple of the slot size; otherwise the last write runs off its end. */
  method FillUp(area: SwapArea, page: seq<Byte>) returns (last: Outcome)
    requires area.Valid() && IsPage(page)
    modifies area, area.partition
    ensures last == if area.partition.Length % SLOT_SIZE == 0 then Overflow else OutOfRange
    decreases area.partition.Length - area.cnt, |area.freeSwap|
  {
    last := area.WriteSwap(page);
    if last.Stored? {
      last := FillUp(area, page);
    }
  }

  /** A program's use of swap; a page is named by the place in the program where it was saved. */
  datatype Op = Save(page: seq<Byte>) | Load(h: nat) | Drop(h: nat)

  /** Page `h` is saved before step `n` and has not been loaded or dropped since. */
  ghost predicate Open(ops: seq<Op>, h: nat, n: nat) {
    h < n <= |ops| && ops[h].Save? && forall k | h < k < n :: ops[k] != Load(h) && ops[k] != Drop(h)
  }

  /** Step `n` saves a whole page, or names a page that it may still name. */
  ghost predicate ProperAt(ops: seq<Op>, n: nat)
    requires n < |ops|
  {
    if ops[n].Save? then IsPage(ops[n].page) else Open(ops, ops[n].h, n)
  }

  ghost predicate Proper(ops: seq<Op>) {
    forall n | 0 <= n < |ops| :: ProperAt(ops, n)
  }

  /** The pages that the first `n` steps should have loaded. */
  ghost function Loaded(ops: seq<Op>, n: nat): seq<seq<Byte>>
    requires Proper(ops) && n <= |ops|
  {
    if n == 0 then []
    else
      assert ProperAt(ops, n - 1);
      Loaded(ops, n - 1) + if ops[n - 1].Load? then [ops[ops[n - 1].h].page] else []
  }

  /** Which slot each open page is in. */
  ghost predicate Tracks(slots: map<nat, nat>, live: map<nat, seq<Byte>>, ops: seq<Op>, n: nat)
    requires n <= |ops|
  {
    && (forall h: nat :: h in slots <==> Open(ops, h, n))
    && (forall h | h in slots :: slots[h] in live && ops[h].Save? && live[slots[h]] == ops[h].page)
    && (forall g, h | g in slots && h in slots && g != h :: slots[g] != slots[h])
  }

  lemma OpenAfter(ops: seq<Op>, n: nat)
    requires Proper(ops) && n < |ops|
    ensures forall h: nat :: Open(ops, h, n + 1) <==>
              if ops[n].Save? then h == n || Open(ops, h, n) else Open(ops, h, n) && h != ops[n].h
  {
    assert ProperAt(ops, n);
    forall h: nat
      ensures Open(ops, h, n + 1) <==>
              if ops[n].Save? then h == n || Open(ops, h, n) else Open(ops, h, n) && h != ops[n].h
    {
      if h < n {
        assert Open(ops, h, n + 1) <==> Open(ops, h, n) && ops[n] != Load(h) && ops[n] != Drop(h);
      }
    }
  }

  lemma TracksSaved(slots: map<nat, nat>, live: map<nat, seq<Byte>>, ops: seq<Op>, n: nat, s: nat)
    requires Proper(ops) && n < |ops| && ops[n].Save? && Tracks(slots, live, ops, n) && s !in live
    ensures Tracks(slots[n := s], live[s := ops[n].page], ops, n + 1)
  {
    OpenAfter(ops, n);
  }

  lemma TracksGone(slots: map<nat, nat>, live: map<nat, seq<Byte>>, ops: seq<Op>, n: nat)
    requires Proper(ops) && n < |ops| && !ops[n].Save? && Tracks(slots, live, ops, n)
    ensures ops[n].h in slots && slots[ops[n].h] in live && ops[ops[n].h].Save?
    ensures live[slots[ops[n].h]] == ops[ops[n].h].page
    ensures Tracks(slots - {ops[n].h}, live - {slots[ops[n].h]}, ops, n + 1)
  {
    assert ProperAt(ops, n);
    OpenAfter(ops, n);
  }

  /** The number of pages that are open before step `n` of a proper program. */
  function OpenCount(ops: seq<Op>, n: nat): int
    requires n <= |ops|
  {
    if n == 0 then 0 else OpenCount(ops, n - 1) + if ops[n - 1].Save? then 1 else -1
  }

  /** No page is saved when all slots of the partition are in use. */
  ghost predicate Fits(ops: seq<Op>, n: nat, used: nat, slots: nat)
    requires n <= |ops|
  {
    forall k | 0 <= k < n && ops[k].Save? :: used + OpenCount(ops, k) < slots
  }

  /** The first `n` steps have been taken, with `used` slots in use by others. */
  ghost predicate Reached(slots: map<nat, nat>, live: map<nat, seq<Byte>>, ops: seq<Op>, n: nat, used: nat)
    requires n <= |ops|
  {
    Tracks(slots, live, ops, n) && |live.Keys| == used + OpenCount(ops, n)
  }

  lemma SaveReaches(slots: map<nat, nat>, live: map<nat, seq<Byte>>, ops: seq<Op>, n: nat, used: nat, s: nat)
    requires Proper(ops) && n < |ops| && ops[n].Save? && Reached(slots, live, ops, n, used) && s !in live
    ensures Reached(slots[n := s], live[s := ops[n].page], ops, n + 1, used)
  {
    TracksSaved(slots, live, ops, n, s);
    PlusKeys(live, s, ops[n].page);
  }

  lemma GoneReaches(slots: map<nat, nat>, live: map<nat, seq<Byte>>, ops: seq<Op>, n: nat, used: nat)
    requires Proper(ops) && n < |ops| && !ops[n].Save? && Reached(slots, live, ops, n, used)
    ensures ops[n].h in slots && slots[ops[n].h] in live && ops[ops[n].h].Save?
    ensures live[slots[ops[n].h]] == ops[ops[n].h].page
    ensures Reached(slots - {ops[n].h}, live - {slots[ops[n].h]}, ops, n + 1, used)
  {
    TracksGone(slots, live, ops, n);
    MinusKeys(live, slots[ops[n].h]);
  }

  /** One step of a program; a save fails exactly if all slots of the partition are in use. */
  method Perform(area: SwapArea, ops: seq<Op>, n: nat, slots: map<nat, nat>, ghost used: nat)
    returns (ok: bool, after: map<nat, nat>, loaded: seq<seq<Byte>>)
    requires area.Valid() && Proper(ops) && n < |ops| && Reached(slots, area.live, ops, n, used)
    modifies area, area.partition
    ensures ok <==> (ops[n].Save? ==> used + OpenCount(ops, n) < area.partition.Length / SLOT_SIZE)
    ensures ok ==> area.Valid() && Reached(after, area.live, ops, n + 1, used)
    ensures ok ==> Loaded(ops, n + 1) == Loaded(ops, n) + loaded
  {
    assert ProperAt(ops, n);
    ok, after, loaded := true, slots, [];
    match ops[n] {
      case Save(page) =>
        ghost var before := area.live;
        var r := area.WriteSwap(page);
        ok := r.Stored?;
        if ok {
          SaveReaches(slots, before, ops, n, used, r.slot);
          after := slots[n := r.slot];
        }
      case Load(h) =>
        GoneReaches(slots, area.live, ops, n, used);
        var page := area.ReadSwap(slots[h]);
        loaded := [page];
        after := slots - {h};
      case Drop(h) =>
        GoneReaches(slots, area.live, ops, n, used);
        area.FreeSlot(slots[h]);
        after := slots - {h};
    }
  }

  /** Every proper run goes through exactly if it never saves a page while all slots are in use, and
      then every load gives the page saved. */
  method Session(area: SwapArea, ops: seq<Op>) returns (pages: seq<seq<Byte>>, ok: bool)
    requires area.Valid() && Proper(ops)
    modifies area, area.partition
    ensures ok <==> Fits(ops, |ops|, |old(area.live.Keys)|, area.partition.Length / SLOT_SIZE)
    ensures ok ==> area.Valid() && pages == Loaded(ops, |ops|)
  {
    pages := [];
    var slots: map<nat, nat> := map[];
    ghost var used := |area.live.Keys|;
    for n := 0 to |ops|
      invariant area.Valid() && pages == Loaded(ops, n) && Reached(slots, area.live, ops, n, used)
      invariant Fits(ops, n, used, area.partition.Length / SLOT_SIZE)
    {
      var loaded;
      ok, slots, loaded := Perform(area, ops, n, slots, used);
      if !ok {
        return pages, false;
      }
      pages := pages + loaded;
    }
    ok := true;
  }
}
