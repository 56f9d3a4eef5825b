/** The buffer cache of filesys/buf_cache.c as it is: a list of entries, a clock hand and a disk that
    its operations change in place. Each is proved to take the step that module CacheSteps gives. */
module BufferCache {
  import opened Common
  import opened ClockSweep
  import opened CacheSteps
  import Steps = CacheSteps

  class Cache {
    const inodes: seq<Inode>
    var disk: seq<Sector>
    var entries: seq<Entry>
    var entryCnt: nat
    var hand: Option<nat>

    ghost function State(): Steps.State
      reads this
    {
      Steps.State(disk, entries, hand)
    }

    ghost predicate Valid()
      reads this
    {
      Sound(inodes, State()) && entryCnt == |entries|
    }

    constructor (inodes: seq<Inode>, disk: seq<Sector>)
      requires Placed(inodes, |disk|)
      ensures Valid() && this.inodes == inodes && State() == Empty(disk)
    {
      this.inodes, this.disk := inodes, disk;
      entries, entryCnt, hand := [], 0, None;
    }

    /** Stops within two sweeps, and changes only marks of use and the hand. */
    method SelectVictim() returns (v: nat)
      requires Valid() && |entries| > 0
      modifies this`entries, this`hand
      ensures State() == Selected(old(State())) && hand == Some(v)
    {
      ghost var first := if hand.Some? then hand.value else 0;
      ghost var marks := MarksOf(entries);
      ghost var steps: nat := 2 * |entries|;
      ghost var now := marks;
      SameMarks(entries);
      while true
        invariant |entries| == |now| == |old(entries)| && (hand.Some? ==> hand.value < |entries|)
        invariant now == MarksOf(entries) && entries == WithMarks(old(entries), now)
        invariant var h := if hand.Some? then hand.value else 0;
                  && Sweep(now, h, steps) == Clock(marks, first)
                  && Pickable(now[first]) && StepsTo(now, h, first) <= steps
        decreases steps
      {
        if hand.None? {
          hand := Some(0);
        }
        v := hand.value;
        if Stops(entries[v].marks) {
          break;
        }
        Nearer(now, v, first);
        SweepOn(now, v, steps);
        Pass(v);
        Remarked(old(entries), now, Passed(now, v));
        now := Passed(now, v);
        hand := Some(Next(|entries|, v));
        steps := steps - 1;
      }
    }

    /** An entry in use that could be taken loses its mark. */
    method Pass(v: nat)
      requires v < |entries| && !Stops(entries[v].marks)
      modifies this`entries
      ensures MarksOf(entries) == Passed(old(MarksOf(entries)), v)
      ensures |entries| == |old(entries)| && entries == WithMarks(old(entries), MarksOf(entries))
    {
      if Pickable(entries[v].marks) && entries[v].marks.accessed {
        entries := entries[v := Unmarked(entries[v])];
      }
    }

    method LookUp(key: Key) returns (r: Option<nat>)
      ensures r == Steps.LookUp(entries, key, 0)
    {
      for i := 0 to |entries|
        invariant Steps.LookUp(entries, key, i) == Steps.LookUp(entries, key, 0)
      {
        if entries[i].key == key {
          return Some(i);
        }
      }
      return None;
    }

    method WriteBehind(i: nat)
      requires KeysInRange(inodes, State()) && i < |entries|
      modifies this`disk, this`entries
      ensures State() == Steps.WriteBehind(inodes, old(State()), i)
    {
      var sector := ByteToSector(inodes[entries[i].key.inode], entries[i].key.offset);
      assert sector.value == SectorFor(inodes, entries[i].key);
      disk := disk[sector.value := entries[i].data];
      entries := entries[i := Unmarked(entries[i]).(dirty := false)];
    }

    method WriteBehindAll()
      requires Valid()
      modifies this`disk, this`entries
      ensures Valid() && State() == BehindAll(inodes, old(State()), 0)
      ensures AllClean(old(State()), State())
    {
      for i := 0 to |entries|
        invariant KeysInRange(inodes, State()) && |entries| == |old(entries)|
        invariant BehindAll(inodes, State(), i) == BehindAll(inodes, old(State()), 0)
      {
        if entries[i].dirty {
          WriteBehind(i);
        } else {
          entries := entries[i := Unmarked(entries[i])];
        }
      }
      BehindAllSound(inodes, old(State()), 0);
      BehindAllCleans(inodes, old(State()), 0);
    }

    method WriteBehindInode(inode: nat)
      requires Valid()
      modifies this`disk, this`entries
      ensures Valid() && State() == BehindInode(inodes, old(State()), inode, 0)
      ensures InodeClean(inodes, old(State()), State(), inode)
    {
      for i := 0 to |entries|
        invariant KeysInRange(inodes, State()) && |entries| == |old(entries)|
        invariant BehindInode(inodes, State(), inode, i) == BehindInode(inodes, old(State()), inode, 0)
      {
        if entries[i].key.inode == inode && entries[i].dirty {
          WriteBehind(i);
        }
      }
      BehindInodeSound(inodes, old(State()), inode, 0);
      BehindInodeCleans(inodes, old(State()), inode, 0);
    }

    method GetEntry(key: Key, memory: bool) returns (r: Option<nat>)
      requires Valid() && key.inode < |inodes|
      modifies this
      ensures (State(), r) == Steps.GetEntry(inodes, old(State()), key, memory)
      ensures entryCnt == |entries|
    {
      var sector := ByteToSector(inodes[key.inode], key.offset);
      if sector.None? {
        return None;
      }
      assert sector.value == SectorFor(inodes, key);
      if entryCnt < CACHE_SIZE {
        if !memory {
          return None;
        }
        entryCnt := entryCnt + 1;
        entries := [Fresh(key, disk[sector.value])] + entries;
        hand := if hand.Some? then Some(hand.value + 1) else None;
        return Some(0);
      }
      SelectedSound(inodes, State());
      var v := SelectVictim();
      if entries[v].dirty {
        WriteBehind(v);
      }
      entries := entries[v := Fresh(key, disk[sector.value])];
      return Some(v);
    }

    method Find(key: Key, memory: bool) returns (r: Option<nat>)
      requires Valid() && key.inode < |inodes|
      modifies this
      ensures Valid() && (State(), r) == Steps.Find(inodes, old(State()), key, memory)
    {
      FindSound(inodes, State(), key, memory);
      r := LookUp(key);
      if r.None? {
        r := GetEntry(key, memory);
      }
    }

    /** False if the calling thread exits instead. */
    method Write(key: Key, bytes: seq<Byte>, memory: bool) returns (ok: bool)
      requires Valid() && key.inode < |inodes| && key.offset % SECTOR_SIZE + |bytes| <= SECTOR_SIZE
      modifies this
      ensures Valid() && (State(), ok) == Steps.Write(inodes, old(State()), key, bytes, memory)
    {
      FindSound(inodes, State(), key, memory);
      var i := Find(key, memory);
      if i.None? {
        return false;
      }
      var e := entries[i.value];
      entries := entries[i.value := Used(e).(data := Splice(e.data, key.offset % SECTOR_SIZE, bytes), dirty := true)];
      return true;
    }

    method Fetch(key: Key, size: nat, memory: bool) returns (r: Option<seq<Byte>>)
      requires Valid() && key.inode < |inodes| && key.offset % SECTOR_SIZE + size <= SECTOR_SIZE
      modifies this
      ensures Valid() && (State(), r) == Steps.Fetch(inodes, old(State()), key, size, memory)
    {
      FindSound(inodes, State(), key, memory);
      var i := Find(key, memory);
      if i.None? {
        return None;
      }
      var ofs := key.offset % SECTOR_SIZE;
      r := Some(entries[i.value].data[ofs..ofs + size]);
      entries := entries[i.value := Used(entries[i.value])];
    }

    /** None if the calling thread exits instead. */
    method Read(key: Key, size: nat, memory: bool, ahead: bool) returns (r: Option<seq<Byte>>)
      requires Valid() && key.inode < |inodes| && key.offset % SECTOR_SIZE + size <= SECTOR_SIZE
      modifies this
      ensures Valid() && (State(), r) == Steps.Read(inodes, old(State()), key, size, memory, ahead)
    {
      FindSound(inodes, State(), key, memory);
      r := Fetch(key, size, memory);
      if r.Some? {
        var next := Find(Key(key.inode, key.offset + SECTOR_SIZE), ahead);
      }
    }
  }

  lemma SameMarks(entries: seq<Entry>)
    ensures WithMarks(entries, MarksOf(entries)) == entries
  {
  }

  lemma Remarked(entries: seq<Entry>, a: seq<Marks>, b: seq<Marks>)
    requires |entries| == |a| == |b|
    ensures WithMarks(WithMarks(entries, a), b) == WithMarks(entries, b)
  {
  }

  lemma SweepOn(marks: seq<Marks>, hand: nat, steps: nat)
    requires hand < |marks| && steps > 0 && !Stops(marks[hand])
    ensures Sweep(marks, hand, steps) == Sweep(Passed(marks, hand), Next(|marks|, hand), steps - 1)
  {
  }
}
