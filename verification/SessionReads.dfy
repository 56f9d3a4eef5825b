/** Reads through the buffer cache without a restart between: byte ranges that share a sector, each
    accessed always as a whole, are read wrongly only when an entry has been evicted. */
module SessionReads {
  import opened Common
  import opened ClockSweep
  import opened CacheSteps

  /** What is read ahead is at the place of one of the ranges, too. */
  ghost predicate ReadsAheadWithin(inodes: seq<Inode>, ranges: iset<Range>) {
    forall r | r in ranges && InRange(inodes, Ahead(r.key)) :: HasKey(ranges, Ahead(r.key))
  }

  function Ahead(key: Key): Key {
    Key(key.inode, key.offset + SECTOR_SIZE)
  }

  ghost predicate HasKey(ranges: iset<Range>, key: Key) {
    exists r :: r in ranges && r.key == key
  }

  /** There are at most as many ranges as the cache has entries. */
  ghost predicate Fit(ranges: iset<Range>) {
    exists ks: seq<Key> :: |ks| <= CACHE_SIZE && AllIn(ranges, ks)
  }

  ghost predicate AllIn(ranges: iset<Range>, ks: seq<Key>) {
    forall r | r in ranges :: r.key in ks
  }

  /** Every read of every run on `n` sectors, with accesses to `ranges` only, is right. */
  ghost predicate EverySessionRight(inodes: seq<Inode>, ranges: iset<Range>, n: nat)
    requires Placed(inodes, n)
  {
    forall disk: seq<Sector>, ops | |disk| == n && Over(inodes, ops) && RangesFrom(ranges, ops) ::
      AllRight(inodes, Empty(disk), disk, ops)
  }

  // ---------- Ranges that fit ----------

  /** The two sectors have the same bytes in a range. */
  ghost predicate SameIn(x: Sector, y: Sector, r: Range)
    requires r.key.offset % SECTOR_SIZE + r.size <= SECTOR_SIZE
  {
    forall i | r.key.offset % SECTOR_SIZE <= i < r.key.offset % SECTOR_SIZE + r.size :: x[i] == y[i]
  }

  /** The logical contents of the sector of a range. */
  function Sought(inodes: seq<Inode>, logical: seq<Sector>, r: Range): Sector
    requires Placed(inodes, |logical|) && InRange(inodes, r.key)
  {
    logical[SectorFor(inodes, r.key)]
  }

  /** An entry has the bytes of its own range as they should be, and those of every range that has no
      entry. */
  ghost predicate EntryOk(inodes: seq<Inode>, s: State, logical: seq<Sector>, e: Entry, r: Range)
    requires Placed(inodes, |logical|) && InRange(inodes, r.key) && InRange(inodes, e.key)
    requires r.key.offset % SECTOR_SIZE + r.size <= SECTOR_SIZE
  {
    && (e.key == r.key ==> SameIn(e.data, Sought(inodes, logical, r), r))
    && (!Resident(s, r.key) && SectorFor(inodes, e.key) == SectorFor(inodes, r.key) ==>
          SameIn(e.data, Sought(inodes, logical, r), r))
  }

  ghost predicate Own(inodes: seq<Inode>, ranges: iset<Range>, s: State, logical: seq<Sector>) {
    && Sound(inodes, s) && |logical| == |s.disk| && Apart(inodes, ranges) && OneEntryPerKey(s.entries)
    && (forall i | 0 <= i < |s.entries| :: HasKey(ranges, s.entries[i].key))
    && (forall i, r | 0 <= i < |s.entries| && r in ranges :: EntryOk(inodes, s, logical, s.entries[i], r))
    && (forall r | r in ranges && !Resident(s, r.key) :: SameIn(s.disk[SectorFor(inodes, r.key)], Sought(inodes, logical, r), r))
  }

  lemma {:induction false} LookUpSame(a: seq<Entry>, b: seq<Entry>, key: Key, i: nat)
    requires |a| == |b| && forall k | 0 <= k < |a| :: a[k].key == b[k].key
    ensures LookUp(a, key, i) == LookUp(b, key, i)
    decreases |a| - i
  {
    if i < |a| {
      LookUpSame(a, b, key, i + 1);
    }
  }

  /** Marks and whether entries are dirty do not matter. */
  lemma RemarkedOwn(inodes: seq<Inode>, ranges: iset<Range>, s: State, t: State, logical: seq<Sector>)
    requires Own(inodes, ranges, s, logical) && Sound(inodes, t) && t.disk == s.disk && |t.entries| == |s.entries|
    requires forall i | 0 <= i < |s.entries| :: t.entries[i].key == s.entries[i].key && t.entries[i].data == s.entries[i].data
    ensures Own(inodes, ranges, t, logical)
  {
  }

  lemma WriteBehindOwn(inodes: seq<Inode>, ranges: iset<Range>, s: State, logical: seq<Sector>, i: nat)
    requires Own(inodes, ranges, s, logical) && i < |s.entries|
    ensures Own(inodes, ranges, WriteBehind(inodes, s, i), logical)
  {
    var t := WriteBehind(inodes, s, i);
    forall r | r in ranges
      ensures Resident(t, r.key) == Resident(s, r.key)
    {
      LookUpSame(s.entries, t.entries, r.key, 0);
    }
    forall k, r | 0 <= k < |t.entries| && r in ranges
      ensures EntryOk(inodes, t, logical, t.entries[k], r)
    {
      assert EntryOk(inodes, s, logical, s.entries[k], r);
    }
    forall r | r in ranges && !Resident(t, r.key)
      ensures SameIn(t.disk[SectorFor(inodes, r.key)], Sought(inodes, logical, r), r)
    {
      assert EntryOk(inodes, s, logical, s.entries[i], r);
    }
  }

  lemma {:induction false} BehindAllOwn(inodes: seq<Inode>, ranges: iset<Range>, s: State, logical: seq<Sector>, i: nat)
    requires Own(inodes, ranges, s, logical)
    ensures Own(inodes, ranges, BehindAll(inodes, s, i), logical)
    decreases |s.entries| - i
  {
    if i < |s.entries| {
      if s.entries[i].dirty {
        WriteBehindOwn(inodes, ranges, s, logical, i);
      } else {
        RemarkedOwn(inodes, ranges, s, BehindOne(inodes, s, i), logical);
      }
      BehindAllOwn(inodes, ranges, BehindOne(inodes, s, i), logical, i + 1);
    }
  }

  lemma {:induction false} BehindInodeOwn(inodes: seq<Inode>, ranges: iset<Range>, s: State, logical: seq<Sector>,
                                          inode: nat, i: nat)
    requires Own(inodes, ranges, s, logical)
    ensures Own(inodes, ranges, BehindInode(inodes, s, inode, i), logical)
    decreases |s.entries| - i
  {
    if i < |s.entries| {
      if s.entries[i].key.inode == inode && s.entries[i].dirty {
        WriteBehindOwn(inodes, ranges, s, logical, i);
        BehindInodeOwn(inodes, ranges, WriteBehind(inodes, s, i), logical, inode, i + 1);
      } else {
        BehindInodeOwn(inodes, ranges, s, logical, inode, i + 1);
      }
    }
  }

  lemma {:induction false} LookUpPushed(entries: seq<Entry>, e: Entry, key: Key)
    ensures LookUp([e] + entries, key, 0).Some? <==> key == e.key || LookUp(entries, key, 0).Some?
  {
    var after := [e] + entries;
    var r := LookUp(entries, key, 0);
    if r.Some? {
      assert after[r.value + 1].key == key;
    }
  }

  lemma PushedOwn(inodes: seq<Inode>, ranges: iset<Range>, s: State, logical: seq<Sector>, key: Key)
    requires Own(inodes, ranges, s, logical) && HasKey(ranges, key) && InRange(inodes, key)
    requires !Resident(s, key) && |s.entries| < CACHE_SIZE
    ensures Own(inodes, ranges, Pushed(s, Fresh(key, s.disk[SectorFor(inodes, key)])), logical)
  {
    var e := Fresh(key, s.disk[SectorFor(inodes, key)]);
    var t := Pushed(s, e);
    forall r | r in ranges
      ensures Resident(t, r.key) <==> r.key == key || Resident(s, r.key)
    {
      LookUpPushed(s.entries, e, r.key);
    }
    forall i, r | 0 <= i < |t.entries| && r in ranges
      ensures EntryOk(inodes, t, logical, t.entries[i], r)
    {
      if i > 0 {
        assert EntryOk(inodes, s, logical, s.entries[i - 1], r);
      }
    }
  }

  lemma {:induction false} Pigeonhole<T>(a: seq<T>, b: seq<T>)
    requires Distinct(a) && forall i | 0 <= i < |a| :: a[i] in b
    ensures |a| <= |b|
    decreases |a|
  {
    if a != [] {
      var m := |a| - 1;
      assert a[m] in b;
      var j :| 0 <= j < |b| && b[j] == a[m];
      forall i | 0 <= i < m
        ensures a[..m][i] in Without(b, j)
      {
        assert a[i] in b;
        var k :| 0 <= k < |b| && b[k] == a[i];
        assert Without(b, j)[if k < j then k else k - 1] == a[i];
      }
      Pigeonhole(a[..m], Without(b, j));
    }
  }

  /** There is room for one more entry. */
  lemma {:induction false} RoomForKey(ranges: iset<Range>, entries: seq<Entry>, key: Key, ks: seq<Key>)
    requires AllIn(ranges, ks) && OneEntryPerKey(entries) && HasKey(ranges, key) && LookUp(entries, key, 0).None?
    requires forall i | 0 <= i < |entries| :: HasKey(ranges, entries[i].key)
    ensures |entries| < |ks|
  {
    var keys := seq(|entries|, i requires 0 <= i < |entries| => entries[i].key);
    Pigeonhole(keys + [key], ks);
  }

  /** Finding or making an entry evicts none. */
  lemma FindOwn(inodes: seq<Inode>, ranges: iset<Range>, s: State, logical: seq<Sector>, key: Key, memory: bool,
                ks: seq<Key>)
    requires Own(inodes, ranges, s, logical) && AllIn(ranges, ks) && |ks| <= CACHE_SIZE
    requires key.inode < |inodes| && (InRange(inodes, key) ==> HasKey(ranges, key))
    ensures var (t, i) := Find(inodes, s, key, memory);
            && Own(inodes, ranges, t, logical)
            && (i.Some? ==> i.value < |t.entries| && t.entries[i.value].key == key && InRange(inodes, key))
            && (i.None? ==> t == s)
  {
    if !Resident(s, key) && InRange(inodes, key) {
      RoomForKey(ranges, s.entries, key, ks);
      PushedOwn(inodes, ranges, s, logical, key);
    }
  }

  lemma UsedOwn(inodes: seq<Inode>, ranges: iset<Range>, s: State, logical: seq<Sector>, i: nat)
    requires Own(inodes, ranges, s, logical) && i < |s.entries|
    ensures Own(inodes, ranges, s.(entries := s.entries[i := Used(s.entries[i])]), logical)
  {
    RemarkedOwn(inodes, ranges, s, s.(entries := s.entries[i := Used(s.entries[i])]), logical);
  }

  lemma FetchOwn(inodes: seq<Inode>, ranges: iset<Range>, s: State, logical: seq<Sector>, r: Range, memory: bool,
                 ks: seq<Key>)
    requires Own(inodes, ranges, s, logical) && AllIn(ranges, ks) && |ks| <= CACHE_SIZE && r in ranges
    ensures var (t, reply) := Fetch(inodes, s, r.key, r.size, memory);
            && Own(inodes, ranges, t, logical)
            && (reply.Some? ==> reply.value == Held(inodes, logical, r.key, r.size))
  {
    FindOwn(inodes, ranges, s, logical, r.key, memory, ks);
    var (t, i) := Find(inodes, s, r.key, memory);
    if i.Some? {
      assert EntryOk(inodes, t, logical, t.entries[i.value], r);
      UsedOwn(inodes, ranges, t, logical, i.value);
    }
  }

  lemma ReadOwn(inodes: seq<Inode>, ranges: iset<Range>, s: State, logical: seq<Sector>, r: Range, memory: bool,
                ahead: bool, ks: seq<Key>)
    requires Own(inodes, ranges, s, logical) && AllIn(ranges, ks) && |ks| <= CACHE_SIZE && r in ranges
    requires ReadsAheadWithin(inodes, ranges)
    ensures var (t, reply) := Read(inodes, s, r.key, r.size, memory, ahead);
            && Own(inodes, ranges, t, logical)
            && (reply.Some? ==> reply.value == Held(inodes, logical, r.key, r.size))
  {
    FetchOwn(inodes, ranges, s, logical, r, memory, ks);
    FetchSound(inodes, s, r.key, r.size, memory);
    var t := Fetch(inodes, s, r.key, r.size, memory).0;
    FindOwn(inodes, ranges, t, logical, Ahead(r.key), ahead, ks);
  }

  lemma StoredOwn(inodes: seq<Inode>, ranges: iset<Range>, s: State, logical: seq<Sector>, i: nat, r: Range,
                  bytes: seq<Byte>)
    requires Own(inodes, ranges, s, logical) && i < |s.entries| && r in ranges && s.entries[i].key == r.key && |bytes| == r.size
    ensures Own(inodes, ranges, s.(entries := s.entries[i := Stored(s.entries[i], bytes)]),
                Written(inodes, logical, r.key, bytes))
  {
    var t := s.(entries := s.entries[i := Stored(s.entries[i], bytes)]);
    var after := Written(inodes, logical, r.key, bytes);
    assert Resident(s, r.key);
    forall q | q in ranges
      ensures Resident(t, q.key) == Resident(s, q.key)
    {
      LookUpSame(s.entries, t.entries, q.key, 0);
    }
    forall k, q | 0 <= k < |t.entries| && q in ranges
      ensures EntryOk(inodes, t, after, t.entries[k], q)
    {
      StoredEntryOk(inodes, ranges, s, t, logical, i, r, bytes, k, q);
    }
    forall q | q in ranges && !Resident(t, q.key)
      ensures SameIn(t.disk[SectorFor(inodes, q.key)], Sought(inodes, after, q), q)
    {
      SplicedSame(inodes, t.disk[SectorFor(inodes, q.key)], logical, r, q, bytes);
    }
  }

  lemma StoredEntryOk(inodes: seq<Inode>, ranges: iset<Range>, s: State, t: State, logical: seq<Sector>, i: nat, r: Range,
                      bytes: seq<Byte>, k: nat, q: Range)
    requires Own(inodes, ranges, s, logical) && i < |s.entries| && r in ranges && s.entries[i].key == r.key && |bytes| == r.size
    requires t == s.(entries := s.entries[i := Stored(s.entries[i], bytes)]) && k < |s.entries| && q in ranges
    requires Resident(t, q.key) == Resident(s, q.key) && Resident(s, r.key)
    ensures EntryOk(inodes, t, Written(inodes, logical, r.key, bytes), t.entries[k], q)
  {
  }

  /** What a write to the range `r` does to the bytes of the range `q`. */
  lemma SplicedSame(inodes: seq<Inode>, data: Sector, logical: seq<Sector>, r: Range, q: Range, bytes: seq<Byte>)
    requires Placed(inodes, |logical|) && Apart(inodes, iset{r, q}) && |bytes| == r.size
    ensures q != r ==> SameIn(Sought(inodes, Written(inodes, logical, r.key, bytes), q), Sought(inodes, logical, q), q)
    ensures SectorFor(inodes, q.key) == SectorFor(inodes, r.key) && q != r ==>
              SameIn(Splice(data, r.key.offset % SECTOR_SIZE, bytes), data, q)
    ensures SameIn(Splice(data, r.key.offset % SECTOR_SIZE, bytes), Sought(inodes, Written(inodes, logical, r.key, bytes), r), r)
  {
  }

  lemma WriteOwn(inodes: seq<Inode>, ranges: iset<Range>, s: State, logical: seq<Sector>, r: Range, bytes: seq<Byte>,
                 memory: bool, ks: seq<Key>)
    requires Own(inodes, ranges, s, logical) && AllIn(ranges, ks) && |ks| <= CACHE_SIZE && r in ranges && |bytes| == r.size
    ensures var (t, ok) := Write(inodes, s, r.key, bytes, memory);
            Own(inodes, ranges, t, if ok then Written(inodes, logical, r.key, bytes) else logical)
  {
    FindOwn(inodes, ranges, s, logical, r.key, memory, ks);
    var (t, i) := Find(inodes, s, r.key, memory);
    if i.Some? {
      StoredOwn(inodes, ranges, t, logical, i.value, r, bytes);
    }
  }

  lemma StepOwn(inodes: seq<Inode>, ranges: iset<Range>, s: State, logical: seq<Sector>, op: Op, ks: seq<Key>)
    requires Own(inodes, ranges, s, logical) && AllIn(ranges, ks) && |ks| <= CACHE_SIZE && Proper(inodes, op)
    requires ReadsAheadWithin(inodes, ranges) && RangesFrom(ranges, [op])
    ensures var (t, reply) := Step(inodes, s, op);
            Own(inodes, ranges, t, Uncached(inodes, logical, op, reply.Some?)) && Right(inodes, logical, op, reply)
  {
    assert [op][0] == op;
    match op
    case ReadOp(key, size, memory, ahead) => ReadOwn(inodes, ranges, s, logical, Range(key, size), memory, ahead, ks);
    case WriteOp(key, bytes, memory) => WriteOwn(inodes, ranges, s, logical, Range(key, |bytes|), bytes, memory, ks);
    case BehindAllOp => BehindAllOwn(inodes, ranges, s, logical, 0);
    case BehindInodeOp(inode) => BehindInodeOwn(inodes, ranges, s, logical, inode, 0);
  }

  /** As long as no entry is evicted, every read is right. */
  lemma {:induction false} OwnRun(inodes: seq<Inode>, ranges: iset<Range>, s: State, logical: seq<Sector>,
                                  ops: seq<Op>, ks: seq<Key>)
    requires Own(inodes, ranges, s, logical) && AllIn(ranges, ks) && |ks| <= CACHE_SIZE && ReadsAheadWithin(inodes, ranges)
    requires Over(inodes, ops) && RangesFrom(ranges, ops)
    ensures AllRight(inodes, s, logical, ops)
    decreases |ops|
  {
    if ops != [] {
      assert RangesFrom(ranges, [ops[0]]);
      StepOwn(inodes, ranges, s, logical, ops[0], ks);
      var (t, reply) := Step(inodes, s, ops[0]);
      OwnRun(inodes, ranges, t, Uncached(inodes, logical, ops[0], reply.Some?), ops[1..], ks);
    }
  }

  // ---------- Ranges that do not fit ----------

  /** A wrong read after an operation is a wrong read. */
  lemma {:induction false} WrongLater(inodes: seq<Inode>, s: State, logical: seq<Sector>, op: Op, ops: seq<Op>)
    requires Sound(inodes, s) && |logical| == |s.disk| && Proper(inodes, op) && Over(inodes, ops)
    requires var (t, reply) := Step(inodes, s, op); !AllRight(inodes, t, Uncached(inodes, logical, op, reply.Some?), ops)
    ensures Over(inodes, [op] + ops) && !AllRight(inodes, s, logical, [op] + ops)
  {
  }

  /** Every entry is clean, and one for `key` holds what the disk does. */
  ghost predicate Stale(inodes: seq<Inode>, s: State, disk: seq<Sector>, key: Key) {
    && Sound(inodes, s) && s.disk == disk && InRange(inodes, key)
    && (forall i | 0 <= i < |s.entries| :: !s.entries[i].dirty)
    && (forall i | 0 <= i < |s.entries| && s.entries[i].key == key :: s.entries[i].data == disk[SectorFor(inodes, key)])
  }

  lemma FindStale(inodes: seq<Inode>, s: State, disk: seq<Sector>, key: Key, k: Key, memory: bool)
    requires Stale(inodes, s, disk, key) && k.inode < |inodes|
    ensures Stale(inodes, Find(inodes, s, k, memory).0, disk, key)
  {
    FindSound(inodes, s, k, memory);
    if |s.entries| == CACHE_SIZE {
      SelectedSound(inodes, s);
    }
  }

  /** A read of `key` then returns what is on the disk. */
  lemma {:induction false} StaleReply(inodes: seq<Inode>, s: State, disk: seq<Sector>, q: Range, logical: seq<Sector>)
    requires Stale(inodes, s, disk, q.key) && Apart(inodes, iset{q}) && |logical| == |disk|
    requires Held(inodes, disk, q.key, q.size) != Held(inodes, logical, q.key, q.size)
    ensures !AllRight(inodes, s, logical, [ReadOp(q.key, q.size, true, true)])
  {
  }

  /** A full cache that was just written behind, with the entry for `q` in front: the next new entry takes
      its place. */
  lemma {:induction false} FirstEvicted(inodes: seq<Inode>, s: State, q: Key, z: Key, size: nat)
    requires Sound(inodes, s) && |s.entries| == CACHE_SIZE && s.hand.None? && OneEntryPerKey(s.entries)
    requires s.entries[0].key == q && InRange(inodes, z) && LookUp(s.entries, z, 0).None? && z != q
    requires forall i | 0 <= i < |s.entries| :: !s.entries[i].dirty && !s.entries[i].marks.accessed
    requires z.offset % SECTOR_SIZE + size <= SECTOR_SIZE
    ensures Stale(inodes, Step(inodes, s, ReadOp(z, size, true, true)).0, s.disk, q)
  {
    var marks := MarksOf(s.entries);
    assert Stops(marks[0]) && Clock(marks, 0) == (marks, 0);
    assert WithMarks(s.entries, marks) == s.entries;
    var t := Fetch(inodes, s, z, size, true).0;
    assert t.entries == s.entries[0 := Used(Fresh(z, s.disk[SectorFor(inodes, z)]))];
    FetchSound(inodes, s, z, size, true);
    assert Stale(inodes, t, s.disk, q);
    FindStale(inodes, t, s.disk, q, Ahead(z), true);
  }

  /** What writing everything behind leaves: clean entries that were not used, and on the disk, in the sector of
      the last entry if that is dirty, its data. */
  lemma {:induction false} BehindAllLeaves(inodes: seq<Inode>, s: State, i: nat)
    requires Sound(inodes, s) && s.entries != []
    requires forall k | 0 <= k < |s.entries| && k < i :: !s.entries[k].dirty && !s.entries[k].marks.accessed
    ensures var t := BehindAll(inodes, s, i);
            && |t.entries| == |s.entries| && t.hand == s.hand && |t.disk| == |s.disk|
            && (forall k | 0 <= k < |s.entries| :: t.entries[k].key == s.entries[k].key)
            && (forall k | 0 <= k < |s.entries| :: !t.entries[k].dirty && !t.entries[k].marks.accessed)
            && var last := s.entries[|s.entries| - 1];
               (i < |s.entries| && last.dirty ==> t.disk[SectorFor(inodes, last.key)] == last.data)
    decreases |s.entries| - i
  {
    if i < |s.entries| {
      BehindAllLeaves(inodes, BehindOne(inodes, s, i), i + 1);
    }
  }

  /** The cache after `m` ranges were accessed for the first time, the first of them by a write of `bytes`. */
  ghost predicate Filled(inodes: seq<Inode>, s: State, disk: seq<Sector>, rs: seq<Range>, m: nat, bytes: seq<Byte>) {
    && Sound(inodes, s) && s.disk == disk && 0 < m <= |rs| && |s.entries| == m && s.hand.None?
    && (forall i | 0 <= i < m :: s.entries[i].key == rs[m - 1 - i].key)
    && InRange(inodes, rs[0].key) && rs[0].key.offset % SECTOR_SIZE + |bytes| <= SECTOR_SIZE
    && s.entries[m - 1] == Stored(Fresh(rs[0].key, disk[SectorFor(inodes, rs[0].key)]), bytes)
  }

  ghost predicate DistinctKeys(rs: seq<Range>) {
    forall i, j | 0 <= i < j < |rs| :: rs[i].key != rs[j].key
  }

  /** One more range is read, and no memory is to be had to read ahead. */
  lemma FilledMore(inodes: seq<Inode>, s: State, disk: seq<Sector>, rs: seq<Range>, m: nat, bytes: seq<Byte>)
    requires Filled(inodes, s, disk, rs, m, bytes) && m < |rs| && m + 1 < CACHE_SIZE && DistinctKeys(rs)
    requires InRange(inodes, rs[m].key) && rs[m].key.offset % SECTOR_SIZE + rs[m].size <= SECTOR_SIZE
    ensures Filled(inodes, Step(inodes, s, ReadOp(rs[m].key, rs[m].size, true, false)).0, disk, rs, m + 1, bytes)
  {
  }

  /** Ranges that have keys of their own, in one sector or not: `rs[0]` shares a sector with `q`, and `q` is
      not among them. */
  ghost predicate Chosen(inodes: seq<Inode>, ranges: iset<Range>, rs: seq<Range>, q: Range) {
    && Apart(inodes, ranges) && |rs| == CACHE_SIZE && DistinctKeys(rs) && q in ranges
    && (forall i | 0 <= i < |rs| :: rs[i] in ranges && rs[i].key != q.key)
    && SectorFor(inodes, rs[0].key) == SectorFor(inodes, q.key)
  }

  /** With all entries but one made, `q` is written; everything is written behind, and the data of `rs[0]`
      last; the last range takes the place of `q`; and `q` is read. */
  lemma {:induction false} WrongWhenFull(inodes: seq<Inode>, ranges: iset<Range>, s: State, disk: seq<Sector>,
                                         rs: seq<Range>, q: Range, bytes: seq<Byte>, qBytes: seq<Byte>,
                                         logical: seq<Sector>) returns (ops: seq<Op>)
    requires Chosen(inodes, ranges, rs, q) && Filled(inodes, s, disk, rs, CACHE_SIZE - 1, bytes)
    requires |bytes| == rs[0].size && |qBytes| == q.size && logical == Written(inodes, disk, rs[0].key, bytes)
    requires Held(inodes, disk, q.key, q.size) != qBytes
    ensures Over(inodes, ops) && RangesFrom(ranges, ops) && !AllRight(inodes, s, logical, ops)
  {
    var z, write := rs[CACHE_SIZE - 1], WriteOp(q.key, qBytes, true);
    MadeFull(inodes, s, disk, rs, q, bytes, qBytes);
    var full, after := Step(inodes, s, write).0, Written(inodes, logical, q.key, qBytes);
    assert Held(inodes, logical, q.key, q.size) != Held(inodes, after, q.key, q.size) by {
      HeldWritten(inodes, disk, rs[0], q, bytes);
      HeldWritten(inodes, logical, q, q, qBytes);
    }
    assert z in ranges;
    var last := WrongFromFull(inodes, ranges, full, rs, q, logical, after);
    WrongLater(inodes, s, logical, write, last);
    ops := [write] + last;
  }

  lemma {:induction false} MadeFull(inodes: seq<Inode>, s: State, disk: seq<Sector>, rs: seq<Range>, q: Range,
                                    bytes: seq<Byte>, qBytes: seq<Byte>)
    requires Filled(inodes, s, disk, rs, CACHE_SIZE - 1, bytes) && |rs| == CACHE_SIZE
    requires InRange(inodes, q.key) && q.key.offset % SECTOR_SIZE + |qBytes| <= SECTOR_SIZE
    requires forall i | 0 <= i < |rs| :: rs[i].key != q.key
    ensures var (full, reply) := Step(inodes, s, WriteOp(q.key, qBytes, true));
            && reply.Some? && |full.entries| == CACHE_SIZE && full.hand.None? && full.disk == disk && full.entries[0].key == q.key
            && (forall i | 0 < i < CACHE_SIZE :: full.entries[i].key == rs[CACHE_SIZE - 1 - i].key)
            && full.entries[CACHE_SIZE - 1] == Stored(Fresh(rs[0].key, disk[SectorFor(inodes, rs[0].key)]), bytes)
  {
  }

  lemma {:induction false} WrongFromFull(inodes: seq<Inode>, ranges: iset<Range>, full: State, rs: seq<Range>, q: Range,
                                         logical: seq<Sector>, after: seq<Sector>) returns (ops: seq<Op>)
    requires Sound(inodes, full) && |full.entries| == CACHE_SIZE == |rs| && full.hand.None? && |logical| == |after| == |full.disk|
    requires DistinctKeys(rs) && Apart(inodes, ranges) && q in ranges && rs[CACHE_SIZE - 1] in ranges
    requires forall i | 0 <= i < |rs| :: rs[i].key != q.key
    requires full.entries[0].key == q.key
    requires forall i | 0 < i < CACHE_SIZE :: full.entries[i].key == rs[CACHE_SIZE - 1 - i].key
    requires var last := full.entries[CACHE_SIZE - 1];
             && SectorFor(inodes, last.key) == SectorFor(inodes, q.key)
             && last.dirty && last.data == logical[SectorFor(inodes, q.key)]
    requires Held(inodes, logical, q.key, q.size) != Held(inodes, after, q.key, q.size)
    ensures Over(inodes, ops) && RangesFrom(ranges, ops) && !AllRight(inodes, full, after, ops)
  {
    var z := rs[CACHE_SIZE - 1];
    BehindAllLeaves(inodes, full, 0);
    var clean := Step(inodes, full, BehindAllOp).0;
    KeysStayDistinct(full, clean, rs, q, z);
    var last := WrongFromClean(inodes, ranges, clean, q, z, after);
    WrongLater(inodes, full, after, BehindAllOp, last);
    ops := [BehindAllOp] + last;
  }

  lemma {:induction false} WrongFromClean(inodes: seq<Inode>, ranges: iset<Range>, s: State, q: Range, z: Range,
                                          after: seq<Sector>)
    returns (ops: seq<Op>)
    requires Sound(inodes, s) && |s.entries| == CACHE_SIZE && s.hand.None? && OneEntryPerKey(s.entries) && |after| == |s.disk|
    requires Apart(inodes, ranges) && q in ranges && z in ranges && z.key != q.key
    requires s.entries[0].key == q.key && LookUp(s.entries, z.key, 0).None?
    requires forall i | 0 <= i < |s.entries| :: !s.entries[i].dirty && !s.entries[i].marks.accessed
    requires Held(inodes, s.disk, q.key, q.size) != Held(inodes, after, q.key, q.size)
    ensures Over(inodes, ops) && RangesFrom(ranges, ops) && !AllRight(inodes, s, after, ops)
  {
    var look, again := ReadOp(z.key, z.size, true, true), ReadOp(q.key, q.size, true, true);
    FirstEvicted(inodes, s, q.key, z.key, z.size);
    StaleReply(inodes, Step(inodes, s, look).0, s.disk, q, after);
    WrongLater(inodes, s, after, look, [again]);
    ops := [look] + [again];
  }

  lemma KeysStayDistinct(full: State, clean: State, rs: seq<Range>, q: Range, z: Range)
    requires |rs| == CACHE_SIZE && DistinctKeys(rs) && z == rs[CACHE_SIZE - 1] && forall i | 0 <= i < |rs| :: rs[i].key != q.key
    requires |full.entries| == CACHE_SIZE == |clean.entries| && full.entries[0].key == q.key
    requires forall i | 0 < i < CACHE_SIZE :: full.entries[i].key == rs[CACHE_SIZE - 1 - i].key
    requires forall i | 0 <= i < CACHE_SIZE :: clean.entries[i].key == full.entries[i].key
    ensures OneEntryPerKey(clean.entries) && LookUp(clean.entries, z.key, 0).None? && clean.entries[0].key == q.key
  {
  }

  lemma {:induction false} WrongFromHere(inodes: seq<Inode>, ranges: iset<Range>, s: State, disk: seq<Sector>,
                                         rs: seq<Range>, m: nat, q: Range, bytes: seq<Byte>, qBytes: seq<Byte>,
                                         logical: seq<Sector>) returns (ops: seq<Op>)
    requires Chosen(inodes, ranges, rs, q) && m < CACHE_SIZE && Filled(inodes, s, disk, rs, m, bytes)
    requires |bytes| == rs[0].size && |qBytes| == q.size && logical == Written(inodes, disk, rs[0].key, bytes)
    requires Held(inodes, disk, q.key, q.size) != qBytes
    ensures Over(inodes, ops) && RangesFrom(ranges, ops) && !AllRight(inodes, s, logical, ops)
    decreases CACHE_SIZE - m
  {
    if m == CACHE_SIZE - 1 {
      ops := WrongWhenFull(inodes, ranges, s, disk, rs, q, bytes, qBytes, logical);
    } else {
      var look := ReadOp(rs[m].key, rs[m].size, true, false);
      assert rs[m] in ranges;
      FilledMore(inodes, s, disk, rs, m, bytes);
      var more := WrongFromHere(inodes, ranges, Step(inodes, s, look).0, disk, rs, m + 1, q, bytes, qBytes, logical);
      WrongLater(inodes, s, logical, look, more);
      ops := [look] + more;
    }
  }

  /** Two ranges of one sector, and more than the cache has entries for: some read of some run is wrong. */
  lemma SomeReadWrong(inodes: seq<Inode>, ranges: iset<Range>, n: nat, rs: seq<Range>, q: Range)
    requires Placed(inodes, n) && Chosen(inodes, ranges, rs, q)
    ensures !EverySessionRight(inodes, ranges, n)
  {
    var zeros: Sector := seq(SECTOR_SIZE, _ => 0);
    var disk: seq<Sector> := seq(n, _ => zeros);
    var r := rs[0];
    assert r in ranges;
    var bytes, qBytes := seq(r.size, _ => 1), seq(q.size, _ => 1);
    var first := WriteOp(r.key, bytes, true);
    WriteMiss(inodes, Empty(disk), r.key, bytes);
    var s := Step(inodes, Empty(disk), first).0;
    assert Held(inodes, disk, q.key, q.size)[0] == 0 && qBytes[0] == 1;
    var more := WrongFromHere(inodes, ranges, s, disk, rs, 1, q, bytes, qBytes, Written(inodes, disk, r.key, bytes));
    WrongLater(inodes, Empty(disk), disk, first, more);
    assert RangesFrom(ranges, [first] + more);
  }

  /** If the ranges do not fit, there are as many others besides `q` as the cache has entries. */
  lemma {:induction false} ManyRanges(inodes: seq<Inode>, ranges: iset<Range>, r: Range, q: Range,
                                      m: nat) returns (rs: seq<Range>)
    requires Apart(inodes, ranges) && !Fit(ranges) && r in ranges && q in ranges && r.key != q.key && 0 < m <= CACHE_SIZE
    ensures |rs| == m && rs[0] == r && DistinctKeys(rs)
    ensures forall i | 0 <= i < |rs| :: rs[i] in ranges && rs[i].key != q.key
  {
    if m == 1 {
      rs := [r];
    } else {
      var less := ManyRanges(inodes, ranges, r, q, m - 1);
      var ks := KeysWith(less, q.key);
      var x := OneMoreRange(ranges, ks);
      assert forall i | 0 <= i < |less| :: ks[i] == less[i].key;
      assert ks[|less|] == q.key;
      rs := less + [x];
    }
  }

  function KeysWith(rs: seq<Range>, key: Key): seq<Key> {
    seq(|rs| + 1, i requires 0 <= i < |rs| + 1 => if i < |rs| then rs[i].key else key)
  }

  lemma OneMoreRange(ranges: iset<Range>, ks: seq<Key>) returns (x: Range)
    requires !Fit(ranges) && |ks| <= CACHE_SIZE
    ensures x in ranges && forall i | 0 <= i < |ks| :: x.key != ks[i]
  {
    assert !AllIn(ranges, ks);
    x :| x in ranges && x.key !in ks;
  }

  /** For accesses to given byte ranges that do not overlap, where what is read ahead is among them, every
      read of every run is right if and only if no two of the ranges are in one sector or the cache has
      an entry for each. */
  lemma SessionRightIff(inodes: seq<Inode>, ranges: iset<Range>, n: nat)
    requires Placed(inodes, n) && Apart(inodes, ranges) && ReadsAheadWithin(inodes, ranges)
    ensures EverySessionRight(inodes, ranges, n) <==> OneRangePerSector(inodes, ranges) || Fit(ranges)
  {
    if OneRangePerSector(inodes, ranges) {
      var keys := iset r | r in ranges :: r.key;
      forall disk: seq<Sector>, ops | |disk| == n && Over(inodes, ops) && RangesFrom(ranges, ops)
        ensures AllRight(inodes, Empty(disk), disk, ops)
      {
        AgreeingRun(inodes, keys, Empty(disk), disk, ops);
      }
    } else if Fit(ranges) {
      var ks: seq<Key> :| |ks| <= CACHE_SIZE && AllIn(ranges, ks);
      forall disk: seq<Sector>, ops | |disk| == n && Over(inodes, ops) && RangesFrom(ranges, ops)
        ensures AllRight(inodes, Empty(disk), disk, ops)
      {
        OwnRun(inodes, ranges, Empty(disk), disk, ops, ks);
      }
    } else {
      var r, q :| r in ranges && q in ranges && InRange(inodes, r.key) && InRange(inodes, q.key) && r != q
                  && SectorFor(inodes, r.key) == SectorFor(inodes, q.key);
      var rs := ManyRanges(inodes, ranges, r, q, CACHE_SIZE);
      SomeReadWrong(inodes, ranges, n, rs, q);
    }
  }
}
