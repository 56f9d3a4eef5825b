/** The buffer cache of filesys/buf_cache.c over a disk of sectors, and what it must agree with: the
    disk that the same reads and writes would make without a cache. */
module CacheSteps {
  import opened Common
  import opened ClockSweep

  const CACHE_SIZE: nat := 64

  type Sector = s: seq<Byte> | |s| == 512 witness seq(512, _ => 0)

  /** The extent of an open inode. */
  datatype Inode = Inode(start: nat, length: nat)

  /** What a cache entry is looked up by: an inode and the exact offset of an access. */
  datatype Key = Key(inode: nat, offset: nat)

  datatype Entry = Entry(key: Key, data: Sector, dirty: bool, marks: Marks)

  datatype State = State(disk: seq<Sector>, entries: seq<Entry>, hand: Option<nat>)

  // ---------- Sectors ----------

  predicate InRange(inodes: seq<Inode>, key: Key) {
    key.inode < |inodes| && key.offset < inodes[key.inode].length
  }

  /** The disk sector that holds the byte at an offset. */
  function ByteToSector(inode: Inode, pos: nat): Option<nat> {
    if pos < inode.length then Some(inode.start + pos / SECTOR_SIZE) else None
  }

  function SectorFor(inodes: seq<Inode>, key: Key): nat
    requires InRange(inodes, key)
  {
    ByteToSector(inodes[key.inode], key.offset).value
  }

  /** The inodes lie on a disk of `n` sectors and no two of them share a sector. */
  ghost predicate Placed(inodes: seq<Inode>, n: nat) {
    && (forall k {:trigger SectorFor(inodes, k)} | InRange(inodes, k) :: SectorFor(inodes, k) < n)
    && (forall k, l {:trigger SectorFor(inodes, k), SectorFor(inodes, l)} | InRange(inodes, k) && InRange(inodes, l) ::
          SectorFor(inodes, k) == SectorFor(inodes, l) ==> k.inode == l.inode)
  }

  function Splice(s: Sector, ofs: nat, bytes: seq<Byte>): Sector
    requires ofs + |bytes| <= SECTOR_SIZE
  {
    seq(SECTOR_SIZE, i requires 0 <= i < SECTOR_SIZE => if ofs <= i < ofs + |bytes| then bytes[i - ofs] else s[i])
  }

  // ---------- The steps of the cache ----------

  /** The place of the first entry with a key, from place `i` on. */
  function LookUp(entries: seq<Entry>, key: Key, i: nat): (r: Option<nat>)
    ensures r.Some? ==> i <= r.value < |entries| && entries[r.value].key == key
    ensures r.Some? ==> forall j | i <= j < r.value :: entries[j].key != key
    ensures r.None? ==> forall j | i <= j < |entries| :: entries[j].key != key
    decreases |entries| - i
  {
    if i >= |entries| then None else if entries[i].key == key then Some(i) else LookUp(entries, key, i + 1)
  }

  ghost predicate KeysInRange(inodes: seq<Inode>, s: State) {
    && Placed(inodes, |s.disk|)
    && forall i | 0 <= i < |s.entries| :: InRange(inodes, s.entries[i].key)
  }

  function Unmarked(e: Entry): Entry {
    e.(marks := e.marks.(accessed := false))
  }

  function WriteBehind(inodes: seq<Inode>, s: State, i: nat): State
    requires KeysInRange(inodes, s) && i < |s.entries|
  {
    s.(disk := s.disk[SectorFor(inodes, s.entries[i].key) := s.entries[i].data],
       entries := s.entries[i := Unmarked(s.entries[i]).(dirty := false)])
  }

  function MarksOf(entries: seq<Entry>): seq<Marks> {
    seq(|entries|, i requires 0 <= i < |entries| => entries[i].marks)
  }

  function WithMarks(entries: seq<Entry>, marks: seq<Marks>): seq<Entry>
    requires |entries| == |marks|
  {
    seq(|entries|, i requires 0 <= i < |entries| => entries[i].(marks := marks[i]))
  }

  /** The hand has come to rest at a victim. */
  function Selected(s: State): State
    requires |s.entries| > 0 && (s.hand.Some? ==> s.hand.value < |s.entries|)
  {
    var (marks, v) := Clock(MarksOf(s.entries), if s.hand.Some? then s.hand.value else 0);
    s.(entries := WithMarks(s.entries, marks), hand := Some(v))
  }

  /** What every step keeps about the shape of the cache. */
  ghost predicate Sound(inodes: seq<Inode>, s: State) {
    && KeysInRange(inodes, s)
    && |s.entries| <= CACHE_SIZE
    && (s.hand.Some? ==> s.hand.value < |s.entries|)
    && (forall i | 0 <= i < |s.entries| :: Pickable(s.entries[i].marks))
  }

  function Fresh(key: Key, data: Sector): Entry {
    Entry(key, data, false, Marks(false, 0, true))
  }

  /** A new entry at the front of the list. */
  function Pushed(s: State, e: Entry): State {
    s.(entries := [e] + s.entries, hand := if s.hand.Some? then Some(s.hand.value + 1) else None)
  }

  /** A victim, written behind if need be. */
  function Emptied(inodes: seq<Inode>, s: State): State
    requires Sound(inodes, s) && |s.entries| > 0
  {
    var t := Selected(s);
    if t.entries[t.hand.value].dirty then WriteBehind(inodes, t, t.hand.value) else t
  }

  /** An entry for a key that has none, and its place; there is none for an offset past the end of
      the inode, or when memory runs out. */
  function GetEntry(inodes: seq<Inode>, s: State, key: Key, memory: bool): (State, Option<nat>)
    requires Sound(inodes, s) && key.inode < |inodes|
  {
    if ByteToSector(inodes[key.inode], key.offset).None? then (s, None)
    else if |s.entries| < CACHE_SIZE then
      if memory then (Pushed(s, Fresh(key, s.disk[SectorFor(inodes, key)])), Some(0)) else (s, None)
    else
      var t := Emptied(inodes, s);
      (t.(entries := t.entries[t.hand.value := Fresh(key, t.disk[SectorFor(inodes, key)])]), t.hand)
  }

  function Find(inodes: seq<Inode>, s: State, key: Key, memory: bool): (State, Option<nat>)
    requires Sound(inodes, s) && key.inode < |inodes|
  {
    var i := LookUp(s.entries, key, 0);
    if i.Some? then (s, i) else GetEntry(inodes, s, key, memory)
  }

  function Used(e: Entry): Entry {
    e.(marks := e.marks.(accessed := true))
  }

  /** A cached write; it fails, and its thread exits, if there is no entry to be had. */
  function Write(inodes: seq<Inode>, s: State, key: Key, bytes: seq<Byte>, memory: bool): (State, bool)
    requires Sound(inodes, s) && key.inode < |inodes| && key.offset % SECTOR_SIZE + |bytes| <= SECTOR_SIZE
  {
    var (t, i) := Find(inodes, s, key, memory);
    if i.None? then (s, false)
    else
      var e := t.entries[i.value];
      (t.(entries := t.entries[i.value := Used(e).(data := Splice(e.data, key.offset % SECTOR_SIZE, bytes), dirty := true)]),
       true)
  }

  lemma SelectedSound(inodes: seq<Inode>, s: State)
    requires Sound(inodes, s) && |s.entries| > 0
    ensures var t := Selected(s);
            && Sound(inodes, t) && t.disk == s.disk && |t.entries| == |s.entries| && t.hand.Some?
            && (forall i | 0 <= i < |s.entries| :: t.entries[i] == s.entries[i] || t.entries[i] == Unmarked(s.entries[i]))
            && !t.entries[t.hand.value].marks.accessed
  {
    var marks := MarksOf(s.entries);
    var hand := if s.hand.Some? then s.hand.value else 0;
    SweepStops(marks, hand, 2 * |marks|, hand);
    var (after, v) := Clock(marks, hand);
    assert Stops(after[v]);
    forall i | 0 <= i < |s.entries|
      ensures Selected(s).entries[i] == s.entries[i] || Selected(s).entries[i] == Unmarked(s.entries[i])
    {
      assert after[i] == marks[i] || after[i] == marks[i].(accessed := false);
    }
  }

  lemma EmptiedSound(inodes: seq<Inode>, s: State)
    requires Sound(inodes, s) && |s.entries| > 0
    ensures var t := Emptied(inodes, s);
            Sound(inodes, t) && |t.entries| == |s.entries| && |t.disk| == |s.disk| && t.hand.Some?
  {
    SelectedSound(inodes, s);
  }

  lemma FindSound(inodes: seq<Inode>, s: State, key: Key, memory: bool)
    requires Sound(inodes, s) && key.inode < |inodes|
    ensures var (t, i) := Find(inodes, s, key, memory);
            && Sound(inodes, t) && |t.disk| == |s.disk|
            && (i.Some? ==> i.value < |t.entries| && t.entries[i.value].key == key)
            && (i.None? ==> t == s)
  {
    if |s.entries| == CACHE_SIZE {
      EmptiedSound(inodes, s);
    }
  }

  /** The bytes of a cached read; none, and its thread exits, if there is no entry to be had. */
  function Fetch(inodes: seq<Inode>, s: State, key: Key, size: nat, memory: bool): (State, Option<seq<Byte>>)
    requires Sound(inodes, s) && key.inode < |inodes| && key.offset % SECTOR_SIZE + size <= SECTOR_SIZE
  {
    var (t, i) := Find(inodes, s, key, memory);
    if i.None? then (s, None)
    else
      var e := t.entries[i.value];
      var ofs := key.offset % SECTOR_SIZE;
      (t.(entries := t.entries[i.value := Used(e)]), Some(e.data[ofs..ofs + size]))
  }

  lemma FetchSound(inodes: seq<Inode>, s: State, key: Key, size: nat, memory: bool)
    requires Sound(inodes, s) && key.inode < |inodes| && key.offset % SECTOR_SIZE + size <= SECTOR_SIZE
    ensures var t := Fetch(inodes, s, key, size, memory).0; Sound(inodes, t) && |t.disk| == |s.disk|
  {
    FindSound(inodes, s, key, memory);
  }

  /** A cached read, which then looks for the same place in the next sector ahead of time. */
  function Read(inodes: seq<Inode>, s: State, key: Key, size: nat, memory: bool, ahead: bool): (State, Option<seq<Byte>>)
    requires Sound(inodes, s) && key.inode < |inodes| && key.offset % SECTOR_SIZE + size <= SECTOR_SIZE
  {
    FetchSound(inodes, s, key, size, memory);
    var (t, r) := Fetch(inodes, s, key, size, memory);
    if r.None? then (s, None)
    else (Find(inodes, t, Key(key.inode, key.offset + SECTOR_SIZE), ahead).0, r)
  }

  function BehindOne(inodes: seq<Inode>, s: State, i: nat): (t: State)
    requires KeysInRange(inodes, s) && i < |s.entries|
    ensures KeysInRange(inodes, t) && |t.entries| == |s.entries|
  {
    if s.entries[i].dirty then WriteBehind(inodes, s, i) else s.(entries := s.entries[i := Unmarked(s.entries[i])])
  }

  /** Every entry from place `i` on is unmarked, and written to the disk if it is dirty. */
  function BehindAll(inodes: seq<Inode>, s: State, i: nat): State
    requires KeysInRange(inodes, s)
    decreases |s.entries| - i
  {
    if i >= |s.entries| then s else BehindAll(inodes, BehindOne(inodes, s, i), i + 1)
  }

  /** The same for the dirty entries of one inode. */
  function BehindInode(inodes: seq<Inode>, s: State, inode: nat, i: nat): State
    requires KeysInRange(inodes, s)
    decreases |s.entries| - i
  {
    if i >= |s.entries| then s
    else if s.entries[i].key.inode == inode && s.entries[i].dirty then
      BehindInode(inodes, WriteBehind(inodes, s, i), inode, i + 1)
    else BehindInode(inodes, s, inode, i + 1)
  }

  predicate Resident(s: State, key: Key) {
    LookUp(s.entries, key, 0).Some?
  }

  /** There is no entry to be had only past the end of the inode, or if a new one is needed and there is no
      memory for it. */
  lemma FindFailsIff(inodes: seq<Inode>, s: State, key: Key, memory: bool)
    requires Sound(inodes, s) && key.inode < |inodes|
    ensures Find(inodes, s, key, memory).1.None? <==>
            !InRange(inodes, key) || (!Resident(s, key) && |s.entries| < CACHE_SIZE && !memory)
  {
    if |s.entries| == CACHE_SIZE {
      EmptiedSound(inodes, s);
    }
  }

  /** An entry that is found changes nothing. A new one stands in front of the others as long as there are
      fewer than the cache has room for, and the hand stays at its entry. Then it takes the place of a victim,
      where the hand comes to rest; that is written to the disk if it is dirty and was not in use unless all
      were, and the others keep their places. */
  lemma FindEvictsOne(inodes: seq<Inode>, s: State, key: Key, memory: bool)
    requires Sound(inodes, s) && key.inode < |inodes|
    ensures var (t, i) := Find(inodes, s, key, memory);
            && (Resident(s, key) || i.None? ==> t == s)
            && (!Resident(s, key) && i.Some? ==>
                  && i.value < |t.entries| && t.entries[i.value] == Fresh(key, t.disk[SectorFor(inodes, key)])
                  && if |s.entries| < CACHE_SIZE then
                       && i.value == 0 && t.disk == s.disk && t.entries[1..] == s.entries
                       && (t.hand.Some? <==> s.hand.Some?) && (s.hand.Some? ==> t.hand.value == s.hand.value + 1)
                     else
                       && |t.entries| == |s.entries| && t.hand == i
                       && (forall k | 0 <= k < |s.entries| && k != i.value ::
                             t.entries[k] == s.entries[k] || t.entries[k] == Unmarked(s.entries[k]))
                       && var e := s.entries[i.value];
                          && t.disk == (if e.dirty then s.disk[SectorFor(inodes, e.key) := e.data] else s.disk)
                          && (e.marks.accessed ==> forall k | 0 <= k < |s.entries| :: s.entries[k].marks.accessed))
  {
    if |s.entries| == CACHE_SIZE {
      SelectedSound(inodes, s);
      if k :| 0 <= k < |s.entries| && !s.entries[k].marks.accessed {
        VictimUnused(inodes, s, k);
      }
    }
  }

  lemma VictimUnused(inodes: seq<Inode>, s: State, k: nat)
    requires Sound(inodes, s) && k < |s.entries| && !s.entries[k].marks.accessed
    ensures var v := Selected(s).hand.value; v < |s.entries| && !s.entries[v].marks.accessed
  {
    var marks := MarksOf(s.entries);
    SecondChance(marks, if s.hand.Some? then s.hand.value else 0, 2 * |marks|, k);
  }

  /** An access that succeeds marks its entry as used. */
  lemma AccessMarks(inodes: seq<Inode>, s: State, key: Key, size: nat, bytes: seq<Byte>, memory: bool)
    requires Sound(inodes, s) && key.inode < |inodes|
    requires key.offset % SECTOR_SIZE + size <= SECTOR_SIZE && key.offset % SECTOR_SIZE + |bytes| <= SECTOR_SIZE
    ensures var (t, reply) := Fetch(inodes, s, key, size, memory); reply.Some? ==> InUse(t, key)
    ensures var (t, ok) := Write(inodes, s, key, bytes, memory); ok ==> InUse(t, key)
  {
    FindSound(inodes, s, key, memory);
    var i := Find(inodes, s, key, memory).1;
    if i.Some? {
      assert Fetch(inodes, s, key, size, memory).0.entries[i.value].key == key;
      assert Write(inodes, s, key, bytes, memory).0.entries[i.value].key == key;
    }
  }

  /** Some entry for `key` is marked as used. */
  predicate InUse(s: State, key: Key) {
    exists i | 0 <= i < |s.entries| :: s.entries[i].key == key && s.entries[i].marks.accessed
  }

  /** A read brings in the entry for the same place in the next sector, if there is one to be had. */
  lemma ReadsAhead(inodes: seq<Inode>, s: State, key: Key, size: nat, memory: bool, ahead: bool)
    requires Sound(inodes, s) && key.inode < |inodes| && key.offset % SECTOR_SIZE + size <= SECTOR_SIZE
    ensures var (t, reply) := Read(inodes, s, key, size, memory, ahead);
            var next := Key(key.inode, key.offset + SECTOR_SIZE);
            reply.Some? && InRange(inodes, next) ==> Resident(t, next) || (|t.entries| < CACHE_SIZE && !ahead)
  {
    FetchSound(inodes, s, key, size, memory);
    var t := Fetch(inodes, s, key, size, memory).0;
    var next := Key(key.inode, key.offset + SECTOR_SIZE);
    FindFailsIff(inodes, t, next, ahead);
    FindSound(inodes, t, next, ahead);
  }

  /** `t` is `s` with the dirty entries of one inode written: none of them is dirty any more, no other entry has
      changed, and no sector but the inode's. */
  ghost predicate InodeClean(inodes: seq<Inode>, s: State, t: State, inode: nat)
    requires KeysInRange(inodes, s)
  {
    && |t.entries| == |s.entries| && |t.disk| == |s.disk| && t.hand == s.hand
    && (forall i | 0 <= i < |s.entries| ::
          t.entries[i] == if s.entries[i].key.inode == inode && s.entries[i].dirty then Unmarked(s.entries[i]).(dirty := false)
                          else s.entries[i])
    && forall k | 0 <= k < |s.disk| && t.disk[k] != s.disk[k] :: SectorOf(inodes, inode, k)
  }

  /** `t` is `s` with all its entries clean, and none marked as used. */
  ghost predicate AllClean(s: State, t: State) {
    && |t.entries| == |s.entries| && |t.disk| == |s.disk| && t.hand == s.hand
    && forall i | 0 <= i < |s.entries| :: t.entries[i] == Unmarked(s.entries[i]).(dirty := false)
  }

  lemma {:induction false} BehindAllCleans(inodes: seq<Inode>, s: State, i: nat)
    requires KeysInRange(inodes, s)
    requires forall k | 0 <= k < |s.entries| && k < i :: !s.entries[k].dirty && !s.entries[k].marks.accessed
    ensures AllClean(s, BehindAll(inodes, s, i))
    decreases |s.entries| - i
  {
    if i < |s.entries| {
      BehindAllCleans(inodes, BehindOne(inodes, s, i), i + 1);
    }
  }

  /** Sector `k` holds bytes of an inode. */
  ghost predicate SectorOf(inodes: seq<Inode>, inode: nat, k: nat) {
    exists p: nat :: InRange(inodes, Key(inode, p)) && SectorFor(inodes, Key(inode, p)) == k
  }

  lemma {:induction false} BehindInodeCleans(inodes: seq<Inode>, s: State, inode: nat, i: nat)
    requires KeysInRange(inodes, s)
    requires forall k | 0 <= k < |s.entries| && k < i && s.entries[k].key.inode == inode :: !s.entries[k].dirty
    ensures InodeClean(inodes, s, BehindInode(inodes, s, inode, i), inode)
    decreases |s.entries| - i
  {
    if i < |s.entries| {
      if s.entries[i].key.inode == inode && s.entries[i].dirty {
        assert SectorOf(inodes, inode, SectorFor(inodes, s.entries[i].key)) by {
          assert s.entries[i].key == Key(inode, s.entries[i].key.offset);
        }
        BehindInodeCleans(inodes, WriteBehind(inodes, s, i), inode, i + 1);
      } else {
        BehindInodeCleans(inodes, s, inode, i + 1);
      }
    }
  }

  // ---------- Agreement with the uncached disk ----------

  /** No two accesses at different offsets are to the same sector. */
  ghost predicate OneOffsetPerSector(inodes: seq<Inode>, keys: iset<Key>) {
    forall k, l {:trigger SectorFor(inodes, k), SectorFor(inodes, l)} |
      k in keys && l in keys && InRange(inodes, k) && InRange(inodes, l) ::
      SectorFor(inodes, k) == SectorFor(inodes, l) ==> k == l
  }

  /** Some dirty entry is for sector `t`. */
  ghost predicate Covered(inodes: seq<Inode>, s: State, t: nat)
    requires KeysInRange(inodes, s)
  {
    exists i | 0 <= i < |s.entries| :: s.entries[i].dirty && SectorFor(inodes, s.entries[i].key) == t
  }

  ghost predicate OneEntryPerKey(entries: seq<Entry>) {
    forall i, j {:trigger entries[i], entries[j]} | 0 <= i < j < |entries| :: entries[i].key != entries[j].key
  }

  /** Every entry for one of `keys` holds the logical contents of its sector, only those are dirty,
      and a sector of the disk lags behind the logical contents only where one of them is. */
  ghost predicate Agrees(inodes: seq<Inode>, keys: iset<Key>, s: State, logical: seq<Sector>) {
    && Sound(inodes, s) && |logical| == |s.disk|
    && OneEntryPerKey(s.entries)
    && (forall i | 0 <= i < |s.entries| :: s.entries[i].dirty ==> s.entries[i].key in keys)
    && (forall i | 0 <= i < |s.entries| && s.entries[i].key in keys ::
          s.entries[i].data == logical[SectorFor(inodes, s.entries[i].key)])
    && (forall t | 0 <= t < |s.disk| :: s.disk[t] == logical[t] || Covered(inodes, s, t))
  }

  /** At most one entry for `keys` is resident for each sector, and a clean one equals its sector. */
  lemma ResidentEntries(inodes: seq<Inode>, keys: iset<Key>, s: State, logical: seq<Sector>, i: nat)
    requires Agrees(inodes, keys, s, logical) && OneOffsetPerSector(inodes, keys)
    requires i < |s.entries| && s.entries[i].key in keys
    ensures forall j | 0 <= j < |s.entries| && s.entries[j].key in keys && j != i ::
              SectorFor(inodes, s.entries[j].key) != SectorFor(inodes, s.entries[i].key)
    ensures !s.entries[i].dirty ==> s.entries[i].data == s.disk[SectorFor(inodes, s.entries[i].key)]
  {
  }

  lemma SelectedAgrees(inodes: seq<Inode>, keys: iset<Key>, s: State, logical: seq<Sector>)
    requires Agrees(inodes, keys, s, logical) && |s.entries| > 0
    ensures Agrees(inodes, keys, Selected(s), logical)
  {
    SelectedSound(inodes, s);
    var r := Selected(s);
    forall t | 0 <= t < |s.disk|
      ensures r.disk[t] == logical[t] || Covered(inodes, r, t)
    {
      if Covered(inodes, s, t) {
        var i :| 0 <= i < |s.entries| && s.entries[i].dirty && SectorFor(inodes, s.entries[i].key) == t;
        assert r.entries[i].dirty && r.entries[i].key == s.entries[i].key;
      }
    }
  }

  lemma WriteBehindAgrees(inodes: seq<Inode>, keys: iset<Key>, s: State, logical: seq<Sector>, i: nat)
    requires Agrees(inodes, keys, s, logical) && i < |s.entries| && s.entries[i].dirty
    ensures Agrees(inodes, keys, WriteBehind(inodes, s, i), logical)
  {
    var r := WriteBehind(inodes, s, i);
    forall t | 0 <= t < |s.disk|
      ensures r.disk[t] == logical[t] || Covered(inodes, r, t)
    {
      if t != SectorFor(inodes, s.entries[i].key) && Covered(inodes, s, t) {
        var j :| 0 <= j < |s.entries| && s.entries[j].dirty && SectorFor(inodes, s.entries[j].key) == t;
        assert r.entries[j] == s.entries[j];
      }
    }
  }

  /** What the disk holds where no entry is for `key`. */
  lemma MissIsCurrent(inodes: seq<Inode>, keys: iset<Key>, s: State, logical: seq<Sector>, key: Key)
    requires Agrees(inodes, keys, s, logical) && OneOffsetPerSector(inodes, keys) && InRange(inodes, key)
    requires forall j | 0 <= j < |s.entries| && s.entries[j].dirty :: s.entries[j].key != key
    ensures key in keys ==> s.disk[SectorFor(inodes, key)] == logical[SectorFor(inodes, key)]
  {
  }

  lemma {:induction false} PushedAgrees(inodes: seq<Inode>, keys: iset<Key>, s: State, logical: seq<Sector>, key: Key)
    requires Agrees(inodes, keys, s, logical) && OneOffsetPerSector(inodes, keys) && InRange(inodes, key)
    requires |s.entries| < CACHE_SIZE && LookUp(s.entries, key, 0).None?
    ensures Agrees(inodes, keys, Pushed(s, Fresh(key, s.disk[SectorFor(inodes, key)])), logical)
  {
    var r := Pushed(s, Fresh(key, s.disk[SectorFor(inodes, key)]));
    MissIsCurrent(inodes, keys, s, logical, key);
    forall t | 0 <= t < |s.disk|
      ensures r.disk[t] == logical[t] || Covered(inodes, r, t)
    {
      if Covered(inodes, s, t) {
        var j :| 0 <= j < |s.entries| && s.entries[j].dirty && SectorFor(inodes, s.entries[j].key) == t;
        assert r.entries[j + 1] == s.entries[j];
      }
    }
  }

  lemma ReplacedAgrees(inodes: seq<Inode>, keys: iset<Key>, s: State, logical: seq<Sector>, v: nat, key: Key)
    requires Agrees(inodes, keys, s, logical) && OneOffsetPerSector(inodes, keys) && InRange(inodes, key)
    requires v < |s.entries| && !s.entries[v].dirty && forall j | 0 <= j < |s.entries| :: s.entries[j].key != key
    ensures Agrees(inodes, keys, s.(entries := s.entries[v := Fresh(key, s.disk[SectorFor(inodes, key)])]), logical)
  {
    var r := s.(entries := s.entries[v := Fresh(key, s.disk[SectorFor(inodes, key)])]);
    MissIsCurrent(inodes, keys, s, logical, key);
    forall t | 0 <= t < |s.disk|
      ensures r.disk[t] == logical[t] || Covered(inodes, r, t)
    {
      if Covered(inodes, s, t) {
        var j :| 0 <= j < |s.entries| && s.entries[j].dirty && SectorFor(inodes, s.entries[j].key) == t;
        assert r.entries[j] == s.entries[j];
      }
    }
  }

  lemma EmptiedAgrees(inodes: seq<Inode>, keys: iset<Key>, s: State, logical: seq<Sector>)
    requires Agrees(inodes, keys, s, logical) && |s.entries| > 0
    ensures var t := Emptied(inodes, s);
            && Agrees(inodes, keys, t, logical) && t.hand.Some? && !t.entries[t.hand.value].dirty
            && |t.entries| == |s.entries|
            && forall i | 0 <= i < |s.entries| :: t.entries[i].key == s.entries[i].key
  {
    SelectedSound(inodes, s);
    SelectedAgrees(inodes, keys, s, logical);
    var t := Selected(s);
    if t.entries[t.hand.value].dirty {
      WriteBehindAgrees(inodes, keys, t, logical, t.hand.value);
    }
  }

  /** Finding or making an entry keeps the agreement, and an entry for one of `keys` is current. */
  lemma FindAgrees(inodes: seq<Inode>, keys: iset<Key>, s: State, logical: seq<Sector>, key: Key, memory: bool)
    requires Agrees(inodes, keys, s, logical) && OneOffsetPerSector(inodes, keys) && key.inode < |inodes|
    ensures var (t, i) := Find(inodes, s, key, memory);
            && Agrees(inodes, keys, t, logical)
            && (i.Some? ==> i.value < |t.entries| && t.entries[i.value].key == key && InRange(inodes, key))
            && (i.None? ==> t == s)
  {
    FindSound(inodes, s, key, memory);
    if LookUp(s.entries, key, 0).None? && InRange(inodes, key) {
      if |s.entries| < CACHE_SIZE {
        PushedAgrees(inodes, keys, s, logical, key);
      } else {
        EmptiedAgrees(inodes, keys, s, logical);
        var t := Emptied(inodes, s);
        ReplacedAgrees(inodes, keys, t, logical, t.hand.value, key);
      }
    }
  }

  /** The uncached disk after a write. */
  function Written(inodes: seq<Inode>, logical: seq<Sector>, key: Key, bytes: seq<Byte>): seq<Sector>
    requires Placed(inodes, |logical|) && InRange(inodes, key) && key.offset % SECTOR_SIZE + |bytes| <= SECTOR_SIZE
  {
    var t := SectorFor(inodes, key);
    logical[t := Splice(logical[t], key.offset % SECTOR_SIZE, bytes)]
  }

  lemma StoreAgrees(inodes: seq<Inode>, keys: iset<Key>, s: State, logical: seq<Sector>, i: nat, bytes: seq<Byte>)
    requires Agrees(inodes, keys, s, logical) && OneOffsetPerSector(inodes, keys)
    requires i < |s.entries| && s.entries[i].key in keys
    requires s.entries[i].key.offset % SECTOR_SIZE + |bytes| <= SECTOR_SIZE
    ensures var e := s.entries[i];
            var data := Splice(e.data, e.key.offset % SECTOR_SIZE, bytes);
            Agrees(inodes, keys, s.(entries := s.entries[i := Used(e).(data := data, dirty := true)]),
                   Written(inodes, logical, e.key, bytes))
  {
    var e := s.entries[i];
    var data := Splice(e.data, e.key.offset % SECTOR_SIZE, bytes);
    var r := s.(entries := s.entries[i := Used(e).(data := data, dirty := true)]);
    var after := Written(inodes, logical, e.key, bytes);
    forall t | 0 <= t < |s.disk|
      ensures r.disk[t] == after[t] || Covered(inodes, r, t)
    {
      if t == SectorFor(inodes, e.key) {
        assert r.entries[i].dirty && r.entries[i].key == e.key;
      } else if Covered(inodes, s, t) {
        var j :| 0 <= j < |s.entries| && s.entries[j].dirty && SectorFor(inodes, s.entries[j].key) == t;
        assert r.entries[j] == s.entries[j];
      }
    }
  }

  lemma MarkAgrees(inodes: seq<Inode>, keys: iset<Key>, s: State, logical: seq<Sector>, i: nat, e: Entry)
    requires Agrees(inodes, keys, s, logical) && i < |s.entries|
    requires e == Used(s.entries[i]) || e == Unmarked(s.entries[i])
    ensures Agrees(inodes, keys, s.(entries := s.entries[i := e]), logical)
  {
    var r := s.(entries := s.entries[i := e]);
    forall t | 0 <= t < |s.disk|
      ensures r.disk[t] == logical[t] || Covered(inodes, r, t)
    {
      if Covered(inodes, s, t) {
        var j :| 0 <= j < |s.entries| && s.entries[j].dirty && SectorFor(inodes, s.entries[j].key) == t;
        assert r.entries[j].dirty && r.entries[j].key == s.entries[j].key;
      }
    }
  }

  lemma WriteAgrees(inodes: seq<Inode>, keys: iset<Key>, s: State, logical: seq<Sector>, key: Key, bytes: seq<Byte>,
                    memory: bool)
    requires Agrees(inodes, keys, s, logical) && OneOffsetPerSector(inodes, keys) && key in keys
    requires key.inode < |inodes| && key.offset % SECTOR_SIZE + |bytes| <= SECTOR_SIZE
    ensures var (t, ok) := Write(inodes, s, key, bytes, memory);
            if ok then InRange(inodes, key) && Agrees(inodes, keys, t, Written(inodes, logical, key, bytes)) else t == s
  {
    FindAgrees(inodes, keys, s, logical, key, memory);
    var (t, i) := Find(inodes, s, key, memory);
    if i.Some? {
      StoreAgrees(inodes, keys, t, logical, i.value, bytes);
    }
  }

  /** The bytes that an uncached read returns. */
  function Held(inodes: seq<Inode>, logical: seq<Sector>, key: Key, size: nat): seq<Byte>
    requires Placed(inodes, |logical|) && InRange(inodes, key) && key.offset % SECTOR_SIZE + size <= SECTOR_SIZE
  {
    logical[SectorFor(inodes, key)][key.offset % SECTOR_SIZE..key.offset % SECTOR_SIZE + size]
  }

  lemma FetchAgrees(inodes: seq<Inode>, keys: iset<Key>, s: State, logical: seq<Sector>, key: Key, size: nat,
                    memory: bool)
    requires Agrees(inodes, keys, s, logical) && OneOffsetPerSector(inodes, keys) && key in keys
    requires key.inode < |inodes| && key.offset % SECTOR_SIZE + size <= SECTOR_SIZE
    ensures var (t, r) := Fetch(inodes, s, key, size, memory);
            && Agrees(inodes, keys, t, logical)
            && (r.Some? ==> InRange(inodes, key) && r.value == Held(inodes, logical, key, size))
  {
    FindAgrees(inodes, keys, s, logical, key, memory);
    var (t, i) := Find(inodes, s, key, memory);
    if i.Some? {
      MarkAgrees(inodes, keys, t, logical, i.value, Used(t.entries[i.value]));
    }
  }

  lemma ReadAgrees(inodes: seq<Inode>, keys: iset<Key>, s: State, logical: seq<Sector>, key: Key, size: nat,
                   memory: bool, ahead: bool)
    requires Agrees(inodes, keys, s, logical) && OneOffsetPerSector(inodes, keys) && key in keys
    requires key.inode < |inodes| && key.offset % SECTOR_SIZE + size <= SECTOR_SIZE
    ensures var (t, r) := Read(inodes, s, key, size, memory, ahead);
            && Agrees(inodes, keys, t, logical)
            && (if r.Some? then InRange(inodes, key) && r.value == Held(inodes, logical, key, size) else t == s)
  {
    FetchAgrees(inodes, keys, s, logical, key, size, memory);
    var (t, r) := Fetch(inodes, s, key, size, memory);
    FindAgrees(inodes, keys, t, logical, Key(key.inode, key.offset + SECTOR_SIZE), ahead);
  }

  ghost predicate CleanBefore(s: State, i: nat) {
    forall j | 0 <= j < |s.entries| && j < i :: !s.entries[j].dirty
  }

  /** Writing everything behind leaves the disk with the logical contents. */
  lemma {:induction false} BehindAllAgrees(inodes: seq<Inode>, keys: iset<Key>, s: State, logical: seq<Sector>, i: nat)
    requires Agrees(inodes, keys, s, logical) && CleanBefore(s, i)
    ensures var t := BehindAll(inodes, s, i); Agrees(inodes, keys, t, logical) && t.disk == logical
    decreases |s.entries| - i
  {
    if i < |s.entries| {
      if s.entries[i].dirty {
        WriteBehindAgrees(inodes, keys, s, logical, i);
      } else {
        MarkAgrees(inodes, keys, s, logical, i, Unmarked(s.entries[i]));
      }
      BehindAllAgrees(inodes, keys, BehindOne(inodes, s, i), logical, i + 1);
    } else {
      assert forall t | 0 <= t < |s.disk| :: !Covered(inodes, s, t);
    }
  }

  lemma {:induction false} BehindInodeAgrees(inodes: seq<Inode>, keys: iset<Key>, s: State, logical: seq<Sector>,
                                             inode: nat, i: nat)
    requires Agrees(inodes, keys, s, logical)
    ensures Agrees(inodes, keys, BehindInode(inodes, s, inode, i), logical)
    decreases |s.entries| - i
  {
    if i < |s.entries| {
      if s.entries[i].key.inode == inode && s.entries[i].dirty {
        WriteBehindAgrees(inodes, keys, s, logical, i);
        BehindInodeAgrees(inodes, keys, WriteBehind(inodes, s, i), logical, inode, i + 1);
      } else {
        BehindInodeAgrees(inodes, keys, s, logical, inode, i + 1);
      }
    }
  }

  /** When an inode has been written behind, its sectors on the disk hold the logical contents. */
  lemma {:induction false} BehindInodeSettles(inodes: seq<Inode>, keys: iset<Key>, s: State, logical: seq<Sector>, inode: nat, p: nat)
    requires Agrees(inodes, keys, s, logical) && InRange(inodes, Key(inode, p))
    ensures var t, k := BehindInode(inodes, s, inode, 0), SectorFor(inodes, Key(inode, p));
            InodeClean(inodes, s, t, inode) && k < |t.disk| && t.disk[k] == logical[k]
  {
    BehindInodeAgrees(inodes, keys, s, logical, inode, 0);
    BehindInodeCleans(inodes, s, inode, 0);
    var t, k := BehindInode(inodes, s, inode, 0), SectorFor(inodes, Key(inode, p));
    assert !Covered(inodes, t, k);
  }

  // ---------- Every run ----------

  /** An operation on the cache, and whether memory is to be had for the entries it makes. */
  datatype Op =
    | ReadOp(key: Key, size: nat, memory: bool, ahead: bool)
    | WriteOp(key: Key, bytes: seq<Byte>, memory: bool)
    | BehindAllOp
    | BehindInodeOp(inode: nat)

  /** A request for bytes of one sector of an inode. */
  predicate Proper(inodes: seq<Inode>, op: Op) {
    match op
    case ReadOp(key, size, _, _) => key.inode < |inodes| && key.offset % SECTOR_SIZE + size <= SECTOR_SIZE
    case WriteOp(key, bytes, _) => key.inode < |inodes| && key.offset % SECTOR_SIZE + |bytes| <= SECTOR_SIZE
    case _ => true
  }

  /** The next state, and the bytes read or `None` if the thread exited. */
  function Step(inodes: seq<Inode>, s: State, op: Op): (r: (State, Option<seq<Byte>>))
    requires Sound(inodes, s) && Proper(inodes, op)
    ensures Sound(inodes, r.0) && |r.0.disk| == |s.disk|
  {
    match op
    case ReadOp(key, size, memory, ahead) =>
      ReadSound(inodes, s, key, size, memory, ahead);
      Read(inodes, s, key, size, memory, ahead)
    case WriteOp(key, bytes, memory) =>
      FindSound(inodes, s, key, memory);
      var (t, ok) := Write(inodes, s, key, bytes, memory);
      (t, if ok then Some([]) else None)
    case BehindAllOp =>
      BehindAllSound(inodes, s, 0);
      (BehindAll(inodes, s, 0), Some([]))
    case BehindInodeOp(inode) =>
      BehindInodeSound(inodes, s, inode, 0);
      (BehindInode(inodes, s, inode, 0), Some([]))
  }

  lemma ReadSound(inodes: seq<Inode>, s: State, key: Key, size: nat, memory: bool, ahead: bool)
    requires Sound(inodes, s) && key.inode < |inodes| && key.offset % SECTOR_SIZE + size <= SECTOR_SIZE
    ensures var t := Read(inodes, s, key, size, memory, ahead).0; Sound(inodes, t) && |t.disk| == |s.disk|
  {
    FetchSound(inodes, s, key, size, memory);
    var t := Fetch(inodes, s, key, size, memory).0;
    FindSound(inodes, t, Key(key.inode, key.offset + SECTOR_SIZE), ahead);
    var u := Read(inodes, s, key, size, memory, ahead).0;
    assert u == s || u == Find(inodes, t, Key(key.inode, key.offset + SECTOR_SIZE), ahead).0;
  }

  lemma {:induction false} BehindAllSound(inodes: seq<Inode>, s: State, i: nat)
    requires Sound(inodes, s)
    ensures var t := BehindAll(inodes, s, i); Sound(inodes, t) && |t.disk| == |s.disk|
    decreases |s.entries| - i
  {
    if i < |s.entries| {
      BehindAllSound(inodes, BehindOne(inodes, s, i), i + 1);
    }
  }

  lemma {:induction false} BehindInodeSound(inodes: seq<Inode>, s: State, inode: nat, i: nat)
    requires Sound(inodes, s)
    ensures var t := BehindInode(inodes, s, inode, i); Sound(inodes, t) && |t.disk| == |s.disk|
    decreases |s.entries| - i
  {
    if i < |s.entries| {
      if s.entries[i].key.inode == inode && s.entries[i].dirty {
        BehindInodeSound(inodes, WriteBehind(inodes, s, i), inode, i + 1);
      } else {
        BehindInodeSound(inodes, s, inode, i + 1);
      }
    }
  }

  /** The uncached disk after an operation that was not cut short. */
  function Uncached(inodes: seq<Inode>, logical: seq<Sector>, op: Op, done: bool): (r: seq<Sector>)
    requires Placed(inodes, |logical|) && Proper(inodes, op)
    ensures |r| == |logical|
  {
    if op.WriteOp? && done && InRange(inodes, op.key) then Written(inodes, logical, op.key, op.bytes) else logical
  }

  /** A read that was not cut short returned what an uncached one would. */
  predicate Right(inodes: seq<Inode>, logical: seq<Sector>, op: Op, reply: Option<seq<Byte>>)
    requires Placed(inodes, |logical|) && Proper(inodes, op)
  {
    op.ReadOp? && reply.Some? ==> InRange(inodes, op.key) && reply.value == Held(inodes, logical, op.key, op.size)
  }

  predicate Over(inodes: seq<Inode>, ops: seq<Op>) {
    forall i | 0 <= i < |ops| :: Proper(inodes, ops[i])
  }

  ghost predicate KeysFrom(keys: iset<Key>, ops: seq<Op>) {
    forall i | 0 <= i < |ops| :: ops[i].ReadOp? || ops[i].WriteOp? ==> ops[i].key in keys
  }

  /** Every read of a run is right. */
  ghost predicate AllRight(inodes: seq<Inode>, s: State, logical: seq<Sector>, ops: seq<Op>)
    requires Sound(inodes, s) && |logical| == |s.disk| && Over(inodes, ops)
    decreases |ops|
  {
    ops == [] ||
    var (t, reply) := Step(inodes, s, ops[0]);
    && Right(inodes, logical, ops[0], reply)
    && AllRight(inodes, t, Uncached(inodes, logical, ops[0], reply.Some?), ops[1..])
  }

  lemma StepAgrees(inodes: seq<Inode>, keys: iset<Key>, s: State, logical: seq<Sector>, op: Op)
    requires Agrees(inodes, keys, s, logical) && OneOffsetPerSector(inodes, keys) && Proper(inodes, op)
    requires op.ReadOp? || op.WriteOp? ==> op.key in keys
    ensures var (t, reply) := Step(inodes, s, op);
            && Agrees(inodes, keys, t, Uncached(inodes, logical, op, reply.Some?))
            && Right(inodes, logical, op, reply)
            && (op.BehindAllOp? ==> t.disk == logical)
  {
    match op
    case ReadOp(key, size, memory, ahead) => ReadAgrees(inodes, keys, s, logical, key, size, memory, ahead);
    case WriteOp(key, bytes, memory) => WriteAgrees(inodes, keys, s, logical, key, bytes, memory);
    case BehindAllOp => BehindAllAgrees(inodes, keys, s, logical, 0);
    case BehindInodeOp(inode) => BehindInodeAgrees(inodes, keys, s, logical, inode, 0);
  }

  /** The cache and the uncached disk at the end of a run. */
  function Outcome(inodes: seq<Inode>, s: State, logical: seq<Sector>, ops: seq<Op>): (r: (State, seq<Sector>))
    requires Sound(inodes, s) && |logical| == |s.disk| && Over(inodes, ops)
    ensures Sound(inodes, r.0) && |r.1| == |r.0.disk| == |s.disk|
    decreases |ops|
  {
    if ops == [] then (s, logical)
    else
      var (t, reply) := Step(inodes, s, ops[0]);
      Outcome(inodes, t, Uncached(inodes, logical, ops[0], reply.Some?), ops[1..])
  }

  lemma {:induction false} FirstOf(inodes: seq<Inode>, s: State, logical: seq<Sector>, op: Op, ops: seq<Op>)
    requires Sound(inodes, s) && |logical| == |s.disk| && Proper(inodes, op) && Over(inodes, ops)
    ensures Over(inodes, [op] + ops)
    ensures var (t, reply) := Step(inodes, s, op);
            Outcome(inodes, s, logical, [op] + ops) == Outcome(inodes, t, Uncached(inodes, logical, op, reply.Some?), ops)
  {
  }

  /** Every read of the run is right, and at its end the cache agrees with the uncached disk, so that
      writing everything behind leaves the disk with the logical contents. */
  lemma {:induction false} AgreeingRun(inodes: seq<Inode>, keys: iset<Key>, s: State, logical: seq<Sector>, ops: seq<Op>)
    requires Agrees(inodes, keys, s, logical) && OneOffsetPerSector(inodes, keys)
    requires Over(inodes, ops) && KeysFrom(keys, ops)
    ensures AllRight(inodes, s, logical, ops)
    ensures var (t, after) := Outcome(inodes, s, logical, ops);
            Agrees(inodes, keys, t, after) && BehindAll(inodes, t, 0).disk == after
    decreases |ops|
  {
    if ops != [] {
      StepAgrees(inodes, keys, s, logical, ops[0]);
      var (t, reply) := Step(inodes, s, ops[0]);
      AgreeingRun(inodes, keys, t, Uncached(inodes, logical, ops[0], reply.Some?), ops[1..]);
    } else {
      BehindAllAgrees(inodes, keys, s, logical, 0);
    }
  }

  /** A cache without entries. */
  function Empty(disk: seq<Sector>): State {
    State(disk, [], None)
  }

  /** Two offsets in one sector: a write at the lower one is not seen by a read at the higher. */
  lemma StaleRead(inodes: seq<Inode>, n: nat, k: Key, l: Key) returns (disk: seq<Sector>, ops: seq<Op>)
    requires Placed(inodes, n) && InRange(inodes, k) && InRange(inodes, l)
    requires SectorFor(inodes, k) == SectorFor(inodes, l) && k.offset < l.offset
    ensures |disk| == n && Over(inodes, ops) && KeysFrom(iset{k, l}, ops) && !AllRight(inodes, Empty(disk), disk, ops)
  {
    var zeros: Sector := seq(SECTOR_SIZE, _ => 0);
    disk := seq(n, _ => zeros);
    var size := l.offset - k.offset + 1;
    var write, read := WriteOp(k, seq(size, _ => 1), true), ReadOp(l, 1, true, true);
    ops := [write, read];
    var s := Step(inodes, Empty(disk), write).0;
    var logical := Uncached(inodes, disk, write, true);
    assert ops[1..] == [read];
    assert Step(inodes, Empty(disk), write).1 == Some([]);
    assert LookUp(s.entries, l, 0) == None;
    var reply := Step(inodes, s, read).1;
    assert reply == Some(zeros[l.offset % SECTOR_SIZE..l.offset % SECTOR_SIZE + 1]);
    assert reply.value[0] == 0;
    assert Held(inodes, logical, l, 1)[0] == 1;
  }

  /** Every read of every run on `n` sectors, with accesses at `keys` only, is right. */
  ghost predicate EveryRunRight(inodes: seq<Inode>, keys: iset<Key>, n: nat)
    requires Placed(inodes, n)
  {
    forall disk: seq<Sector>, ops | |disk| == n && Over(inodes, ops) && KeysFrom(keys, ops) ::
      AllRight(inodes, Empty(disk), disk, ops)
  }

  lemma OneOffsetSuffices(inodes: seq<Inode>, keys: iset<Key>, n: nat)
    requires Placed(inodes, n) && OneOffsetPerSector(inodes, keys)
    ensures EveryRunRight(inodes, keys, n)
  {
    forall disk: seq<Sector>, ops | |disk| == n && Over(inodes, ops) && KeysFrom(keys, ops)
      ensures AllRight(inodes, Empty(disk), disk, ops)
    {
      AgreeingRun(inodes, keys, Empty(disk), disk, ops);
    }
  }

  lemma TwoOffsetsFail(inodes: seq<Inode>, keys: iset<Key>, n: nat, k: Key, l: Key)
    requires Placed(inodes, n) && k in keys && l in keys && InRange(inodes, k) && InRange(inodes, l)
    requires SectorFor(inodes, k) == SectorFor(inodes, l) && k.offset < l.offset
    ensures !EveryRunRight(inodes, keys, n)
  {
    var disk, ops := StaleRead(inodes, n, k, l);
    assert KeysFrom(keys, ops);
  }

  /** On a fixed set of open inodes, every read of every run that accesses them at the offsets of
      `keys` returns what an uncached disk would, if and only if `keys` has no two offsets in one
      sector. */
  lemma AgreesIffOneOffset(inodes: seq<Inode>, keys: iset<Key>, n: nat)
    requires Placed(inodes, n) && forall k | k in keys :: InRange(inodes, k)
    ensures OneOffsetPerSector(inodes, keys) <==> EveryRunRight(inodes, keys, n)
  {
    if OneOffsetPerSector(inodes, keys) {
      OneOffsetSuffices(inodes, keys, n);
    } else {
      var k, l :| k in keys && l in keys && SectorFor(inodes, k) == SectorFor(inodes, l) && k != l;
      TwoOffsetsFail(inodes, keys, n, if k.offset < l.offset then k else l, if k.offset < l.offset then l else k);
    }
  }

  /** Accesses at the start of sectors are such accesses. */
  lemma AlignedIsOneOffset(inodes: seq<Inode>, keys: iset<Key>, n: nat)
    requires Placed(inodes, n) && forall k | k in keys :: k.offset % SECTOR_SIZE == 0
    ensures OneOffsetPerSector(inodes, keys)
  {
  }

  // ---------- Durability ----------

  /** A stretch of bytes of one sector, accessed always as a whole. */
  datatype Range = Range(key: Key, size: nat)

  /** The ranges are stretches of sectors of inodes, and no two of them overlap. */
  ghost predicate Apart(inodes: seq<Inode>, ranges: iset<Range>) {
    && (forall r | r in ranges :: InRange(inodes, r.key) && 0 < r.size <= SECTOR_SIZE - r.key.offset % SECTOR_SIZE)
    && forall r, q | r in ranges && q in ranges && r != q && r.key.inode == q.key.inode ::
         r.key.offset + r.size <= q.key.offset || q.key.offset + q.size <= r.key.offset
  }

  /** Every access is to exactly one of the ranges. */
  ghost predicate RangesFrom(ranges: iset<Range>, ops: seq<Op>) {
    forall i | 0 <= i < |ops| ::
      && (ops[i].ReadOp? ==> Range(ops[i].key, ops[i].size) in ranges)
      && (ops[i].WriteOp? ==> Range(ops[i].key, |ops[i].bytes|) in ranges)
  }

  ghost predicate OneRangePerSector(inodes: seq<Inode>, ranges: iset<Range>) {
    forall r, q | r in ranges && q in ranges && InRange(inodes, r.key) && InRange(inodes, q.key) && r != q ::
      SectorFor(inodes, r.key) != SectorFor(inodes, q.key)
  }

  /** The disk that is left when everything is written behind at the end of a run. */
  function Settled(inodes: seq<Inode>, disk: seq<Sector>, ops: seq<Op>): (r: seq<Sector>)
    requires Placed(inodes, |disk|) && Over(inodes, ops)
    ensures |r| == |disk|
  {
    BehindAllSound(inodes, Outcome(inodes, Empty(disk), disk, ops).0, 0);
    BehindAll(inodes, Outcome(inodes, Empty(disk), disk, ops).0, 0).disk
  }

  /** After every run on `n` sectors, with accesses to `ranges` only, the disk can be brought to hold
      what was written. */
  ghost predicate EveryRunDurable(inodes: seq<Inode>, ranges: iset<Range>, n: nat)
    requires Placed(inodes, n)
  {
    forall disk: seq<Sector>, ops | |disk| == n && Over(inodes, ops) && RangesFrom(ranges, ops) ::
      Settled(inodes, disk, ops) == Outcome(inodes, Empty(disk), disk, ops).1
  }

  lemma OneRangeSuffices(inodes: seq<Inode>, ranges: iset<Range>, n: nat)
    requires Placed(inodes, n) && Apart(inodes, ranges) && OneRangePerSector(inodes, ranges)
    ensures EveryRunDurable(inodes, ranges, n)
  {
    var keys := iset r | r in ranges :: r.key;
    forall disk: seq<Sector>, ops | |disk| == n && Over(inodes, ops) && RangesFrom(ranges, ops)
      ensures Settled(inodes, disk, ops) == Outcome(inodes, Empty(disk), disk, ops).1
    {
      AgreeingRun(inodes, keys, Empty(disk), disk, ops);
    }
  }

  /** A write that makes a new entry. */
  lemma {:induction false} WriteMiss(inodes: seq<Inode>, s: State, key: Key, bytes: seq<Byte>)
    requires Sound(inodes, s) && InRange(inodes, key) && key.offset % SECTOR_SIZE + |bytes| <= SECTOR_SIZE
    requires |s.entries| < CACHE_SIZE && s.hand.None? && LookUp(s.entries, key, 0).None?
    ensures Step(inodes, s, WriteOp(key, bytes, true)) ==
            (s.(entries := [Stored(Fresh(key, s.disk[SectorFor(inodes, key)]), bytes)] + s.entries), Some([]))
  {
    var e := Fresh(key, s.disk[SectorFor(inodes, key)]);
    assert ([e] + s.entries)[0 := Stored(e, bytes)] == [Stored(e, bytes)] + s.entries;
  }

  /** The entry after a write to it. */
  function Stored(e: Entry, bytes: seq<Byte>): Entry
    requires e.key.offset % SECTOR_SIZE + |bytes| <= SECTOR_SIZE
  {
    Used(e).(data := Splice(e.data, e.key.offset % SECTOR_SIZE, bytes), dirty := true)
  }

  /** Of two dirty entries for one sector, the one at the back of the list is what the disk is left with. */
  lemma {:induction false} PairBehind(inodes: seq<Inode>, s: State)
    requires KeysInRange(inodes, s) && |s.entries| == 2 && s.entries[0].dirty && s.entries[1].dirty
    requires SectorFor(inodes, s.entries[0].key) == SectorFor(inodes, s.entries[1].key)
    ensures BehindAll(inodes, s, 0).disk == s.disk[SectorFor(inodes, s.entries[1].key) := s.entries[1].data]
  {
    var t := BehindOne(inodes, s, 0);
    var u := BehindOne(inodes, t, 1);
    assert BehindAll(inodes, t, 1) == BehindAll(inodes, u, 2) == u;
  }

  /** Two writes to one sector, at different offsets, from an empty cache. Both entries are made from the
      sector as it was on the disk, and written behind in the order of the list; the later write is
      lost. */
  lemma {:induction false} LostUpdate(inodes: seq<Inode>, disk: seq<Sector>, r: Key, q: Key, rBytes: seq<Byte>,
                                      qBytes: seq<Byte>)
    requires Placed(inodes, |disk|) && InRange(inodes, r) && InRange(inodes, q) && r != q
    requires SectorFor(inodes, r) == SectorFor(inodes, q)
    requires r.offset % SECTOR_SIZE + |rBytes| <= SECTOR_SIZE && q.offset % SECTOR_SIZE + |qBytes| <= SECTOR_SIZE
    ensures var ops := [WriteOp(r, rBytes, true), WriteOp(q, qBytes, true)];
            && Settled(inodes, disk, ops) == Written(inodes, disk, r, rBytes)
            && Outcome(inodes, Empty(disk), disk, ops).1 == Written(inodes, Written(inodes, disk, r, rBytes), q, qBytes)
  {
    var t := SectorFor(inodes, r);
    var first, second := WriteOp(r, rBytes, true), WriteOp(q, qBytes, true);
    var ops := [first, second];
    WriteMiss(inodes, Empty(disk), r, rBytes);
    var s := Step(inodes, Empty(disk), first).0;
    assert s.entries == [Stored(Fresh(r, disk[t]), rBytes)];
    assert LookUp(s.entries, q, 0) == None;
    WriteMiss(inodes, s, q, qBytes);
    var u := Step(inodes, s, second).0;
    PairBehind(inodes, u);
    var logical := Written(inodes, disk, r, rBytes);
    assert Outcome(inodes, Empty(disk), disk, ops) == (u, Written(inodes, logical, q, qBytes)) by {
      FirstOf(inodes, s, logical, second, []);
      FirstOf(inodes, Empty(disk), disk, first, [second]);
      assert ops == [first] + [second];
    }
  }

  lemma HeldWritten(inodes: seq<Inode>, disk: seq<Sector>, r: Range, q: Range, bytes: seq<Byte>)
    requires Placed(inodes, |disk|) && Apart(inodes, iset{r, q}) && |bytes| == r.size
    requires SectorFor(inodes, r.key) == SectorFor(inodes, q.key)
    ensures Held(inodes, Written(inodes, disk, r.key, bytes), r.key, r.size) == bytes
    ensures r != q ==> Held(inodes, Written(inodes, disk, r.key, bytes), q.key, q.size) == Held(inodes, disk, q.key, q.size)
  {
  }

  /** The first read of `q` after the cache is lost returns what was there before `q` was written. */
  lemma {:induction false} LostAfterRestart(inodes: seq<Inode>, disk: seq<Sector>, r: Range, q: Range,
                                            rBytes: seq<Byte>, qBytes: seq<Byte>)
    requires Placed(inodes, |disk|) && Apart(inodes, iset{r, q}) && r != q
    requires SectorFor(inodes, r.key) == SectorFor(inodes, q.key) && |rBytes| == r.size && |qBytes| == q.size
    ensures var ops := [WriteOp(r.key, rBytes, true), WriteOp(q.key, qBytes, true)];
            var after := Outcome(inodes, Empty(disk), disk, ops).1;
            && Held(inodes, Settled(inodes, disk, ops), q.key, q.size) == Held(inodes, disk, q.key, q.size)
            && Held(inodes, after, q.key, q.size) == qBytes
  {
    LostUpdate(inodes, disk, r.key, q.key, rBytes, qBytes);
    HeldWritten(inodes, disk, r, q, rBytes);
    HeldWritten(inodes, Written(inodes, disk, r.key, rBytes), q, r, qBytes);
  }

  /** Two ranges of one sector: some run loses a write for good. */
  lemma TwoRangesFail(inodes: seq<Inode>, ranges: iset<Range>, n: nat, r: Range, q: Range)
    returns (disk: seq<Sector>, ops: seq<Op>)
    requires Placed(inodes, n) && Apart(inodes, ranges) && r in ranges && q in ranges && r != q
    requires SectorFor(inodes, r.key) == SectorFor(inodes, q.key)
    ensures |disk| == n && Over(inodes, ops) && RangesFrom(ranges, ops)
    ensures Held(inodes, Settled(inodes, disk, ops), q.key, q.size) !=
            Held(inodes, Outcome(inodes, Empty(disk), disk, ops).1, q.key, q.size)
  {
    var zeros: Sector := seq(SECTOR_SIZE, _ => 0);
    disk := seq(n, _ => zeros);
    var rOnes, qOnes := seq(r.size, _ => 1), seq(q.size, _ => 1);
    ops := [WriteOp(r.key, rOnes, true), WriteOp(q.key, qOnes, true)];
    LostAfterRestart(inodes, disk, r, q, rOnes, qOnes);
    assert Held(inodes, disk, q.key, q.size)[0] == 0 && qOnes[0] == 1;
  }

  /** On a fixed set of open inodes, and for accesses to given ranges that do not overlap, what was
      written reaches the disk in every run, if and only if no two of the ranges are in one sector. */
  lemma DurableIffOneRange(inodes: seq<Inode>, ranges: iset<Range>, n: nat)
    requires Placed(inodes, n) && Apart(inodes, ranges)
    ensures OneRangePerSector(inodes, ranges) <==> EveryRunDurable(inodes, ranges, n)
  {
    if OneRangePerSector(inodes, ranges) {
      OneRangeSuffices(inodes, ranges, n);
    } else {
      var r, q :| r in ranges && q in ranges && InRange(inodes, r.key) && InRange(inodes, q.key) && r != q
                  && SectorFor(inodes, r.key) == SectorFor(inodes, q.key);
      var disk, ops := TwoRangesFail(inodes, ranges, n, r, q);
    }
  }

  /** After every run on `n` sectors, with accesses to `ranges` only, that ends with everything written
      behind, and with an empty cache from there on, every read is right. */
  ghost predicate EveryRestartRight(inodes: seq<Inode>, ranges: iset<Range>, n: nat)
    requires Placed(inodes, n)
  {
    forall disk: seq<Sector>, ops, more |
      && |disk| == n && Over(inodes, ops) && RangesFrom(ranges, ops)
      && Over(inodes, more) && RangesFrom(ranges, more) ::
      AllRight(inodes, Empty(Settled(inodes, disk, ops)), Outcome(inodes, Empty(disk), disk, ops).1, more)
  }

  /** The first read from an empty cache shows where the disk is not what it should be. */
  lemma {:induction false} FirstReadWrong(inodes: seq<Inode>, disk: seq<Sector>, logical: seq<Sector>, q: Range)
    requires Placed(inodes, |disk|) && |logical| == |disk| && Apart(inodes, iset{q})
    requires Held(inodes, disk, q.key, q.size) != Held(inodes, logical, q.key, q.size)
    ensures !AllRight(inodes, Empty(disk), logical, [ReadOp(q.key, q.size, true, false)])
  {
  }

  /** The reads of the next session are right in every run under the same condition. */
  lemma RestartRightIffOneRange(inodes: seq<Inode>, ranges: iset<Range>, n: nat)
    requires Placed(inodes, n) && Apart(inodes, ranges)
    ensures OneRangePerSector(inodes, ranges) <==> EveryRestartRight(inodes, ranges, n)
  {
    if OneRangePerSector(inodes, ranges) {
      OneRangeSuffices(inodes, ranges, n);
      var keys := iset r | r in ranges :: r.key;
      forall disk: seq<Sector>, ops, more |
        && |disk| == n && Over(inodes, ops) && RangesFrom(ranges, ops)
        && Over(inodes, more) && RangesFrom(ranges, more)
        ensures AllRight(inodes, Empty(Settled(inodes, disk, ops)), Outcome(inodes, Empty(disk), disk, ops).1, more)
      {
        AgreeingRun(inodes, keys, Empty(Settled(inodes, disk, ops)), Settled(inodes, disk, ops), more);
      }
    } else {
      var r, q :| r in ranges && q in ranges && InRange(inodes, r.key) && InRange(inodes, q.key) && r != q
                  && SectorFor(inodes, r.key) == SectorFor(inodes, q.key);
      var disk, ops := TwoRangesFail(inodes, ranges, n, r, q);
      WrongAfterRestart(inodes, ranges, disk, ops, q);
    }
  }

  lemma {:induction false} WrongAfterRestart(inodes: seq<Inode>, ranges: iset<Range>, disk: seq<Sector>,
                                             ops: seq<Op>, q: Range)
    requires Placed(inodes, |disk|) && Apart(inodes, ranges) && q in ranges && Over(inodes, ops) && RangesFrom(ranges, ops)
    requires Held(inodes, Settled(inodes, disk, ops), q.key, q.size) !=
             Held(inodes, Outcome(inodes, Empty(disk), disk, ops).1, q.key, q.size)
    ensures !EveryRestartRight(inodes, ranges, |disk|)
  {
    var more := [ReadOp(q.key, q.size, true, false)];
    var settled, after := Settled(inodes, disk, ops), Outcome(inodes, Empty(disk), disk, ops).1;
    FirstReadWrong(inodes, settled, after, q);
    assert Over(inodes, more) && RangesFrom(ranges, more);
  }

  // ---------- Addresses of inodes ----------

  /** Entries are known by the address of their inode, and clean ones outlive its use. A file is read and
      closed, and another one opened at the same address: a read of it returns the bytes of the first. */
  lemma {:induction false} ReusedAddress(inodes: seq<Inode>, disk: seq<Sector>, key: Key, size: nat, other: Inode)
    requires Placed(inodes, |disk|) && InRange(inodes, key) && key.offset % SECTOR_SIZE + size <= SECTOR_SIZE
    requires Placed(inodes[key.inode := other], |disk|) && InRange(inodes[key.inode := other], key)
    ensures var look := ReadOp(key, size, true, false);
            var t := Step(inodes, Step(inodes, Empty(disk), look).0, BehindInodeOp(key.inode)).0;
            && Sound(inodes[key.inode := other], t)
            && Step(inodes[key.inode := other], t, look).1 == Some(Held(inodes, disk, key, size))
  {
    var look := ReadOp(key, size, true, false);
    var e := Fresh(key, disk[SectorFor(inodes, key)]);
    var s := Step(inodes, Empty(disk), look).0;
    assert s.entries == [Used(e)] by {
      assert ([e] + [])[0 := Used(e)] == [Used(e)];
    }
    assert BehindInode(inodes, s, key.inode, 1) == s;
  }

  /** An address is given to another file, while the entries that are known by it are clean: the cache agrees with
      the disk as before if and only if they happen to hold what the other file has there. */
  lemma ReuseAgreesIff(inodes: seq<Inode>, keys: iset<Key>, s: State, logical: seq<Sector>, address: nat, other: Inode)
    requires Agrees(inodes, keys, s, logical) && address < |inodes| && Placed(inodes[address := other], |s.disk|)
    requires forall i | 0 <= i < |s.entries| && s.entries[i].key.inode == address ::
               !s.entries[i].dirty && InRange(inodes[address := other], s.entries[i].key)
    ensures Agrees(inodes[address := other], keys, s, logical) <==>
            forall i | 0 <= i < |s.entries| && s.entries[i].key.inode == address && s.entries[i].key in keys ::
              s.entries[i].data == logical[SectorFor(inodes[address := other], s.entries[i].key)]
  {
    var next := inodes[address := other];
    forall i | 0 <= i < |s.entries| && s.entries[i].key.inode != address
      ensures InRange(next, s.entries[i].key) && SectorFor(next, s.entries[i].key) == SectorFor(inodes, s.entries[i].key)
    {
    }
    forall t | 0 <= t < |s.disk| && Covered(inodes, s, t)
      ensures Covered(next, s, t)
    {
      var i :| 0 <= i < |s.entries| && s.entries[i].dirty && SectorFor(inodes, s.entries[i].key) == t;
      assert s.entries[i].key.inode != address;
    }
  }
}
