/** The slots of a directory as filesys/directory.c keeps them: byte ranges of the directory's file,
    read and written one at a time through the buffer cache. */
module DirectorySlots {
  import opened Common
  import opened CacheSteps
  import opened Nonlinear
  import FileSystem

  /** Slot `i` of the directory `d`, if the slots start `stride` bytes apart. */
  function Slot(d: nat, stride: nat, i: nat): Range {
    Range(Key(d, i * stride), FileSystem.ENTRY_SIZE)
  }

  ghost function Slots(d: nat, stride: nat, cnt: nat): iset<Range> {
    iset i: nat | i < cnt :: Slot(d, stride, i)
  }

  /** The directory has `cnt` slots, of which none runs into the next or over the end of a sector. */
  ghost predicate Layout(inodes: seq<Inode>, d: nat, stride: nat, cnt: nat) {
    && d < |inodes| && stride >= FileSystem.ENTRY_SIZE
    && forall i: nat | i < cnt ::
         var ofs := Slot(d, stride, i).key.offset;
         && ofs + FileSystem.ENTRY_SIZE <= inodes[d].length
         && ofs % SECTOR_SIZE + FileSystem.ENTRY_SIZE <= SECTOR_SIZE
  }

  lemma SlotsApart(inodes: seq<Inode>, d: nat, stride: nat, cnt: nat)
    requires Layout(inodes, d, stride, cnt)
    ensures Apart(inodes, Slots(d, stride, cnt))
  {
    forall r, q | r in Slots(d, stride, cnt) && q in Slots(d, stride, cnt) && r != q
      ensures r.key.offset + r.size <= q.key.offset || q.key.offset + q.size <= r.key.offset
    {
      var i: nat :| i < cnt && r == Slot(d, stride, i);
      var j: nat :| j < cnt && q == Slot(d, stride, j);
      Spaced(stride, if i < j then i else j, if i < j then j else i);
    }
  }

  lemma Spaced(stride: nat, i: nat, j: nat)
    requires i < j
    ensures i * stride + stride <= j * stride
  {
    MulAtMost(i + 1, j, stride);
  }

  lemma SectorsDiffer(inodes: seq<Inode>, d: nat, stride: nat, cnt: nat, i: nat, j: nat)
    requires Layout(inodes, d, stride, cnt) && i < j < cnt && stride >= SECTOR_SIZE
    ensures SectorFor(inodes, Slot(d, stride, i).key) < SectorFor(inodes, Slot(d, stride, j).key)
  {
    Spaced(stride, i, j);
    assert j * stride / SECTOR_SIZE > i * stride / SECTOR_SIZE;
  }

  /** What was written into the slots reaches the disk in every run, and is read again after it, if and
      only if the slots are a sector or more apart. */
  lemma DurableIffSectorApart(inodes: seq<Inode>, d: nat, stride: nat, cnt: nat, n: nat)
    requires Placed(inodes, n) && Layout(inodes, d, stride, cnt) && cnt >= 2
    ensures EveryRunDurable(inodes, Slots(d, stride, cnt), n) <==> stride >= SECTOR_SIZE
    ensures EveryRestartRight(inodes, Slots(d, stride, cnt), n) <==> stride >= SECTOR_SIZE
  {
    var slots := Slots(d, stride, cnt);
    SlotsApart(inodes, d, stride, cnt);
    DurableIffOneRange(inodes, slots, n);
    RestartRightIffOneRange(inodes, slots, n);
    assert OneRangePerSector(inodes, slots) <==> stride >= SECTOR_SIZE by {
      SlotsShare(inodes, d, stride, cnt);
    }
  }

  lemma SlotsShare(inodes: seq<Inode>, d: nat, stride: nat, cnt: nat)
    requires Layout(inodes, d, stride, cnt) && cnt >= 2
    ensures OneRangePerSector(inodes, Slots(d, stride, cnt)) <==> stride >= SECTOR_SIZE
  {
    var slots := Slots(d, stride, cnt);
    if stride >= SECTOR_SIZE {
      forall r, q | r in slots && q in slots && InRange(inodes, r.key) && InRange(inodes, q.key) && r != q
        ensures SectorFor(inodes, r.key) != SectorFor(inodes, q.key)
      {
        var i: nat :| i < cnt && r == Slot(d, stride, i);
        var j: nat :| j < cnt && q == Slot(d, stride, j);
        SectorsDiffer(inodes, d, stride, cnt, if i < j then i else j, if i < j then j else i);
      }
    } else {
      assert Slot(d, stride, 0) in slots && Slot(d, stride, 1) in slots;
      assert Slot(d, stride, 0).key == Key(d, 0) && Slot(d, stride, 1).key == Key(d, stride);
    }
  }

  /** The root directory has its slots one behind the other, and so some run loses what was written
      into one of them. */
  lemma RootDirectoryNotDurable(inodes: seq<Inode>, d: nat, n: nat)
    requires Placed(inodes, n) && d < |inodes|
    requires inodes[d].length == FileSystem.ROOT_ENTRIES * FileSystem.ENTRY_SIZE
    ensures var slots := Slots(d, FileSystem.ENTRY_SIZE, FileSystem.ROOT_ENTRIES);
            !EveryRunDurable(inodes, slots, n) && !EveryRestartRight(inodes, slots, n)
  {
    DurableIffSectorApart(inodes, d, FileSystem.ENTRY_SIZE, FileSystem.ROOT_ENTRIES, n);
  }

  /** Every access that the cache makes for a byte of a file is to a sector of that file. */
  lemma AccessIsInside(freeMap: seq<bool>, disk: seq<FileSystem.Block>, s: nat, pos: nat)
    requires FileSystem.FileOk(freeMap, disk, s) && pos < FileSystem.TakenFor(disk[s]).length
    ensures var d := FileSystem.TakenFor(disk[s]);
            var t := ByteToSector(Inode(d.start, d.length), pos);
            t.Some? && t.value < |disk| && t.value != s && FileSystem.PartOf(disk, s, t.value)
  {
    var d := FileSystem.TakenFor(disk[s]);
    FileSystem.ExtentHoldsBytes(d);
    assert FileSystem.InExtent(d, FileSystem.SectorAt(d, pos));
  }

  // ---------- A removed name comes back ----------

  /** A read that makes a new entry, in an inode of one sector, where there is nothing to read ahead. */
  lemma {:induction false} ReadMiss(inodes: seq<Inode>, s: State, key: Key, size: nat)
    requires Sound(inodes, s) && InRange(inodes, key) && key.offset % SECTOR_SIZE + size <= SECTOR_SIZE
    requires |s.entries| < CACHE_SIZE && s.hand.None? && LookUp(s.entries, key, 0).None?
    requires inodes[key.inode].length <= SECTOR_SIZE
    requires forall i | 0 <= i < |s.entries| :: InRange(inodes, s.entries[i].key)
    ensures Step(inodes, s, ReadOp(key, size, true, true)).0 ==
            s.(entries := [Used(Fresh(key, s.disk[SectorFor(inodes, key)]))] + s.entries)
  {
  }

  lemma WriteHit(inodes: seq<Inode>, s: State, i: nat, bytes: seq<Byte>)
    requires Sound(inodes, s) && i < |s.entries| && s.entries[i].key.offset % SECTOR_SIZE + |bytes| <= SECTOR_SIZE
    requires LookUp(s.entries, s.entries[i].key, 0) == Some(i)
    ensures Step(inodes, s, WriteOp(s.entries[i].key, bytes, true)) ==
            (s.(entries := s.entries[i := Stored(s.entries[i], bytes)]), Some([]))
  {
  }

  /** One dirty entry of two is written. */
  lemma {:induction false} PairInode(inodes: seq<Inode>, s: State, i: nat)
    requires KeysInRange(inodes, s) && |s.entries| == 2 && i < 2 && s.entries[i].dirty && !s.entries[1 - i].dirty
    ensures BehindInode(inodes, s, s.entries[i].key.inode, 0) == WriteBehind(inodes, s, i)
  {
    var d, t := s.entries[i].key.inode, WriteBehind(inodes, s, i);
    assert BehindInode(inodes, t, d, 2) == t;
    if i == 0 {
      assert BehindInode(inodes, t, d, 1) == t;
    } else {
      assert BehindInode(inodes, s, d, 1) == t;
    }
  }

  function Looks(r: Key, q: Key, rSize: nat, qSize: nat): seq<Op> {
    [ReadOp(r, rSize, true, true), ReadOp(q, qSize, true, true)]
  }

  /** A slot is written, and the directory is closed. */
  function Erase(key: Key, bytes: seq<Byte>): seq<Op> {
    [WriteOp(key, bytes, true), BehindInodeOp(key.inode)]
  }

  /** The cache has two entries, and neither is dirty. */
  ghost predicate TwoClean(inodes: seq<Inode>, s: State) {
    && Sound(inodes, s) && |s.entries| == 2 && s.entries[0].key != s.entries[1].key
    && !s.entries[0].dirty && !s.entries[1].dirty
  }

  /** Two clean entries for one sector. */
  function Both(inodes: seq<Inode>, disk: seq<Sector>, r: Key, q: Key): (s: State)
    requires Placed(inodes, |disk|) && InRange(inodes, r) && InRange(inodes, q) && r != q
    ensures TwoClean(inodes, s) && s.entries[0].key == q && s.entries[1].key == r && s.disk == disk
  {
    State(disk, [Used(Fresh(q, disk[SectorFor(inodes, q)])), Used(Fresh(r, disk[SectorFor(inodes, r)]))], None)
  }

  /** Entry `i` was written, and then the sector with its data. */
  function Erased(inodes: seq<Inode>, s: State, i: nat, bytes: seq<Byte>): (r: State)
    requires TwoClean(inodes, s) && i < 2 && s.entries[i].key.offset % SECTOR_SIZE + |bytes| <= SECTOR_SIZE
    ensures TwoClean(inodes, r) && |r.disk| == |s.disk|
    ensures r.entries[0].key == s.entries[0].key && r.entries[1].key == s.entries[1].key
  {
    var e := Stored(s.entries[i], bytes);
    s.(disk := s.disk[SectorFor(inodes, e.key) := e.data], entries := s.entries[i := Unmarked(e).(dirty := false)])
  }

  lemma {:induction false} AfterLooks(inodes: seq<Inode>, disk: seq<Sector>, r: Key, q: Key, rSize: nat, qSize: nat,
                                      rest: seq<Op>, end: (State, seq<Sector>))
    requires Placed(inodes, |disk|) && InRange(inodes, r) && InRange(inodes, q) && r != q && r.inode == q.inode
    requires inodes[r.inode].length <= SECTOR_SIZE && Over(inodes, rest)
    requires r.offset % SECTOR_SIZE + rSize <= SECTOR_SIZE && q.offset % SECTOR_SIZE + qSize <= SECTOR_SIZE
    requires Outcome(inodes, Both(inodes, disk, r, q), disk, rest) == end
    ensures Over(inodes, Looks(r, q, rSize, qSize) + rest)
    ensures Outcome(inodes, Empty(disk), disk, Looks(r, q, rSize, qSize) + rest) == end
  {
    var first, second := ReadOp(r, rSize, true, true), ReadOp(q, qSize, true, true);
    ReadMiss(inodes, Empty(disk), r, rSize);
    var s := Step(inodes, Empty(disk), first).0;
    assert LookUp(s.entries, q, 0) == None;
    ReadMiss(inodes, s, q, qSize);
    assert Step(inodes, s, second).0 == Both(inodes, disk, r, q);
    FirstOf(inodes, s, disk, second, rest);
    FirstOf(inodes, Empty(disk), disk, first, [second] + rest);
    assert Looks(r, q, rSize, qSize) + rest == [first] + ([second] + rest);
  }

  lemma {:induction false} AfterErase(inodes: seq<Inode>, s: State, logical: seq<Sector>, i: nat, bytes: seq<Byte>,
                                      rest: seq<Op>, end: (State, seq<Sector>))
    requires TwoClean(inodes, s) && |logical| == |s.disk| && i < 2 && Over(inodes, rest)
    requires s.entries[i].key.offset % SECTOR_SIZE + |bytes| <= SECTOR_SIZE
    requires Outcome(inodes, Erased(inodes, s, i, bytes), Written(inodes, logical, s.entries[i].key, bytes), rest) == end
    ensures Over(inodes, Erase(s.entries[i].key, bytes) + rest)
    ensures Outcome(inodes, s, logical, Erase(s.entries[i].key, bytes) + rest) == end
  {
    var e := s.entries[i];
    var write, behind := WriteOp(e.key, bytes, true), BehindInodeOp(e.key.inode);
    assert LookUp(s.entries, e.key, 0) == Some(i);
    WriteHit(inodes, s, i, bytes);
    var t := Step(inodes, s, write).0;
    PairInode(inodes, t, i);
    assert WriteBehind(inodes, t, i) == Erased(inodes, s, i, bytes);
    var after := Written(inodes, logical, e.key, bytes);
    FirstOf(inodes, t, after, behind, rest);
    FirstOf(inodes, s, logical, write, [behind] + rest);
    assert Erase(e.key, bytes) + rest == [write] + ([behind] + rest);
  }

  /** Two slots are looked at; then one and the other is written, and the directory is closed after
      each. */
  function EraseBoth(r: Key, q: Key, rBytes: seq<Byte>, qBytes: seq<Byte>, rest: seq<Op>): seq<Op> {
    Looks(r, q, |rBytes|, |qBytes|) + (Erase(q, qBytes) + (Erase(r, rBytes) + rest))
  }

  lemma {:induction false} ErasedBoth(inodes: seq<Inode>, disk: seq<Sector>, r: Key, q: Key, rBytes: seq<Byte>,
                                      qBytes: seq<Byte>, t: State, after: seq<Sector>, rest: seq<Op>,
                                      end: (State, seq<Sector>))
    requires Placed(inodes, |disk|) && InRange(inodes, r) && InRange(inodes, q) && r != q && r.inode == q.inode
    requires inodes[r.inode].length <= SECTOR_SIZE && Over(inodes, rest)
    requires r.offset % SECTOR_SIZE + |rBytes| <= SECTOR_SIZE && q.offset % SECTOR_SIZE + |qBytes| <= SECTOR_SIZE
    requires t == Erased(inodes, Both(inodes, disk, r, q), 0, qBytes) && after == Written(inodes, disk, q, qBytes)
    requires Outcome(inodes, Erased(inodes, t, 1, rBytes), Written(inodes, after, r, rBytes), rest) == end
    ensures Over(inodes, EraseBoth(r, q, rBytes, qBytes, rest))
    ensures Outcome(inodes, Empty(disk), disk, EraseBoth(r, q, rBytes, qBytes, rest)) == end
  {
    var last := Erase(r, rBytes) + rest;
    AfterLooks(inodes, disk, r, q, |rBytes|, |qBytes|, Erase(q, qBytes) + last, end) by {
      AfterErase(inodes, Both(inodes, disk, r, q), disk, 0, qBytes, last, end) by {
        AfterErase(inodes, t, after, 1, rBytes, rest, end);
      }
    }
  }

  /** What the two erasures leave on the disk, and what they should have left. */
  lemma LastWins(inodes: seq<Inode>, disk: seq<Sector>, r: Range, q: Range, rBytes: seq<Byte>, qBytes: seq<Byte>)
    requires Placed(inodes, |disk|) && Apart(inodes, iset{r, q}) && r != q && |rBytes| == r.size && |qBytes| == q.size
    requires SectorFor(inodes, r.key) == SectorFor(inodes, q.key)
    ensures var t := Erased(inodes, Erased(inodes, Both(inodes, disk, r.key, q.key), 0, qBytes), 1, rBytes);
            && t.disk == Written(inodes, disk, r.key, rBytes) && forall i | 0 <= i < |t.entries| :: !t.entries[i].dirty
    ensures Held(inodes, Written(inodes, disk, r.key, rBytes), r.key, r.size) == rBytes
    ensures Held(inodes, Written(inodes, disk, r.key, rBytes), q.key, q.size) == Held(inodes, disk, q.key, q.size)
    ensures Held(inodes, Written(inodes, Written(inodes, disk, q.key, qBytes), r.key, rBytes), q.key, q.size) == qBytes
  {
  }

  /** A slot that was erased, and written to the disk as erased, is back on the disk as it was before,
      when another slot is erased that was in the cache at the time. */
  lemma SlotComesBack(inodes: seq<Inode>, disk: seq<Sector>, r: Range, q: Range, rBytes: seq<Byte>, qBytes: seq<Byte>)
    returns (t: State, after: seq<Sector>)
    requires Placed(inodes, |disk|) && Apart(inodes, iset{r, q}) && r != q && r.key.inode == q.key.inode
    requires inodes[r.key.inode].length <= SECTOR_SIZE && |rBytes| == r.size && |qBytes| == q.size
    ensures |after| == |t.disk| == |disk|
    ensures Over(inodes, EraseBoth(r.key, q.key, rBytes, qBytes, []))
    ensures Outcome(inodes, Empty(disk), disk, EraseBoth(r.key, q.key, rBytes, qBytes, [])) == (t, after)
    ensures Held(inodes, t.disk, r.key, r.size) == rBytes
    ensures Held(inodes, t.disk, q.key, q.size) == Held(inodes, disk, q.key, q.size)
    ensures Held(inodes, after, q.key, q.size) == qBytes
    ensures forall i | 0 <= i < |t.entries| :: !t.entries[i].dirty
  {
    var u := Erased(inodes, Both(inodes, disk, r.key, q.key), 0, qBytes);
    t := Erased(inodes, u, 1, rBytes);
    var once := Written(inodes, disk, q.key, qBytes);
    after := Written(inodes, once, r.key, rBytes);
    LastWins(inodes, disk, r, q, rBytes, qBytes);
    ErasedBoth(inodes, disk, r.key, q.key, rBytes, qBytes, u, once, [], (t, after));
  }

  // ---------- Records in the slots ----------

  /** The characters before the first zero. */
  function Terminated(bytes: seq<Byte>): string {
    if bytes == [] || bytes[0] == 0 then "" else [bytes[0] as char] + Terminated(bytes[1..])
  }

  /** The record in the bytes of a slot. */
  function Decoded(bytes: seq<Byte>): FileSystem.DirEntry
    requires |bytes| == FileSystem.ENTRY_SIZE
  {
    FileSystem.DirEntry(FileSystem.WordAt(bytes, 0), Terminated(bytes[4..19]), bytes[19] != 0)
  }

  predicate Encodable(e: FileSystem.DirEntry) {
    && e.sector < 0x1_0000_0000 && |e.name| <= FileSystem.NAME_MAX
    && forall i | 0 <= i < |e.name| :: 0 < e.name[i] as int < 0x100
  }

  function Octet(x: nat, unit: nat): Byte
    requires unit > 0
  {
    x / unit % 0x100
  }

  /** Bytes that hold a record. */
  function Encoded(e: FileSystem.DirEntry): (r: seq<Byte>)
    requires Encodable(e)
    ensures |r| == FileSystem.ENTRY_SIZE
  {
    [Octet(e.sector, 1), Octet(e.sector, 0x100), Octet(e.sector, 0x1_0000), Octet(e.sector, 0x100_0000)] +
    Named(e.name) + [if e.inUse then 1 else 0]
  }

  /** A name with zeros behind it. */
  function Named(name: string): (r: seq<Byte>)
    requires |name| <= FileSystem.NAME_MAX && forall i | 0 <= i < |name| :: 0 < name[i] as int < 0x100
    ensures |r| == 15
  {
    seq(15, i requires 0 <= i < 15 => if i < |name| then name[i] as int else 0)
  }

  lemma {:induction false} TerminatedName(bytes: seq<Byte>, name: string)
    requires |name| < |bytes| && bytes[|name|] == 0
    requires forall i | 0 <= i < |name| :: 0 < bytes[i] && bytes[i] == name[i] as int
    ensures Terminated(bytes) == name
  {
    if name != [] {
      TerminatedName(bytes[1..], name[1..]);
      assert name == [bytes[0] as char] + name[1..];
    }
  }

  lemma DecodedEncoded(e: FileSystem.DirEntry)
    requires Encodable(e)
    ensures Decoded(Encoded(e)) == e
  {
    var r := Encoded(e);
    assert r[4..19] == Named(e.name);
    TerminatedName(Named(e.name), e.name);
    OctetsMakeWord(e.sector);
    assert r[0] == Octet(e.sector, 1) && r[1] == Octet(e.sector, 0x100);
    assert r[2] == Octet(e.sector, 0x1_0000) && r[3] == Octet(e.sector, 0x100_0000);
    assert FileSystem.WordAt(r, 0) == e.sector;
  }

  lemma OctetsMakeWord(x: nat)
    requires x < 0x1_0000_0000
    ensures x == Octet(x, 1) as int + 0x100 * Octet(x, 0x100) as int + 0x1_0000 * Octet(x, 0x1_0000) as int
               + 0x100_0000 * Octet(x, 0x100_0000) as int
  {
  }

  /** The records that a disk holds in the slots of a directory. */
  function Records(inodes: seq<Inode>, disk: seq<Sector>, d: nat, stride: nat, cnt: nat): seq<FileSystem.DirEntry>
    requires Placed(inodes, |disk|) && Layout(inodes, d, stride, cnt)
  {
    seq(cnt, i requires 0 <= i < cnt => Decoded(Held(inodes, disk, Slot(d, stride, i).key, FileSystem.ENTRY_SIZE)))
  }

  /** Only records are written. */
  ghost predicate WritesRecords(ops: seq<Op>) {
    forall i | 0 <= i < |ops| && ops[i].WriteOp? ::
      exists e | Encodable(e) :: ops[i].bytes == Encoded(e)
  }

  /** After every run of reads and writes of records, everything written behind, the slots hold the records
      that were written last. */
  ghost predicate EveryRunRecorded(inodes: seq<Inode>, d: nat, stride: nat, cnt: nat, n: nat)
    requires Placed(inodes, n) && Layout(inodes, d, stride, cnt)
  {
    forall disk: seq<Sector>, ops |
      |disk| == n && Over(inodes, ops) && RangesFrom(Slots(d, stride, cnt), ops) && WritesRecords(ops) ::
      Records(inodes, Settled(inodes, disk, ops), d, stride, cnt) ==
      Records(inodes, Outcome(inodes, Empty(disk), disk, ops).1, d, stride, cnt)
  }

  /** The directory is read as it was written, after every run, if and only if its slots are a sector or more
      apart. */
  lemma RecordedIffSectorApart(inodes: seq<Inode>, d: nat, stride: nat, cnt: nat, n: nat)
    requires Placed(inodes, n) && Layout(inodes, d, stride, cnt) && cnt >= 2
    ensures EveryRunRecorded(inodes, d, stride, cnt, n) <==> stride >= SECTOR_SIZE
  {
    DurableIffSectorApart(inodes, d, stride, cnt, n);
    if stride < SECTOR_SIZE {
      RecordLost(inodes, d, stride, cnt, n);
    }
  }

  lemma RecordLost(inodes: seq<Inode>, d: nat, stride: nat, cnt: nat, n: nat)
    requires Placed(inodes, n) && Layout(inodes, d, stride, cnt) && cnt >= 2 && stride < SECTOR_SIZE
    ensures !EveryRunRecorded(inodes, d, stride, cnt, n)
  {
    var zeros: Sector := seq(SECTOR_SIZE, _ => 0);
    var disk: seq<Sector> := seq(n, _ => zeros);
    var e := FileSystem.DirEntry(2, "a", true);
    DecodedEncoded(e);
    var ops := WriteLost(inodes, disk, d, stride, cnt, Encoded(e));
    assert WritesRecords(ops);
    var settled, after := Settled(inodes, disk, ops), Outcome(inodes, Empty(disk), disk, ops).1;
    assert Held(inodes, settled, Slot(d, stride, 1).key, FileSystem.ENTRY_SIZE)[19] == 0;
    RecordsDiffer(inodes, settled, after, d, stride, cnt, 1);
  }

  lemma WriteLost(inodes: seq<Inode>, disk: seq<Sector>, d: nat, stride: nat, cnt: nat, bytes: seq<Byte>)
    returns (ops: seq<Op>)
    requires Placed(inodes, |disk|) && Layout(inodes, d, stride, cnt) && cnt >= 2 && stride < SECTOR_SIZE
    requires |bytes| == FileSystem.ENTRY_SIZE
    ensures Over(inodes, ops) && RangesFrom(Slots(d, stride, cnt), ops)
    ensures forall i | 0 <= i < |ops| :: ops[i].WriteOp? && ops[i].bytes == bytes
    ensures var q := Slot(d, stride, 1);
            && Held(inodes, Settled(inodes, disk, ops), q.key, q.size) == Held(inodes, disk, q.key, q.size)
            && Held(inodes, Outcome(inodes, Empty(disk), disk, ops).1, q.key, q.size) == bytes
  {
    var r, q := Slot(d, stride, 0), Slot(d, stride, 1);
    ops := [WriteOp(r.key, bytes, true), WriteOp(q.key, bytes, true)];
    assert r.key == Key(d, 0) && q.key == Key(d, stride);
    LostAfterRestart(inodes, disk, r, q, bytes, bytes);
    assert r in Slots(d, stride, cnt) && q in Slots(d, stride, cnt);
  }

  lemma RecordsDiffer(inodes: seq<Inode>, x: seq<Sector>, y: seq<Sector>, d: nat, stride: nat, cnt: nat, i: nat)
    requires Placed(inodes, |x|) && |y| == |x| && Layout(inodes, d, stride, cnt) && i < cnt
    requires Decoded(Held(inodes, x, Slot(d, stride, i).key, FileSystem.ENTRY_SIZE)) !=
             Decoded(Held(inodes, y, Slot(d, stride, i).key, FileSystem.ENTRY_SIZE))
    ensures Records(inodes, x, d, stride, cnt) != Records(inodes, y, d, stride, cnt)
  {
    assert Records(inodes, x, d, stride, cnt)[i] != Records(inodes, y, d, stride, cnt)[i];
  }

  // ---------- A directory of one sector ----------

  lemma DecodedErased(bytes: seq<Byte>)
    requires |bytes| == FileSystem.ENTRY_SIZE
    ensures Decoded(bytes[19 := 0]) == Decoded(bytes).(inUse := false)
  {
  }

  /** A write into slot `i` changes the record there and no other. */
  lemma RecordWritten(inodes: seq<Inode>, disk: seq<Sector>, d: nat, stride: nat, cnt: nat, i: nat, bytes: seq<Byte>)
    requires Placed(inodes, |disk|) && Layout(inodes, d, stride, cnt) && i < cnt && |bytes| == FileSystem.ENTRY_SIZE
    requires inodes[d].length <= SECTOR_SIZE
    ensures Records(inodes, Written(inodes, disk, Slot(d, stride, i).key, bytes), d, stride, cnt) ==
            Records(inodes, disk, d, stride, cnt)[i := Decoded(bytes)]
  {
    var after := Written(inodes, disk, Slot(d, stride, i).key, bytes);
    forall k | 0 <= k < cnt
      ensures Records(inodes, after, d, stride, cnt)[k] == Records(inodes, disk, d, stride, cnt)[i := Decoded(bytes)][k]
    {
      SlotWritten(inodes, disk, d, stride, cnt, i, bytes, k);
    }
  }

  lemma SlotWritten(inodes: seq<Inode>, disk: seq<Sector>, d: nat, stride: nat, cnt: nat, i: nat, bytes: seq<Byte>,
                    k: nat)
    requires Placed(inodes, |disk|) && Layout(inodes, d, stride, cnt) && i < cnt && k < cnt && |bytes| == FileSystem.ENTRY_SIZE
    requires inodes[d].length <= SECTOR_SIZE
    ensures var r, q := Slot(d, stride, i), Slot(d, stride, k);
            Held(inodes, Written(inodes, disk, r.key, bytes), q.key, q.size) ==
            if k == i then bytes else Held(inodes, disk, q.key, q.size)
  {
    var r, q := Slot(d, stride, i), Slot(d, stride, k);
    SlotsApart(inodes, d, stride, cnt);
    assert r in Slots(d, stride, cnt) && q in Slots(d, stride, cnt);
    if i != k {
      Spaced(stride, if i < k then i else k, if i < k then k else i);
    }
    HeldWritten(inodes, disk, r, q, bytes);
  }

  /** The bytes of slot `i`, erased. */
  function ErasedBytes(inodes: seq<Inode>, disk: seq<Sector>, d: nat, stride: nat, cnt: nat, i: nat): (r: seq<Byte>)
    requires Placed(inodes, |disk|) && Layout(inodes, d, stride, cnt) && i < cnt
    ensures |r| == FileSystem.ENTRY_SIZE
  {
    Held(inodes, disk, Slot(d, stride, i).key, FileSystem.ENTRY_SIZE)[19 := 0]
  }

  /** Slot 1 is erased, then slot 0, and then a record is written into slot 0; the directory is closed after
      each. Nothing is left to be written behind, and slot 1 is back on the disk as it was at first. */
  lemma FirstSlotAgain(inodes: seq<Inode>, disk: seq<Sector>, d: nat, stride: nat, cnt: nat, bytes: seq<Byte>)
    returns (ops: seq<Op>, t: State, after: seq<Sector>)
    requires Placed(inodes, |disk|) && Layout(inodes, d, stride, cnt) && cnt >= 2
    requires inodes[d].length <= SECTOR_SIZE && |bytes| == FileSystem.ENTRY_SIZE
    ensures Over(inodes, ops) && RangesFrom(Slots(d, stride, cnt), ops)
    ensures Outcome(inodes, Empty(disk), disk, ops) == (t, after) && |t.disk| == |after| == |disk|
    ensures forall i | 0 <= i < |t.entries| :: !t.entries[i].dirty
    ensures Records(inodes, t.disk, d, stride, cnt) == Records(inodes, disk, d, stride, cnt)[0 := Decoded(bytes)]
    ensures Records(inodes, after, d, stride, cnt) ==
            var e := Records(inodes, disk, d, stride, cnt)[1];
            Records(inodes, disk, d, stride, cnt)[0 := Decoded(bytes)][1 := e.(inUse := false)]
  {
    var r, q := Slot(d, stride, 0).key, Slot(d, stride, 1).key;
    var a, b := ErasedBytes(inodes, disk, d, stride, cnt, 0), ErasedBytes(inodes, disk, d, stride, cnt, 1);
    assert r == Key(d, 0) && q == Key(d, stride) && SectorFor(inodes, r) == SectorFor(inodes, q);
    var u := Erased(inodes, Both(inodes, disk, r, q), 0, b);
    var v := Erased(inodes, u, 1, a);
    t := Erased(inodes, v, 1, bytes);
    var once := Written(inodes, disk, q, b);
    var twice := Written(inodes, once, r, a);
    after := Written(inodes, twice, r, bytes);
    ops := EraseBoth(r, q, a, b, Erase(r, bytes) + []);
    ErasedThrice(inodes, disk, r, q, a, b, bytes, u, v, once);
    assert t.disk == Written(inodes, Written(inodes, disk, r, a), r, bytes);
    RangesOfErase(d, stride, cnt, a, b, bytes);
    RecordsLeft(inodes, disk, d, stride, cnt, a, b, bytes);
  }

  lemma {:induction false} ErasedThrice(inodes: seq<Inode>, disk: seq<Sector>, r: Key, q: Key, a: seq<Byte>,
                                        b: seq<Byte>, bytes: seq<Byte>, u: State, v: State, once: seq<Sector>)
    requires Placed(inodes, |disk|) && InRange(inodes, r) && InRange(inodes, q) && r != q && r.inode == q.inode
    requires inodes[r.inode].length <= SECTOR_SIZE && |bytes| == |a|
    requires r.offset % SECTOR_SIZE + |a| <= SECTOR_SIZE && q.offset % SECTOR_SIZE + |b| <= SECTOR_SIZE
    requires u == Erased(inodes, Both(inodes, disk, r, q), 0, b) && v == Erased(inodes, u, 1, a)
    requires once == Written(inodes, disk, q, b)
    ensures var ops := EraseBoth(r, q, a, b, Erase(r, bytes) + []);
            && Over(inodes, ops)
            && Outcome(inodes, Empty(disk), disk, ops) ==
               (Erased(inodes, v, 1, bytes), Written(inodes, Written(inodes, once, r, a), r, bytes))
  {
    var t, twice := Erased(inodes, v, 1, bytes), Written(inodes, once, r, a);
    var after := Written(inodes, twice, r, bytes);
    ErasedBoth(inodes, disk, r, q, a, b, u, once, Erase(r, bytes) + [], (t, after)) by {
      AfterErase(inodes, v, twice, 1, bytes, [], (t, after));
    }
  }

  lemma RangesOfErase(d: nat, stride: nat, cnt: nat, a: seq<Byte>, b: seq<Byte>, bytes: seq<Byte>)
    requires cnt >= 2 && |a| == |b| == |bytes| == FileSystem.ENTRY_SIZE
    ensures var r, q := Slot(d, stride, 0).key, Slot(d, stride, 1).key;
            RangesFrom(Slots(d, stride, cnt), EraseBoth(r, q, a, b, Erase(r, bytes) + []))
  {
  }

  /** The records on the disk, and those that were written. */
  lemma RecordsLeft(inodes: seq<Inode>, disk: seq<Sector>, d: nat, stride: nat, cnt: nat, a: seq<Byte>, b: seq<Byte>,
                    bytes: seq<Byte>)
    requires Placed(inodes, |disk|) && Layout(inodes, d, stride, cnt) && cnt >= 2
    requires inodes[d].length <= SECTOR_SIZE && |a| == |bytes| == FileSystem.ENTRY_SIZE
    requires b == ErasedBytes(inodes, disk, d, stride, cnt, 1)
    ensures var r, q := Slot(d, stride, 0).key, Slot(d, stride, 1).key;
            var first := Records(inodes, disk, d, stride, cnt);
            && Records(inodes, Written(inodes, Written(inodes, disk, r, a), r, bytes), d, stride, cnt)
               == first[0 := Decoded(bytes)]
            && Records(inodes, Written(inodes, Written(inodes, Written(inodes, disk, q, b), r, a), r, bytes), d, stride, cnt)
               == first[0 := Decoded(bytes)][1 := first[1].(inUse := false)]
  {
    var r, q := Slot(d, stride, 0).key, Slot(d, stride, 1).key;
    RecordWritten(inodes, disk, d, stride, cnt, 0, a);
    RecordWritten(inodes, Written(inodes, disk, r, a), d, stride, cnt, 0, bytes);
    RecordWritten(inodes, disk, d, stride, cnt, 1, b);
    RecordWritten(inodes, Written(inodes, disk, q, b), d, stride, cnt, 0, a);
    RecordWritten(inodes, Written(inodes, Written(inodes, disk, q, b), r, a), d, stride, cnt, 0, bytes);
    DecodedErased(Held(inodes, disk, q, FileSystem.ENTRY_SIZE));
  }
}
