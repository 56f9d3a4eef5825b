/** Files on disk: the free map, inodes, the root directory and the operations on named files, of
    filesys/free-map.c, inode.c, directory.c and filesys.c. The blocks of a removed file are given
    back when its last opener closes it. The slots of the directory are read and written through the
    buffer cache, so that what is read need not be what was written: every operation takes what its
    reads of the directory return. */
module FileSystem {
  import opened Common
  import opened Bitmaps

  const FREE_MAP_SECTOR: nat := 0
  const ROOT_DIR_SECTOR: nat := 1
  const NAME_MAX: nat := 14
  const ROOT_ENTRIES: nat := 16
  const ENTRY_SIZE: nat := 20

  datatype DiskInode = DiskInode(start: nat, length: nat)

  /** A sector of the disk. */
  datatype Block = InodeBlock(inode: DiskInode) | DataBlock(bytes: seq<Byte>)

  datatype DirEntry = DirEntry(sector: nat, name: string, inUse: bool)

  datatype OpenInode = OpenInode(sector: nat, openCnt: nat, removed: bool, data: DiskInode)

  function SectorsFor(length: nat): nat {
    (length + SECTOR_SIZE - 1) / SECTOR_SIZE
  }

  /** The sectors of the file that holds the free map of `n` sectors. */
  function MapSectors(n: nat): nat {
    SectorsFor(4 * WordCount(n))
  }

  function Zeros(): seq<Byte> {
    seq(SECTOR_SIZE, _ => 0)
  }

  /** The little-endian word at an offset. */
  function WordAt(bytes: seq<Byte>, i: nat): nat {
    if i + 4 > |bytes| then 0
    else
      var w: seq<int> := bytes[i..i + 4];
      w[0] + 0x100 * w[1] + 0x1_0000 * w[2] + 0x100_0000 * w[3]
  }

  /** The inode that a sector is taken for, whatever it holds. */
  function TakenFor(b: Block): DiskInode {
    match b
    case InodeBlock(d) => d
    case DataBlock(bytes) => DiskInode(WordAt(bytes, 0), WordAt(bytes, 4))
  }

  /** Sector `t` is in the extent of an inode. */
  predicate InExtent(d: DiskInode, t: nat) {
    d.start <= t < d.start + SectorsFor(d.length)
  }

  /** The sector where byte_to_sector finds the byte at an offset. */
  function SectorAt(d: DiskInode, pos: nat): nat {
    d.start + pos / SECTOR_SIZE
  }

  /** Every byte of the file has a sector of the extent, and every sector of the extent a byte of the file. */
  ghost predicate HoldsBytes(d: DiskInode) {
    && (forall pos: nat | pos < d.length :: InExtent(d, SectorAt(d, pos)))
    && (forall t: nat | InExtent(d, t) :: (t - d.start) * SECTOR_SIZE < d.length)
  }

  lemma ExtentHoldsBytes(d: DiskInode)
    ensures HoldsBytes(d)
  {
  }

  /** The blocks of a file are those that have a byte of it. */
  lemma BlocksHaveBytes(length: nat, k: nat)
    ensures k < SectorsFor(length) <==> k * SECTOR_SIZE < length
  {
  }

  /** Sector `t` is the one with the inode of the file `s`, or one of its data. */
  predicate PartOf(disk: seq<Block>, s: nat, t: nat) {
    s < |disk| && (t == s || InExtent(TakenFor(disk[s]), t))
  }

  /** The sectors of the file `s` are sectors of the disk, its inode is not among its data, and they are
      all marked. */
  ghost predicate FileOk(freeMap: seq<bool>, disk: seq<Block>, s: nat) {
    && |disk| == |freeMap| && s < |disk|
    && TakenFor(disk[s]).start + SectorsFor(TakenFor(disk[s]).length) <= |disk|
    && !InExtent(TakenFor(disk[s]), s)
    && forall t: nat | t < |disk| && PartOf(disk, s, t) :: freeMap[t]
  }

  /** The files `s` and `x` have no sector in common. */
  ghost predicate Apart(disk: seq<Block>, s: nat, x: nat) {
    forall t: nat :: !(PartOf(disk, s, t) && PartOf(disk, x, t))
  }

  predicate InDir(dir: seq<DirEntry>, s: nat) {
    exists i | 0 <= i < |dir| :: dir[i].inUse && dir[i].sector == s
  }

  predicate IsOpen(open: seq<OpenInode>, s: nat) {
    exists i | 0 <= i < |open| :: open[i].sector == s
  }

  /** The file `s` has a name, or is one of the two that the file system keeps for itself. */
  predicate Named(dir: seq<DirEntry>, s: nat) {
    s == FREE_MAP_SECTOR || s == ROOT_DIR_SECTOR || InDir(dir, s)
  }

  /** No two entries in use are for the same inode, and none is for one of the file system's own. */
  ghost predicate DirOk(dir: seq<DirEntry>) {
    && (forall i | 0 <= i < |dir| && dir[i].inUse :: dir[i].sector != FREE_MAP_SECTOR && dir[i].sector != ROOT_DIR_SECTOR)
    && (forall i, j {:trigger dir[i], dir[j]} | 0 <= i < j < |dir| && dir[i].inUse && dir[j].inUse ::
          dir[i].sector != dir[j].sector)
  }

  ghost predicate OpenOk(open: seq<OpenInode>) {
    && (forall i | 0 <= i < |open| :: open[i].openCnt > 0)
    && (forall i, j {:trigger open[i], open[j]} | 0 <= i < j < |open| :: open[i].sector != open[j].sector)
  }

  datatype State = State(freeMap: seq<bool>, disk: seq<Block>, dir: seq<DirEntry>, open: seq<OpenInode>) {

    /** A file exists if it has a name or an opener. */
    predicate Exists(s: nat) {
      Named(dir, s) || IsOpen(open, s)
    }

    /** What holds whatever the reads of the directory return. */
    ghost predicate Shaped() {
      |disk| == |freeMap| && OpenOk(open)
    }

    /** No two files that exist share a sector, and all their sectors are marked. */
    ghost predicate Disjoint() {
      && (forall s: nat | Exists(s) :: FileOk(freeMap, disk, s))
      && (forall s: nat, x: nat {:trigger Apart(disk, s, x)} | Exists(s) && Exists(x) && s != x :: Apart(disk, s, x))
    }

    /** What is to be kept: the files are disjoint, and no file that has a name will be given back. */
    ghost predicate Consistent() {
      && Shaped() && Disjoint() && DirOk(dir)
      && forall i | 0 <= i < |open| :: OpenFileOk(open[i])
    }

    ghost predicate OpenFileOk(f: OpenInode) {
      f.sector < |disk| && f.data == TakenFor(disk[f.sector]) && (f.removed ==> !Named(dir, f.sector))
    }

    /** What holds besides as long as the directory is read as it was written: names are not used twice,
        and an open file that has no name will be given back. */
    ghost predicate Tidy() {
      && (forall i, j {:trigger dir[i], dir[j]} | 0 <= i < j < |dir| && dir[i].inUse && dir[j].inUse ::
            dir[i].name != dir[j].name)
      && forall i | 0 <= i < |open| :: !Named(dir, open[i].sector) ==> open[i].removed
    }
  }

  /** The files that exist in `b` existed in `a` and have the same sectors, still marked. */
  lemma Preserved(a: State, b: State)
    requires a.Consistent() && b.Shaped() && DirOk(b.dir) && |b.disk| == |a.disk|
    requires forall s: nat | b.Exists(s) :: a.Exists(s)
    requires forall s: nat | b.Exists(s) && s < |a.disk| :: TakenFor(b.disk[s]) == TakenFor(a.disk[s])
    requires forall s: nat, t: nat {:trigger PartOf(a.disk, s, t)} | b.Exists(s) && t < |a.disk| && PartOf(a.disk, s, t) ::
               b.freeMap[t]
    requires forall i | 0 <= i < |b.open| :: b.OpenFileOk(b.open[i])
    ensures b.Consistent()
  {
    forall s: nat | b.Exists(s)
      ensures FileOk(b.freeMap, b.disk, s)
    {
      assert FileOk(a.freeMap, a.disk, s);
      assert forall t: nat :: PartOf(b.disk, s, t) <==> PartOf(a.disk, s, t);
    }
    forall s: nat, x: nat | b.Exists(s) && b.Exists(x) && s != x
      ensures Apart(b.disk, s, x)
    {
      assert Apart(a.disk, s, x);
      assert forall t: nat :: PartOf(b.disk, s, t) <==> PartOf(a.disk, s, t);
      assert forall t: nat :: PartOf(b.disk, x, t) <==> PartOf(a.disk, x, t);
    }
  }

  /** Writing and marking sectors that are not marked harms no file. */
  lemma WriteElsewhere(a: State, b: State)
    requires a.Consistent() && |b.disk| == |a.disk| == |b.freeMap| && b == a.(disk := b.disk, freeMap := b.freeMap)
    requires forall t | 0 <= t < |a.disk| && a.freeMap[t] :: b.disk[t] == a.disk[t] && b.freeMap[t]
    ensures b.Consistent()
  {
    forall s: nat | b.Exists(s)
      ensures s < |a.disk| && b.disk[s] == a.disk[s]
    {
      assert FileOk(a.freeMap, a.disk, s) && PartOf(a.disk, s, s);
    }
    Preserved(a, b);
  }

  // ---------- Open inodes ----------

  /** The place of the open inode for a sector, from place `i` on. */
  function FindOpen(open: seq<OpenInode>, s: nat, i: nat): (r: Option<nat>)
    ensures r.Some? ==> i <= r.value < |open| && open[r.value].sector == s && forall j | i <= j < r.value :: open[j].sector != s
    ensures r.None? ==> forall j | i <= j < |open| :: open[j].sector != s
    decreases |open| - i
  {
    if i >= |open| then None else if open[i].sector == s then Some(i) else FindOpen(open, s, i + 1)
  }

  /** The number of openers of a file. */
  function Openers(open: seq<OpenInode>, s: nat): nat {
    var i := FindOpen(open, s, 0);
    if i.Some? then open[i.value].openCnt else 0
  }

  lemma {:induction false} FoundIffOpen(open: seq<OpenInode>, s: nat)
    ensures FindOpen(open, s, 0).Some? <==> IsOpen(open, s)
  {
  }

  lemma {:induction false} FoundAt(open: seq<OpenInode>, i: nat)
    requires OpenOk(open) && i < |open|
    ensures FindOpen(open, open[i].sector, 0) == Some(i)
  {
  }

  lemma OpenersPositive(open: seq<OpenInode>, s: nat)
    requires OpenOk(open)
    ensures IsOpen(open, s) <==> Openers(open, s) > 0
  {
    FoundIffOpen(open, s);
  }

  /** A change to one open inode that leaves its sector. */
  lemma UpdatedOpen(open: seq<OpenInode>, i: nat, f: OpenInode)
    requires OpenOk(open) && i < |open| && f.sector == open[i].sector && f.openCnt > 0
    ensures OpenOk(open[i := f])
    ensures forall s: nat :: IsOpen(open[i := f], s) <==> IsOpen(open, s)
    ensures forall s: nat :: Openers(open[i := f], s) == if s == f.sector then f.openCnt else Openers(open, s)
  {
    var after := open[i := f];
    forall s: nat
      ensures IsOpen(after, s) <==> IsOpen(open, s)
      ensures Openers(after, s) == if s == f.sector then f.openCnt else Openers(open, s)
    {
      if IsOpen(open, s) {
        var k :| 0 <= k < |open| && open[k].sector == s;
        assert after[k].sector == s;
        FoundAt(open, k);
        FoundAt(after, k);
      }
    }
  }

  lemma {:induction false} PushedOpen(open: seq<OpenInode>, f: OpenInode)
    requires OpenOk(open) && FindOpen(open, f.sector, 0).None? && f.openCnt > 0
    ensures OpenOk([f] + open)
    ensures forall s: nat :: IsOpen([f] + open, s) <==> IsOpen(open, s) || s == f.sector
    ensures forall s: nat :: Openers([f] + open, s) == if s == f.sector then f.openCnt else Openers(open, s)
  {
    var after := [f] + open;
    forall s: nat
      ensures IsOpen(after, s) <==> IsOpen(open, s) || s == f.sector
      ensures Openers(after, s) == if s == f.sector then f.openCnt else Openers(open, s)
    {
      assert after[0] == f;
      FoundAt(after, 0);
      if IsOpen(open, s) {
        var k :| 0 <= k < |open| && open[k].sector == s;
        assert after[k + 1] == open[k];
        FoundAt(open, k);
        FoundAt(after, k + 1);
      }
    }
  }

  lemma DroppedOpen(open: seq<OpenInode>, i: nat)
    requires OpenOk(open) && i < |open|
    ensures OpenOk(Without(open, i))
    ensures forall s: nat :: IsOpen(Without(open, i), s) <==> IsOpen(open, s) && s != open[i].sector
    ensures forall s: nat :: Openers(Without(open, i), s) == if s == open[i].sector then 0 else Openers(open, s)
  {
    var after := Without(open, i);
    forall s: nat
      ensures IsOpen(after, s) <==> IsOpen(open, s) && s != open[i].sector
      ensures Openers(after, s) == if s == open[i].sector then 0 else Openers(open, s)
    {
      if IsOpen(open, s) && s != open[i].sector {
        var k :| 0 <= k < |open| && open[k].sector == s;
        var m := if k < i then k else k - 1;
        assert after[m] == open[k];
        FoundAt(open, k);
        FoundAt(after, m);
      }
    }
  }

  // ---------- The steps ----------

  /** One more opener of the inode in sector `s`. */
  function Opened(a: State, s: nat): State
    requires IsOpen(a.open, s) || s < |a.disk|
  {
    FoundIffOpen(a.open, s);
    var i := FindOpen(a.open, s, 0);
    if i.Some? then a.(open := a.open[i.value := a.open[i.value].(openCnt := a.open[i.value].openCnt + 1)])
    else a.(open := [OpenInode(s, 1, false, TakenFor(a.disk[s]))] + a.open)
  }

  /** The sectors of an inode are unmarked; `None` where one of them is not marked, and the kernel stops. */
  function Released(a: State, s: nat, d: DiskInode): Option<State> {
    if RunOf(a.freeMap, s, 1, true) && RunOf(Fill(a.freeMap, s, 1, false), d.start, SectorsFor(d.length), true) then
      Some(a.(freeMap := Fill(Fill(a.freeMap, s, 1, false), d.start, SectorsFor(d.length), false)))
    else None
  }

  /** One opener less of open inode `i`. */
  function Closed(a: State, i: nat): Option<State>
    requires i < |a.open|
  {
    var f := a.open[i];
    if f.openCnt > 1 then Some(a.(open := a.open[i := f.(openCnt := f.openCnt - 1)]))
    else if !f.removed then Some(a.(open := Without(a.open, i)))
    else Released(a.(open := Without(a.open, i)), f.sector, f.data)
  }

  /** The file of the record `e`, which was read in slot `j`, is removed: it is marked as removed if it is
      open, and given back at once if it is not. */
  function Removed(a: State, j: nat, e: DirEntry): Option<State>
    requires j < |a.dir|
  {
    var b := a.(dir := a.dir[j := e.(inUse := false)]);
    var i := FindOpen(a.open, e.sector, 0);
    if i.Some? then Some(b.(open := b.open[i.value := b.open[i.value].(removed := true)]))
    else if e.sector < |a.disk| then Released(b, e.sector, TakenFor(a.disk[e.sector]))
    else None
  }

  /** What a release leaves marked. */
  lemma ReleasedMarks(a: State, s: nat)
    requires |a.disk| == |a.freeMap| && s < |a.disk|
    ensures var r := Released(a, s, TakenFor(a.disk[s]));
            r.Some? ==>
              && r.value == a.(freeMap := r.value.freeMap) && |r.value.freeMap| == |a.freeMap|
              && forall t | 0 <= t < |a.freeMap| :: r.value.freeMap[t] == (a.freeMap[t] && !PartOf(a.disk, s, t))
    ensures FileOk(a.freeMap, a.disk, s) ==> Released(a, s, TakenFor(a.disk[s])).Some?
  {
  }

  // ---------- What keeps the files disjoint ----------

  lemma ErasedDir(dir: seq<DirEntry>, j: nat, e: DirEntry)
    requires j < |dir| && !e.inUse
    ensures DirOk(dir) ==> DirOk(dir[j := e])
    ensures forall x: nat :: InDir(dir[j := e], x) ==> InDir(dir, x)
    ensures DirOk(dir) && dir[j].inUse ==> forall x: nat :: InDir(dir[j := e], x) <==> InDir(dir, x) && x != dir[j].sector
  {
    forall x: nat | InDir(dir, x)
      ensures DirOk(dir) && dir[j].inUse && x != dir[j].sector ==> InDir(dir[j := e], x)
    {
      var k :| 0 <= k < |dir| && dir[k].inUse && dir[k].sector == x;
      assert k != j ==> dir[j := e][k] == dir[k];
    }
  }

  /** One opener more or less, or a mark on a file without a name, is all that changes. */
  lemma UpdatedConsistent(a: State, i: nat, f: OpenInode)
    requires a.Consistent() && i < |a.open| && f.sector == a.open[i].sector && f.openCnt > 0 && f.data == a.open[i].data
    requires f.removed ==> !Named(a.dir, f.sector)
    ensures a.(open := a.open[i := f]).Consistent()
  {
    UpdatedOpen(a.open, i, f);
    Preserved(a, a.(open := a.open[i := f]));
  }

  /** A last opener leaves. The sectors of the file are unmarked if it was removed, and no others are. */
  lemma ClosedConsistent(a: State, i: nat)
    requires a.Consistent() && i < |a.open|
    ensures Closed(a, i).Some? && Closed(a, i).value.Consistent()
    ensures var b, f := Closed(a, i).value, a.open[i];
            && b.disk == a.disk && b.dir == a.dir && |b.freeMap| == |a.freeMap|
            && forall t | 0 <= t < |a.freeMap| ::
                 b.freeMap[t] == (a.freeMap[t] && !(f.openCnt == 1 && f.removed && PartOf(a.disk, f.sector, t)))
  {
    var f := a.open[i];
    assert a.OpenFileOk(f) && a.Exists(f.sector);
    if f.openCnt > 1 {
      UpdatedConsistent(a, i, f.(openCnt := f.openCnt - 1));
    } else {
      DroppedOpen(a.open, i);
      ReleasedMarks(a.(open := Without(a.open, i)), f.sector);
      var b := Closed(a, i).value;
      forall k | 0 <= k < |b.open|
        ensures b.OpenFileOk(b.open[k])
      {
        assert a.OpenFileOk(a.open[if k < i then k else k + 1]);
      }
      forall s: nat, t: nat | b.Exists(s) && t < |a.disk| && PartOf(a.disk, s, t)
        ensures b.freeMap[t]
      {
        assert FileOk(a.freeMap, a.disk, s);
        if f.removed {
          assert Apart(a.disk, s, f.sector);
        }
      }
      Preserved(a, b);
    }
  }

  /** The file that a record leads to exists, or could: its sectors are marked and no other file's. */
  ghost predicate Openable(a: State, s: nat) {
    a.Exists(s) || (FileOk(a.freeMap, a.disk, s) && forall x: nat | a.Exists(x) :: Apart(a.disk, s, x))
  }

  /** Opening whatever a record leads to keeps the files disjoint if and only if that is a file. */
  lemma {:induction false} OpenedIff(a: State, s: nat)
    requires a.Consistent() && (IsOpen(a.open, s) || s < |a.disk|)
    ensures Opened(a, s).Consistent() <==> Openable(a, s)
    ensures !Openable(a, s) ==> !Opened(a, s).Disjoint()
  {
    FoundIffOpen(a.open, s);
    var b := Opened(a, s);
    var i := FindOpen(a.open, s, 0);
    if i.Some? {
      UpdatedConsistent(a, i.value, a.open[i.value].(openCnt := a.open[i.value].openCnt + 1));
    } else {
      PushedOpen(a.open, b.open[0]);
      if Openable(a, s) {
        PushedConsistent(a, s);
      } else if b.Disjoint() {
        forall x: nat | a.Exists(x)
          ensures Apart(a.disk, s, x)
        {
          assert b.Exists(x) && b.Exists(s) && x != s;
        }
        assert false;
      }
    }
  }

  lemma {:induction false} PushedConsistent(a: State, s: nat)
    requires a.Consistent() && FindOpen(a.open, s, 0).None? && s < |a.disk| && Openable(a, s)
    ensures Opened(a, s).Consistent()
  {
    var b := Opened(a, s);
    PushedOpen(a.open, b.open[0]);
    forall k | 0 <= k < |b.open|
      ensures b.OpenFileOk(b.open[k])
    {
      assert k > 0 ==> a.OpenFileOk(a.open[k - 1]);
    }
    forall x: nat, y: nat | b.Exists(x) && b.Exists(y) && x != y
      ensures Apart(b.disk, x, y)
    {
      if a.Exists(x) && a.Exists(y) {
        assert Apart(a.disk, x, y);
      } else if x == s {
        assert Apart(a.disk, s, y);
      } else {
        assert Apart(a.disk, s, x);
      }
    }
  }

  /** No file that exists after slot `j` was erased is given back, now or later. */
  ghost predicate Removable(a: State, j: nat, e: DirEntry)
    requires j < |a.dir|
  {
    var b := a.(dir := a.dir[j := e.(inUse := false)]);
    if IsOpen(a.open, e.sector) then !Named(b.dir, e.sector)
    else forall x: nat | b.Exists(x) :: Apart(a.disk, e.sector, x)
  }

  /** Removing by whatever record was read keeps the files disjoint if and only if no file that still
      exists has a sector of the one that is given back. */
  lemma RemovedIff(a: State, j: nat, e: DirEntry)
    requires a.Consistent() && j < |a.dir| && Removed(a, j, e).Some?
    ensures Removed(a, j, e).value.Consistent() <==> Removable(a, j, e)
    ensures !Removable(a, j, e) && !IsOpen(a.open, e.sector) ==> !Removed(a, j, e).value.Disjoint()
  {
    FoundIffOpen(a.open, e.sector);
    var r, b := Removed(a, j, e).value, a.(dir := a.dir[j := e.(inUse := false)]);
    ErasedDir(a.dir, j, e.(inUse := false));
    if IsOpen(a.open, e.sector) {
      MarkedIff(a, b, e.sector);
    } else {
      ReleasedMarks(b, e.sector);
      if Removable(a, j, e) {
        ReleasedConsistent(a, r, e.sector);
      } else {
        var x: nat :| b.Exists(x) && !Apart(a.disk, e.sector, x);
        var t: nat :| PartOf(a.disk, e.sector, t) && PartOf(a.disk, x, t);
        assert r.Exists(x) && !FileOk(r.freeMap, r.disk, x);
      }
    }
  }

  lemma {:induction false} MarkedIff(a: State, b: State, s: nat)
    requires a.Consistent() && b == a.(dir := b.dir) && DirOk(b.dir) && FindOpen(a.open, s, 0).Some?
    requires forall x: nat :: InDir(b.dir, x) ==> InDir(a.dir, x)
    ensures var i := FindOpen(a.open, s, 0).value;
            b.(open := b.open[i := b.open[i].(removed := true)]).Consistent() <==> !Named(b.dir, s)
  {
    var i := FindOpen(a.open, s, 0).value;
    var f := a.open[i].(removed := true);
    var r := b.(open := b.open[i := f]);
    UpdatedOpen(a.open, i, f);
    if !Named(b.dir, s) {
      forall k | 0 <= k < |r.open|
        ensures r.OpenFileOk(r.open[k])
      {
        assert a.OpenFileOk(a.open[k]);
      }
      Preserved(a, r);
    } else {
      assert r.open[i] == f && !r.OpenFileOk(f);
    }
  }

  lemma ReleasedConsistent(a: State, r: State, s: nat)
    requires a.Consistent() && r == a.(freeMap := r.freeMap, dir := r.dir) && |r.freeMap| == |a.freeMap| && DirOk(r.dir)
    requires forall x: nat :: InDir(r.dir, x) ==> InDir(a.dir, x)
    requires forall t | 0 <= t < |a.freeMap| :: r.freeMap[t] == (a.freeMap[t] && !PartOf(a.disk, s, t))
    requires forall x: nat | r.Exists(x) :: Apart(a.disk, s, x)
    ensures r.Consistent()
  {
    forall k | 0 <= k < |r.open|
      ensures r.OpenFileOk(r.open[k])
    {
      assert a.OpenFileOk(a.open[k]);
    }
    forall x: nat, t: nat | r.Exists(x) && t < |a.disk| && PartOf(a.disk, x, t)
      ensures r.freeMap[t]
    {
      assert FileOk(a.freeMap, a.disk, x) && Apart(a.disk, s, x);
    }
    Preserved(a, r);
  }

  /** A name for a file whose sectors are marked and no other's, in any slot. */
  lemma NamedConsistent(a: State, s: nat, j: nat, name: string)
    requires a.Consistent() && j < |a.dir| && FileOk(a.freeMap, a.disk, s)
    requires forall x: nat | a.Exists(x) :: Apart(a.disk, s, x)
    ensures a.(dir := a.dir[j := DirEntry(s, name, true)]).Consistent()
  {
    var b := a.(dir := a.dir[j := DirEntry(s, name, true)]);
    assert PartOf(a.disk, s, s);
    forall x: nat | b.Exists(x)
      ensures a.Exists(x) || x == s
    {
      if InDir(b.dir, x) && x != s {
        var k :| 0 <= k < |b.dir| && b.dir[k].inUse && b.dir[k].sector == x;
        assert a.dir[k] == b.dir[k];
      }
    }
    assert !a.Exists(s);
    assert DirOk(b.dir) by {
      assert a.Exists(FREE_MAP_SECTOR) && a.Exists(ROOT_DIR_SECTOR);
      assert forall k | 0 <= k < |a.dir| && a.dir[k].inUse :: a.Exists(a.dir[k].sector);
    }
    forall k | 0 <= k < |b.open|
      ensures b.OpenFileOk(b.open[k])
    {
      assert a.OpenFileOk(a.open[k]) && a.Exists(a.open[k].sector) && b.Exists(a.open[k].sector);
    }
    forall x: nat, y: nat | b.Exists(x) && b.Exists(y) && x != y
      ensures Apart(b.disk, x, y)
    {
      if a.Exists(x) && a.Exists(y) {
        assert Apart(a.disk, x, y);
      } else if x == s {
        assert Apart(a.disk, s, y);
      } else {
        assert Apart(a.disk, s, x);
      }
    }
  }

  /** Data may be written anywhere but over the inode of a file. */
  lemma BlockConsistent(a: State, t: nat, bytes: seq<Byte>)
    requires a.Consistent() && t < |a.disk| && !a.Exists(t)
    ensures a.(disk := a.disk[t := DataBlock(bytes)]).Consistent()
  {
    var b := a.(disk := a.disk[t := DataBlock(bytes)]);
    forall i | 0 <= i < |b.open|
      ensures b.OpenFileOk(b.open[i])
    {
      assert a.OpenFileOk(a.open[i]) && a.Exists(a.open[i].sector);
    }
    forall s: nat, u: nat | b.Exists(s) && u < |a.disk| && PartOf(a.disk, s, u)
      ensures b.freeMap[u]
    {
      assert FileOk(a.freeMap, a.disk, s);
    }
    forall s: nat | b.Exists(s)
      ensures s < |a.disk| && TakenFor(b.disk[s]) == TakenFor(a.disk[s])
    {
      assert FileOk(a.freeMap, a.disk, s);
    }
    Preserved(a, b);
  }

  /** The data of a file that exists holds no inode of one. */
  lemma NoInodeInside(a: State, s: nat, t: nat)
    requires a.Consistent() && a.Exists(s) && s < |a.disk| && InExtent(TakenFor(a.disk[s]), t)
    ensures t < |a.disk| && a.freeMap[t] && !a.Exists(t)
  {
    assert FileOk(a.freeMap, a.disk, s) && PartOf(a.disk, s, t);
    assert PartOf(a.disk, t, t) && !Apart(a.disk, s, t);
  }

  // ---------- Directory reads ----------

  /** The entry in use for a name, from place `i` on. */
  function FindName(dir: seq<DirEntry>, name: string, i: nat): (r: Option<nat>)
    ensures r.Some? ==> i <= r.value < |dir| && dir[r.value].inUse && dir[r.value].name == name
    ensures r.Some? ==> forall j | i <= j < r.value && dir[j].inUse :: dir[j].name != name
    ensures r.None? ==> forall j | i <= j < |dir| && dir[j].inUse :: dir[j].name != name
    decreases |dir| - i
  {
    if i >= |dir| then None
    else if dir[i].inUse && dir[i].name == name then Some(i)
    else FindName(dir, name, i + 1)
  }

  /** The first slot that is not in use, from place `i` on. */
  function FindFree(dir: seq<DirEntry>, i: nat): (r: Option<nat>)
    ensures r.Some? ==> i <= r.value < |dir| && !dir[r.value].inUse && forall j | i <= j < r.value :: dir[j].inUse
    ensures r.None? ==> forall j | i <= j < |dir| :: dir[j].inUse
    decreases |dir| - i
  {
    if i >= |dir| then None else if !dir[i].inUse then Some(i) else FindFree(dir, i + 1)
  }

  /** A file can be added under a name: the name is short, it is not in use and a slot is free. */
  predicate Addable(seen: seq<DirEntry>, name: string) {
    0 < |name| <= NAME_MAX && FindName(seen, name, 0).None? && FindFree(seen, 0).Some?
  }

  /** The only entry for the name just added. */
  lemma OnlyName(dir: seq<DirEntry>, j: nat, s: nat, name: string)
    requires j < |dir| && FindName(dir, name, 0).None?
    ensures FindName(dir[j := DirEntry(s, name, true)], name, 0) == Some(j)
  {
    var after := dir[j := DirEntry(s, name, true)];
    assert after[j].inUse && after[j].name == name;
  }

  // ---------- The operations ----------

  /** Which allocations of memory and which writes of the free map an operation is lucky with. */
  datatype Luck = Luck(root: bool, memory: bool, first: bool, second: bool)

  /** The inode can be had: there is memory for it, or it is open, as the root directory is during an
      operation. */
  predicate Gettable(a: State, s: nat, memory: bool) {
    memory || IsOpen(a.open, s) || s == ROOT_DIR_SECTOR
  }

  /** The sector of which the inode is opened, if the operation gets so far. */
  function Led(a: State, name: string, luck: Luck, seen: seq<DirEntry>): (r: Option<nat>)
    ensures r.Some? ==> FindName(seen, name, 0).Some? && r.value == seen[FindName(seen, name, 0).value].sector
  {
    var j := FindName(seen, name, 0);
    if luck.root && j.Some? && Gettable(a, seen[j.value].sector, luck.memory) then Some(seen[j.value].sector) else None
  }

  /** filesys_open; a sector that is not on the disk stops the kernel. */
  function OpenStep(a: State, name: string, luck: Luck, seen: seq<DirEntry>): Option<State> {
    var s := Led(a, name, luck, seen);
    if s.None? then Some(a)
    else if !IsOpen(a.open, s.value) && s.value >= |a.disk| then None
    else if luck.first then Some(Opened(a, s.value))
    else Some(a)
  }

  /** filesys_remove */
  function RemoveStep(a: State, name: string, luck: Luck, seen: seq<DirEntry>): Option<State>
    requires |seen| == |a.dir|
  {
    if Led(a, name, luck, seen).None? then Some(a)
    else
      var j := FindName(seen, name, 0).value;
      Removed(a, j, seen[j])
  }

  /** The inode `d` in sector `s`, and zeros in its extent. */
  function Made(disk: seq<Block>, s: nat, d: DiskInode): (r: seq<Block>)
    ensures |r| == |disk|
  {
    seq(|disk|, t requires 0 <= t < |disk| =>
      if InExtent(d, t) then DataBlock(Zeros()) else if t == s then InodeBlock(d) else disk[t])
  }

  /** inode_create */
  function InodeStep(a: State, s: nat, size: nat, luck: Luck): (r: Option<State>)
    ensures r.Some? ==> |r.value.freeMap| == |a.freeMap| && |r.value.disk| == |a.disk|
    ensures r.Some? ==> r.value.dir == a.dir && r.value.open == a.open
  {
    var k := Scan(a.freeMap, 0, SectorsFor(size), false);
    ScanIsLeast(a.freeMap, 0, SectorsFor(size), false);
    if !luck.memory || k.None? || !luck.second then None
    else Some(a.(freeMap := Fill(a.freeMap, k.value, SectorsFor(size), true), disk := Made(a.disk, s, DiskInode(k.value, size))))
  }

  /** The free map after a failure; sector 0 stands for none. */
  function GivenBack(freeMap: seq<bool>, s: nat): seq<bool>
    requires s < |freeMap|
  {
    if s == 0 then freeMap else freeMap[s := false]
  }

  /** filesys_create, from the allocation of sector `s` for the inode on. */
  function CreateAt(a: State, s: nat, name: string, size: nat, luck: Luck, seen: seq<DirEntry>): State
    requires s < |a.freeMap| && |seen| == |a.dir|
  {
    var b := InodeStep(a, s, size, luck);
    if b.None? then a.(freeMap := GivenBack(a.freeMap, s))
    else if Addable(seen, name) then b.value.(dir := a.dir[FindFree(seen, 0).value := DirEntry(s, name, true)])
    else b.value.(freeMap := GivenBack(b.value.freeMap, s))
  }

  function CreateStep(a: State, name: string, size: nat, luck: Luck, seen: seq<DirEntry>): State
    requires |seen| == |a.dir|
  {
    var s := Scan(a.freeMap, 0, 1, false);
    ScanIsLeast(a.freeMap, 0, 1, false);
    if !luck.root || s.None? || !luck.first then a
    else CreateAt(a.(freeMap := Fill(a.freeMap, s.value, 1, true)), s.value, name, size, luck, seen)
  }

  /** The block of an open inode that is written, if it has one with that number. */
  function Target(a: State, s: nat, k: nat): Option<nat> {
    var i := FindOpen(a.open, s, 0);
    if i.Some? && k < SectorsFor(a.open[i.value].data.length) then Some(a.open[i.value].data.start + k) else None
  }

  function WriteStep(a: State, s: nat, k: nat, bytes: seq<Byte>): Option<State> {
    var t := Target(a, s, k);
    if t.None? then Some(a)
    else if t.value < |a.disk| then Some(a.(disk := a.disk[t.value := DataBlock(bytes)]))
    else None
  }

  /** There is a free sector for an inode and then a free run for the data. */
  predicate Room(freeMap: seq<bool>, size: nat) {
    var i := Scan(freeMap, 0, 1, false);
    ScanIsLeast(freeMap, 0, 1, false);
    i.Some? && Scan(Fill(freeMap, i.value, 1, true), 0, SectorsFor(size), false).Some?
  }

  predicate Creates(a: State, name: string, size: nat, luck: Luck, seen: seq<DirEntry>) {
    luck.root && luck.memory && luck.first && luck.second && Room(a.freeMap, size) && Addable(seen, name)
  }

  /** `b` has the sectors that are marked in `a` as they were, and still marked. */
  ghost predicate MarkedSame(a: State, b: State) {
    && |b.disk| == |b.freeMap| == |a.disk| == |a.freeMap|
    && forall t | 0 <= t < |a.disk| && a.freeMap[t] :: b.disk[t] == a.disk[t] && b.freeMap[t]
  }

  /** In `b` there is a file in sector `s`, of `size` zero bytes on sectors that were not marked in `a`. */
  ghost predicate NewFile(a: State, b: State, s: nat, size: nat) {
    && MarkedSame(a, b) && FileOk(b.freeMap, b.disk, s)
    && b.disk[s].InodeBlock? && b.disk[s].inode.length == size && HoldsBytes(b.disk[s].inode)
    && forall t | 0 <= t < |b.disk| && PartOf(b.disk, s, t) :: !a.freeMap[t] && (t != s ==> b.disk[t] == DataBlock(Zeros()))
  }

  lemma InodeStepMakes(a: State, b: State, s: nat, size: nat, luck: Luck)
    requires |a.disk| == |a.freeMap| && s < |a.freeMap| && !a.freeMap[s]
    requires b == a.(freeMap := Fill(a.freeMap, s, 1, true)) && InodeStep(b, s, size, luck).Some?
    ensures NewFile(a, InodeStep(b, s, size, luck).value, s, size)
  {
    ScanIsLeast(b.freeMap, 0, SectorsFor(size), false);
    ExtentHoldsBytes(DiskInode(Scan(b.freeMap, 0, SectorsFor(size), false).value, size));
  }

  /** Creating a file changes no sector that is marked, whatever the reads return. If it succeeds, the new
      file has its name in the first slot that was read as free, and its data is zero. */
  lemma {:induction false} CreateChanges(a: State, name: string, size: nat, luck: Luck, seen: seq<DirEntry>)
    requires |a.disk| == |a.freeMap| && |a.freeMap| > 0 && a.freeMap[0] && |seen| == |a.dir|
    ensures var b := CreateStep(a, name, size, luck, seen);
            && MarkedSame(a, b) && b.open == a.open
            && (Creates(a, name, size, luck, seen) ==>
                  var s, j := Scan(a.freeMap, 0, 1, false).value, FindFree(seen, 0).value;
                  NewFile(a, b, s, size) && b.dir == a.dir[j := DirEntry(s, name, true)])
            && (!Creates(a, name, size, luck, seen) ==>
                  && b.dir == a.dir && (b.freeMap == a.freeMap || !Addable(seen, name))
                  && var s := Scan(a.freeMap, 0, 1, false); s.Some? ==> s.value < |b.freeMap| && !b.freeMap[s.value])
  {
    var s := Scan(a.freeMap, 0, 1, false);
    ScanIsLeast(a.freeMap, 0, 1, false);
    if luck.root && s.Some? && luck.first {
      var b := a.(freeMap := Fill(a.freeMap, s.value, 1, true));
      assert GivenBack(b.freeMap, s.value) == a.freeMap;
      if InodeStep(b, s.value, size, luck).Some? {
        InodeStepMakes(a, b, s.value, size, luck);
      }
    }
  }

  /** Creating a file keeps the files disjoint, whatever the reads of the directory return. */
  lemma CreateConsistent(a: State, name: string, size: nat, luck: Luck, seen: seq<DirEntry>)
    requires a.Consistent() && |seen| == |a.dir|
    ensures |a.freeMap| > 0 && a.freeMap[0]
    ensures CreateStep(a, name, size, luck, seen).Consistent()
  {
    assert a.Exists(0) && FileOk(a.freeMap, a.disk, 0) && PartOf(a.disk, 0, 0);
    CreateChanges(a, name, size, luck, seen);
    var b := CreateStep(a, name, size, luck, seen);
    var mid := b.(dir := a.dir);
    WriteElsewhere(a, mid);
    if Creates(a, name, size, luck, seen) {
      var s := Scan(a.freeMap, 0, 1, false).value;
      NewApart(a, mid, s, size);
      NamedConsistent(mid, s, FindFree(seen, 0).value, name);
    }
  }

  lemma NewApart(a: State, b: State, s: nat, size: nat)
    requires a.Consistent() && b == a.(disk := b.disk, freeMap := b.freeMap) && NewFile(a, b, s, size)
    ensures forall x: nat | b.Exists(x) :: Apart(b.disk, s, x)
  {
    forall x: nat, t: nat | b.Exists(x) && PartOf(b.disk, x, t)
      ensures !PartOf(b.disk, s, t)
    {
      assert a.Exists(x) && FileOk(a.freeMap, a.disk, x) && PartOf(a.disk, x, x);
      assert PartOf(a.disk, x, t);
    }
  }

  // ---------- A formatted disk ----------

  const GOOD: Luck := Luck(true, true, true, true)

  /** The first `m` of `n` sectors are marked. */
  function MarkedTo(n: nat, m: nat): seq<bool> {
    seq(n, t => t < m)
  }

  function NoEntries(): seq<DirEntry> {
    seq(ROOT_ENTRIES, _ => DirEntry(0, "", false))
  }

  /** The disk before it is formatted, with the first two sectors marked. */
  function Blank(raw: seq<Block>): State {
    State(MarkedTo(|raw|, 2), raw, NoEntries(), [])
  }

  /** The free map and the root directory have their inodes in the first two sectors and their data behind
      them. There must be room for that. */
  function WithMap(raw: seq<Block>): (r: State)
    requires 3 + MapSectors(|raw|) <= |raw|
    ensures InodeStep(Blank(raw), FREE_MAP_SECTOR, 4 * WordCount(|raw|), GOOD) == Some(r)
    ensures r.freeMap == MarkedTo(|raw|, 2 + MapSectors(|raw|)) && |r.disk| == |raw| && r.dir == NoEntries() && r.open == []
    ensures r.disk[FREE_MAP_SECTOR] == InodeBlock(DiskInode(2, 4 * WordCount(|raw|)))
  {
    var a, m := Blank(raw), MapSectors(|raw|);
    assert m > 0 && RunOf(a.freeMap, 2, m, false);
    ScanIsLeast(a.freeMap, 0, m, false);
    assert a.freeMap[0] && a.freeMap[1];
    assert !RunOf(a.freeMap, 0, m, false) && !RunOf(a.freeMap, 1, m, false);
    InodeStep(a, FREE_MAP_SECTOR, 4 * WordCount(|raw|), GOOD).value
  }

  function Formatted(raw: seq<Block>): (r: State)
    requires 3 + MapSectors(|raw|) <= |raw|
    ensures InodeStep(WithMap(raw), ROOT_DIR_SECTOR, ROOT_ENTRIES * ENTRY_SIZE, GOOD).Some?
    ensures r == Opened(InodeStep(WithMap(raw), ROOT_DIR_SECTOR, ROOT_ENTRIES * ENTRY_SIZE, GOOD).value, FREE_MAP_SECTOR)
    ensures var m := 2 + MapSectors(|raw|);
            && r.freeMap == MarkedTo(|raw|, m + 1) && |r.disk| == |raw|
            && r.disk[FREE_MAP_SECTOR] == InodeBlock(DiskInode(2, 4 * WordCount(|raw|)))
            && r.disk[ROOT_DIR_SECTOR] == InodeBlock(DiskInode(m, ROOT_ENTRIES * ENTRY_SIZE))
            && r.dir == NoEntries()
            && r.open == [OpenInode(FREE_MAP_SECTOR, 1, false, DiskInode(2, 4 * WordCount(|raw|)))]
  {
    var a, m := WithMap(raw), 2 + MapSectors(|raw|);
    assert SectorsFor(ROOT_ENTRIES * ENTRY_SIZE) == 1;
    ScanForOne(a.freeMap, 0, m, false);
    Opened(InodeStep(a, ROOT_DIR_SECTOR, ROOT_ENTRIES * ENTRY_SIZE, GOOD).value, FREE_MAP_SECTOR)
  }

  lemma FormattedConsistent(raw: seq<Block>)
    requires 3 + MapSectors(|raw|) <= |raw|
    ensures Formatted(raw).Consistent() && Formatted(raw).Tidy()
    ensures 8 * Formatted(raw).disk[FREE_MAP_SECTOR].inode.length >= |raw|
    ensures Formatted(raw).disk[ROOT_DIR_SECTOR].inode.length == |Formatted(raw).dir| * ENTRY_SIZE
  {
    var a := Formatted(raw);
    assert SectorsFor(ROOT_ENTRIES * ENTRY_SIZE) == 1;
    assert forall s: nat :: a.Exists(s) <==> s == FREE_MAP_SECTOR || s == ROOT_DIR_SECTOR;
    assert Apart(a.disk, FREE_MAP_SECTOR, ROOT_DIR_SECTOR) && Apart(a.disk, ROOT_DIR_SECTOR, FREE_MAP_SECTOR);
  }

  // ---------- Right reads ----------

  lemma EntryLeads(a: State, j: nat)
    requires a.Consistent() && j < |a.dir| && a.dir[j].inUse
    ensures a.Exists(a.dir[j].sector) && FileOk(a.freeMap, a.disk, a.dir[j].sector)
  {
    assert InDir(a.dir, a.dir[j].sector);
  }

  lemma EntryRemovable(a: State, j: nat)
    requires a.Consistent() && j < |a.dir| && a.dir[j].inUse
    ensures Removable(a, j, a.dir[j]) && Removed(a, j, a.dir[j]).Some?
  {
    var s := a.dir[j].sector;
    EntryLeads(a, j);
    ErasedDir(a.dir, j, a.dir[j].(inUse := false));
    var b := a.(dir := a.dir[j := a.dir[j].(inUse := false)]);
    FoundIffOpen(a.open, s);
    ReleasedMarks(b, s);
    if !IsOpen(a.open, s) {
      forall x: nat | b.Exists(x)
        ensures Apart(a.disk, s, x)
      {
        assert a.Exists(x) && x != s;
      }
    }
  }

  /** Entry `j` is erased and the openers of its file stay; its sectors, and no others, are unmarked if there
      are none. */
  ghost predicate Unlinked(a: State, j: nat, b: State)
    requires j < |a.dir|
  {
    var s := a.dir[j].sector;
    && b.dir == a.dir[j := a.dir[j].(inUse := false)] && b.disk == a.disk && |b.freeMap| == |a.freeMap|
    && (forall t | 0 <= t < |a.freeMap| :: b.freeMap[t] == (a.freeMap[t] && !(Openers(a.open, s) == 0 && PartOf(a.disk, s, t))))
    && forall x: nat :: Openers(b.open, x) == Openers(a.open, x)
  }

  /** Removing by the record that is in the slot. */
  lemma RightRemoval(a: State, j: nat)
    requires a.Consistent() && j < |a.dir| && a.dir[j].inUse
    ensures var r := Removed(a, j, a.dir[j]); r.Some? && r.value.Consistent() && Unlinked(a, j, r.value)
    ensures a.Tidy() ==> FindName(Removed(a, j, a.dir[j]).value.dir, a.dir[j].name, 0).None?
  {
    var s := a.dir[j].sector;
    EntryRemovable(a, j);
    RemovedIff(a, j, a.dir[j]);
    OpenersPositive(a.open, s);
    FoundIffOpen(a.open, s);
    if IsOpen(a.open, s) {
      var i := FindOpen(a.open, s, 0).value;
      UpdatedOpen(a.open, i, a.open[i].(removed := true));
    } else {
      ReleasedMarks(a.(dir := a.dir[j := a.dir[j].(inUse := false)]), s);
    }
  }

  // ---------- The code ----------

  /** Opening the inode, erasing the entry, marking the inode and closing it again. */
  lemma {:induction false} RemovedInSteps(a: State, j: nat, e: DirEntry)
    requires OpenOk(a.open) && j < |a.dir| && (IsOpen(a.open, e.sector) || e.sector < |a.disk|)
    ensures var b := Opened(a, e.sector);
            var i := FindOpen(b.open, e.sector, 0);
            && i.Some?
            && var c := b.(dir := b.dir[j := e.(inUse := false)], open := b.open[i.value := b.open[i.value].(removed := true)]);
               FindOpen(c.open, e.sector, 0) == i && Closed(c, i.value) == Removed(a, j, e)
  {
    FoundIffOpen(a.open, e.sector);
    if FindOpen(a.open, e.sector, 0).Some? {
      RemovedOpen(a, j, e);
    } else {
      RemovedShut(a, j, e);
    }
  }

  lemma RemovedOpen(a: State, j: nat, e: DirEntry)
    requires OpenOk(a.open) && j < |a.dir| && FindOpen(a.open, e.sector, 0).Some?
    ensures var b, i := Opened(a, e.sector), FindOpen(a.open, e.sector, 0).value;
            && FindOpen(b.open, e.sector, 0) == Some(i)
            && var c := b.(dir := b.dir[j := e.(inUse := false)], open := b.open[i := b.open[i].(removed := true)]);
               FindOpen(c.open, e.sector, 0) == Some(i) && Closed(c, i) == Removed(a, j, e)
  {
    var i := FindOpen(a.open, e.sector, 0).value;
    var f := a.open[i];
    var more := f.(openCnt := f.openCnt + 1);
    UpdatedOpen(a.open, i, more);
    FoundAt(a.open[i := more], i);
    var marked := a.open[i := more][i := more.(removed := true)];
    UpdatedOpen(a.open[i := more], i, more.(removed := true));
    FoundAt(marked, i);
    assert marked[i := f.(removed := true)] == a.open[i := f.(removed := true)];
  }

  lemma {:induction false} RemovedShut(a: State, j: nat, e: DirEntry)
    requires OpenOk(a.open) && j < |a.dir| && FindOpen(a.open, e.sector, 0).None? && e.sector < |a.disk|
    ensures var b := Opened(a, e.sector);
            && FindOpen(b.open, e.sector, 0) == Some(0)
            && var c := b.(dir := b.dir[j := e.(inUse := false)], open := b.open[0 := b.open[0].(removed := true)]);
               FindOpen(c.open, e.sector, 0) == Some(0) && Closed(c, 0) == Removed(a, j, e)
  {
    var f := OpenInode(e.sector, 1, false, TakenFor(a.disk[e.sector]));
    var marked := ([f] + a.open)[0 := f.(removed := true)];
    assert Without(marked, 0) == a.open;
  }

  /** An inode that was opened and is closed again. */
  lemma {:induction false} OpenedAndClosed(a: State, s: nat)
    requires OpenOk(a.open) && (IsOpen(a.open, s) || s < |a.disk|)
    ensures var b := Opened(a, s);
            var i := FindOpen(b.open, s, 0);
            i.Some? && Closed(b, i.value) == Some(a)
  {
    FoundIffOpen(a.open, s);
    if FindOpen(a.open, s, 0).Some? {
      ReopenedAndClosed(a, s);
    } else {
      var f := OpenInode(s, 1, false, TakenFor(a.disk[s]));
      assert Opened(a, s).open == [f] + a.open && FindOpen([f] + a.open, s, 0) == Some(0);
      assert Without([f] + a.open, 0) == a.open;
    }
  }

  lemma {:induction false} ReopenedAndClosed(a: State, s: nat)
    requires OpenOk(a.open) && FindOpen(a.open, s, 0).Some?
    ensures var b, i := Opened(a, s), FindOpen(a.open, s, 0).value;
            FindOpen(b.open, s, 0) == Some(i) && Closed(b, i) == Some(a)
  {
    var i := FindOpen(a.open, s, 0).value;
    var f := a.open[i];
    var more := f.(openCnt := f.openCnt + 1);
    UpdatedOpen(a.open, i, more);
    FoundAt(a.open[i := more], i);
    assert a.open[i := more][i := f] == a.open;
  }

  /** One opener more of the inode in `s`, and of no other. */
  lemma {:induction false} OpenedCounts(a: State, s: nat)
    requires OpenOk(a.open) && (IsOpen(a.open, s) || s < |a.disk|)
    ensures var b := Opened(a, s);
            && OpenOk(b.open) && IsOpen(b.open, s)
            && forall x: nat :: Openers(b.open, x) == Openers(a.open, x) + if x == s then 1 else 0
  {
    FoundIffOpen(a.open, s);
    var found := FindOpen(a.open, s, 0);
    if found.Some? {
      var f := a.open[found.value];
      UpdatedOpen(a.open, found.value, f.(openCnt := f.openCnt + 1));
    } else {
      PushedOpen(a.open, OpenInode(s, 1, false, TakenFor(a.disk[s])));
    }
  }

  /** One opener less of open inode `i`, and of no other. */
  lemma ClosedCounts(a: State, i: nat)
    requires OpenOk(a.open) && i < |a.open| && Closed(a, i).Some?
    ensures var b, s := Closed(a, i).value, a.open[i].sector;
            && OpenOk(b.open)
            && forall x: nat :: Openers(b.open, x) == Openers(a.open, x) - if x == s then 1 else 0
  {
    var f := a.open[i];
    FoundAt(a.open, i);
    DroppedOpen(a.open, i);
    if f.openCnt > 1 {
      UpdatedOpen(a.open, i, f.(openCnt := f.openCnt - 1));
    }
  }

  /** The open inode in sector `s` is marked as removed. */
  predicate WasRemoved(open: seq<OpenInode>, s: nat) {
    var i := FindOpen(open, s, 0);
    i.Some? && open[i.value].removed
  }

  class Files {
    var freeMap: seq<bool>
    var disk: seq<Block>
    var dir: seq<DirEntry>
    var open: seq<OpenInode>

    ghost function Now(): State
      reads this
    {
      State(freeMap, disk, dir, open)
    }

    ghost predicate Shaped()
      reads this
    {
      Now().Shaped()
    }

    ghost predicate Valid()
      reads this
    {
      Now().Consistent()
    }

    /** A disk with no files but the file system's own, of which the free map's is open. */
    constructor (raw: seq<Block>)
      requires 3 + MapSectors(|raw|) <= |raw|
      ensures Now() == Formatted(raw) && Valid() && Now().Tidy()
    {
      freeMap := MarkedTo(|raw|, 2);
      disk := raw;
      dir := NoEntries();
      open := [];
      new;
      ghost var mapped, formatted := WithMap(raw), Formatted(raw);
      FormattedConsistent(raw);
      var ok := InodeCreate(FREE_MAP_SECTOR, 4 * WordCount(|raw|), GOOD);
      ok := InodeCreate(ROOT_DIR_SECTOR, ROOT_ENTRIES * ENTRY_SIZE, GOOD);
      var stopped;
      ok, stopped := InodeOpen(FREE_MAP_SECTOR, true);
    }

    // ---------- free-map.c ----------

    /** The first run of `cnt` free sectors, marked, unless there is none or the map file cannot be
        written. */
    method FreeMapAllocate(cnt: nat, written: bool) returns (r: Option<nat>)
      modifies this`freeMap
      ensures r == if written then Scan(old(freeMap), 0, cnt, false) else None
      ensures r.None? ==> freeMap == old(freeMap)
      ensures r.Some? ==> RunOf(old(freeMap), r.value, cnt, false) && freeMap == Fill(old(freeMap), r.value, cnt, true)
    {
      r := Scan(freeMap, 0, cnt, false);
      ScanIsLeast(freeMap, 0, cnt, false);
      if r.Some? {
        freeMap := Fill(freeMap, r.value, cnt, true);
        if !written {
          freeMap := Fill(freeMap, r.value, cnt, false);
          assert freeMap == old(freeMap);
          r := None;
        }
      }
    }

    /** The sectors are unmarked; the kernel stops if they are not all marked. */
    method FreeMapRelease(sector: nat, cnt: nat) returns (stopped: bool)
      modifies this`freeMap
      ensures stopped <==> !RunOf(old(freeMap), sector, cnt, true)
      ensures freeMap == if stopped then old(freeMap) else Fill(old(freeMap), sector, cnt, false)
    {
      if !RunOf(freeMap, sector, cnt, true) {
        return true;
      }
      freeMap := Fill(freeMap, sector, cnt, false);
      return false;
    }

    // ---------- inode.c ----------

    /** A zeroed file of `length` bytes with its inode in `sector`. */
    method InodeCreate(sector: nat, length: nat, luck: Luck) returns (ok: bool)
      requires sector < |disk| == |freeMap|
      requires freeMap[sector]
      modifies this`freeMap, this`disk
      ensures var r := InodeStep(old(Now()), sector, length, luck);
              ok == r.Some? && Now() == if ok then r.value else old(Now())
      ensures ok ==>
                && disk[sector].InodeBlock? && disk[sector].inode.length == length && HoldsBytes(disk[sector].inode)
                && forall t: nat | InExtent(disk[sector].inode, t) ::
                     t < |disk| && !old(freeMap)[t] && freeMap[t] && disk[t] == DataBlock(Zeros())
    {
      if !luck.memory {
        return false;
      }
      var sectors := SectorsFor(length);
      var start := FreeMapAllocate(sectors, luck.second);
      if start.None? {
        return false;
      }
      ExtentHoldsBytes(DiskInode(start.value, length));
      disk := disk[sector := InodeBlock(DiskInode(start.value, length))];
      WriteZeros(start.value, sectors);
      assert disk == Made(old(disk), sector, DiskInode(start.value, length));
      return true;
    }

    method WriteZeros(start: nat, cnt: nat)
      requires start + cnt <= |disk|
      modifies this`disk
      ensures |disk| == |old(disk)|
      ensures forall t | 0 <= t < |disk| ::
                disk[t] == if start <= t < start + cnt then DataBlock(Zeros()) else old(disk[t])
    {
      for i := 0 to cnt
        invariant |disk| == |old(disk)|
        invariant forall t | 0 <= t < |disk| ::
                    disk[t] == if start <= t < start + i then DataBlock(Zeros()) else old(disk[t])
      {
        disk := disk[start + i := DataBlock(Zeros())];
      }
    }

    method FindOpenInode(sector: nat) returns (r: Option<nat>)
      ensures r == FindOpen(open, sector, 0)
    {
      for i := 0 to |open|
        invariant FindOpen(open, sector, i) == FindOpen(open, sector, 0)
      {
        if open[i].sector == sector {
          return Some(i);
        }
      }
      return None;
    }

    /** One more opener, unless memory runs out; whatever the sector holds is taken for an inode. The
        kernel stops at a sector that is not on the disk. */
    method InodeOpen(sector: nat, memory: bool) returns (ok: bool, stopped: bool)
      requires OpenOk(open)
      modifies this`open
      ensures stopped <==> memory && !IsOpen(old(open), sector) && sector >= |disk|
      ensures ok <==> IsOpen(old(open), sector) || (memory && sector < |disk|)
      ensures Now() == if ok then Opened(old(Now()), sector) else old(Now())
      ensures OpenOk(open) && (ok ==> IsOpen(open, sector))
      ensures forall s: nat :: Openers(open, s) == Openers(old(open), s) + if ok && s == sector then 1 else 0
    {
      FoundIffOpen(open, sector);
      var i := FindOpenInode(sector);
      if i.Some? {
        OpenedCounts(Now(), sector);
        InodeReopen(i.value);
        return true, false;
      }
      if !memory {
        return false, false;
      }
      if sector >= |disk| {
        return false, true;
      }
      OpenedCounts(Now(), sector);
      open := [OpenInode(sector, 1, false, TakenFor(disk[sector]))] + open;
      return true, false;
    }

    /** One more opener of open inode `i`. */
    method InodeReopen(i: nat)
      requires i < |open|
      modifies this`open
      ensures open == old(open)[i := old(open)[i].(openCnt := old(open)[i].openCnt + 1)]
    {
      open := open[i := open[i].(openCnt := open[i].openCnt + 1)];
    }

    /** One opener less. As long as the files are disjoint, nothing stops it, and the sectors of the file,
        and no others, are given back when the last opener of a removed file leaves; if besides the
        directory was always read as it was written, that is a file without a name. */
    method InodeClose(sector: nat) returns (stopped: bool)
      requires Shaped() && IsOpen(open, sector)
      modifies this`open, this`freeMap
      ensures Shaped()
      ensures var i := FindOpen(old(open), sector, 0);
              i.Some? && Closed(old(Now()), i.value) == if stopped then None else Some(Now())
      ensures !stopped ==> forall s: nat :: Openers(open, s) == Openers(old(open), s) - if s == sector then 1 else 0
      ensures old(Valid()) ==>
                && !stopped && Valid() && |freeMap| == |old(freeMap)|
                && forall t | 0 <= t < |freeMap| ::
                     var gone := Openers(open, sector) == 0 && WasRemoved(old(open), sector);
                     freeMap[t] == (old(freeMap[t]) && !(gone && PartOf(disk, sector, t)))
      ensures old(Valid()) && old(Now().Tidy()) ==> (WasRemoved(old(open), sector) <==> !Named(dir, sector))
    {
      FoundIffOpen(open, sector);
      var i := FindOpenInode(sector);
      ghost var a := Now();
      stopped := CloseAt(i.value);
      if !stopped {
        ClosedCounts(a, i.value);
      }
      if a.Consistent() {
        ClosedConsistent(a, i.value);
        assert a.OpenFileOk(a.open[i.value]);
      }
    }

    method CloseAt(i: nat) returns (stopped: bool)
      requires Shaped() && i < |open|
      modifies this`open, this`freeMap
      ensures Shaped() && Closed(old(Now()), i) == if stopped then None else Some(Now())
    {
      var f := open[i];
      if f.openCnt > 1 {
        UpdatedOpen(open, i, f.(openCnt := f.openCnt - 1));
        open := open[i := f.(openCnt := f.openCnt - 1)];
        return false;
      }
      DroppedOpen(open, i);
      open := Without(open, i);
      if !f.removed {
        return false;
      }
      stopped := FreeMapRelease(f.sector, 1);
      if !stopped {
        stopped := FreeMapRelease(f.data.start, SectorsFor(f.data.length));
      }
    }

    // ---------- directory.c ----------

    /** The first slot that is read as in use with this name. */
    method Lookup(name: string, seen: seq<DirEntry>) returns (r: Option<nat>)
      ensures r == FindName(seen, name, 0)
    {
      for i := 0 to |seen|
        invariant FindName(seen, name, i) == FindName(seen, name, 0)
      {
        if seen[i].inUse && seen[i].name == name {
          return Some(i);
        }
      }
      return None;
    }

    /** The first slot that is read as free is written. */
    method DirAdd(name: string, sector: nat, seen: seq<DirEntry>) returns (ok: bool)
      requires |seen| == |dir|
      modifies this`dir
      ensures ok <==> Addable(seen, name)
      ensures dir == if ok then old(dir)[FindFree(seen, 0).value := DirEntry(sector, name, true)] else old(dir)
    {
      if |name| == 0 || |name| > NAME_MAX {
        return false;
      }
      var found := Lookup(name, seen);
      if found.Some? {
        return false;
      }
      var i := 0;
      while i < |seen| && seen[i].inUse
        invariant 0 <= i <= |seen| && FindFree(seen, i) == FindFree(seen, 0)
      {
        i := i + 1;
      }
      if i == |seen| {
        return false;
      }
      dir := dir[i := DirEntry(sector, name, true)];
      return true;
    }

    /** The file of the record that is read in slot `j` is removed. */
    method RemoveEntry(j: nat, e: DirEntry, memory: bool) returns (ok: bool, stopped: bool)
      requires Shaped() && j < |dir|
      modifies this`dir, this`open, this`freeMap
      ensures Shaped()
      ensures if !Gettable(old(Now()), e.sector, memory) then !ok && !stopped && Now() == old(Now())
              else ok == !stopped && Removed(old(Now()), j, e) == if stopped then None else Some(Now())
    {
      ghost var a := Now();
      FoundIffOpen(open, e.sector);
      ok, stopped := InodeOpen(e.sector, memory || e.sector == ROOT_DIR_SECTOR);
      if !ok {
        return;
      }
      RemovedInSteps(a, j, e);
      dir := dir[j := e.(inUse := false)];
      var i := FindOpenInode(e.sector);
      UpdatedOpen(open, i.value, open[i.value].(removed := true));
      open := open[i.value := open[i.value].(removed := true)];
      stopped := InodeClose(e.sector);
      ok := !stopped;
    }

    // ---------- filesys.c ----------

    /** A file of `size` zero bytes under a new name. Whatever the reads of the directory return, the files
        stay disjoint and no sector that is marked changes. The free map is written once for the inode
        and once for the data. */
    method Create(name: string, size: nat, luck: Luck, seen: seq<DirEntry>) returns (ok: bool)
      requires Shaped() && |seen| == |dir|
      modifies this
      ensures Shaped() && Now() == CreateStep(old(Now()), name, size, luck, seen)
      ensures ok <==> Creates(old(Now()), name, size, luck, seen)
      ensures old(Valid()) ==>
                && Valid() && MarkedSame(old(Now()), Now())
                && (ok ==> NewFile(old(Now()), Now(), dir[FindFree(seen, 0).value].sector, size))
                && (!ok ==> dir == old(dir) && (freeMap == old(freeMap) || !Addable(seen, name)))
      ensures ok && seen == old(dir) ==> FindName(dir, name, 0) == FindFree(seen, 0)
    {
      if Now().Consistent() {
        CreateConsistent(Now(), name, size, luck, seen);
        CreateChanges(Now(), name, size, luck, seen);
      }
      if !luck.root {
        return false;
      }
      var r := FreeMapAllocate(1, luck.first);
      if r.None? {
        return false;
      }
      ok := FillIn(r.value, name, size, luck, seen);
      if ok {
        OnlyName(seen, FindFree(seen, 0).value, r.value, name);
      }
    }

    /** The inode, the data and the name of a file for whose inode a sector is marked. */
    method FillIn(s: nat, name: string, size: nat, luck: Luck, seen: seq<DirEntry>) returns (ok: bool)
      requires Shaped() && s < |freeMap| && freeMap[s] && |seen| == |dir|
      modifies this`freeMap, this`disk, this`dir
      ensures Shaped() && Now() == CreateAt(old(Now()), s, name, size, luck, seen)
      ensures ok <==> InodeStep(old(Now()), s, size, luck).Some? && Addable(seen, name)
    {
      ok := InodeCreate(s, size, luck);
      if ok {
        ok := DirAdd(name, s, seen);
      }
      if !ok && s != 0 {
        ghost var marked := freeMap;
        var stopped := FreeMapRelease(s, 1);
        assert freeMap == GivenBack(marked, s);
      }
    }

    /** One more opener of the file that a name leads to. */
    method Open(name: string, luck: Luck, seen: seq<DirEntry>) returns (r: Option<nat>, stopped: bool)
      requires Shaped()
      modifies this`open, this`freeMap
      ensures Shaped()
      ensures OpenStep(old(Now()), name, luck, seen) == if stopped then None else Some(Now())
      ensures r == if stopped || !luck.first then None else Led(old(Now()), name, luck, seen)
      ensures old(Valid()) && seen == dir ==>
                && !stopped && Valid()
                && var j := FindName(dir, name, 0);
                   && (r.Some? <==> luck.root && j.Some? && luck.first &&
                                    (luck.memory || IsOpen(old(open), dir[j.value].sector)))
                   && (r.Some? ==> r.value == dir[j.value].sector)
      ensures forall s: nat :: Openers(open, s) == Openers(old(open), s) + if r == Some(s) then 1 else 0
    {
      if !luck.root {
        return None, false;
      }
      var j := Lookup(name, seen);
      if j.None? {
        return None, false;
      }
      if Now().Consistent() && seen == dir {
        EntryLeads(Now(), j.value);
        OpenedIff(Now(), seen[j.value].sector);
      }
      r, stopped := OpenSector(seen[j.value].sector, luck);
    }

    /** The inode in a sector is opened, and a file structure for it. */
    method OpenSector(s: nat, luck: Luck) returns (r: Option<nat>, stopped: bool)
      requires Shaped()
      modifies this`open, this`freeMap
      ensures Shaped()
      ensures stopped <==> Gettable(old(Now()), s, luck.memory) && !IsOpen(old(open), s) && s >= |disk|
      ensures r == if !stopped && luck.first && Gettable(old(Now()), s, luck.memory) then Some(s) else None
      ensures Now() == if r.Some? then Opened(old(Now()), s) else old(Now())
      ensures forall x: nat :: Openers(open, x) == Openers(old(open), x) + if r == Some(x) then 1 else 0
    {
      if IsOpen(open, s) || s < |disk| {
        OpenedAndClosed(Now(), s);
      }
      var ok;
      ok, stopped := InodeOpen(s, luck.memory || s == ROOT_DIR_SECTOR);
      if !ok {
        return None, stopped;
      }
      r, stopped := FileOpen(s, luck.first);
    }

    /** A file structure for an open inode, which is closed again if there is no memory for it. */
    method FileOpen(s: nat, memory: bool) returns (r: Option<nat>, stopped: bool)
      requires Shaped() && IsOpen(open, s)
      modifies this`open, this`freeMap
      ensures Shaped() && r == if memory then Some(s) else None
      ensures var i := FindOpen(old(open), s, 0);
              && i.Some?
              && (if memory then Some(old(Now())) else Closed(old(Now()), i.value)) == if stopped then None else Some(Now())
      ensures !stopped ==> forall x: nat :: Openers(open, x) == Openers(old(open), x) - if !memory && x == s then 1 else 0
    {
      FoundIffOpen(open, s);
      if memory {
        return Some(s), false;
      }
      r := None;
      stopped := InodeClose(s);
    }

    /** One more opener of an open file, whether it has a name or not. */
    method Reopen(s: nat, memory: bool) returns (r: Option<nat>)
      requires Shaped() && IsOpen(open, s)
      modifies this`open, this`freeMap
      ensures Shaped() && r == if memory then Some(s) else None
      ensures Now() == if memory then Opened(old(Now()), s) else old(Now())
      ensures forall x: nat :: Openers(open, x) == Openers(old(open), x) + if memory && x == s then 1 else 0
    {
      OpenedAndClosed(Now(), s);
      OpenedCounts(Now(), s);
      FoundIffOpen(open, s);
      var i := FindOpenInode(s);
      InodeReopen(i.value);
      var stopped;
      r, stopped := FileOpen(s, memory);
    }

    /** The file that a name leads to loses it. */
    method Remove(name: string, luck: Luck, seen: seq<DirEntry>) returns (ok: bool, stopped: bool)
      requires Shaped() && |seen| == |dir|
      modifies this`dir, this`open, this`freeMap
      ensures Shaped()
      ensures RemoveStep(old(Now()), name, luck, seen) == if stopped then None else Some(Now())
      ensures ok == (!stopped && Led(old(Now()), name, luck, seen).Some?)
      ensures old(Valid()) && seen == old(dir) ==>
                && !stopped && Valid()
                && (ok <==> luck.root && FindName(seen, name, 0).Some? &&
                            (luck.memory || IsOpen(old(open), seen[FindName(seen, name, 0).value].sector)))
                && (ok ==> Unlinked(old(Now()), FindName(seen, name, 0).value, Now()))
                && (ok && old(Now().Tidy()) ==> FindName(dir, name, 0).None?)
    {
      if !luck.root {
        return false, false;
      }
      var found := Lookup(name, seen);
      if found.None? {
        return false, false;
      }
      if Now().Consistent() && seen == dir {
        RightRemoval(Now(), found.value);
      }
      ok, stopped := RemoveEntry(found.value, seen[found.value], luck.memory);
    }

    /** A block of an open file is written; the kernel stops at a sector that is not on the disk. */
    method WriteBlock(sector: nat, k: nat, bytes: seq<Byte>) returns (stopped: bool)
      requires Shaped()
      modifies this`disk
      ensures Shaped() && WriteStep(old(Now()), sector, k, bytes) == if stopped then None else Some(Now())
      ensures var i := FindOpen(open, sector, 0);
              if i.Some? && k * SECTOR_SIZE < open[i.value].data.length then
                var t := SectorAt(open[i.value].data, k * SECTOR_SIZE);
                && (stopped <==> t >= |disk|)
                && disk == if stopped then old(disk) else old(disk)[t := DataBlock(bytes)]
              else !stopped && disk == old(disk)
    {
      var i := FindOpenInode(sector);
      if i.Some? {
        BlocksHaveBytes(open[i.value].data.length, k);
      }
      if i.None? || k >= SectorsFor(open[i.value].data.length) {
        return false;
      }
      var t := open[i.value].data.start + k;
      if t >= |disk| {
        return true;
      }
      disk := disk[t := DataBlock(bytes)];
      return false;
    }
  }
}
