/** A run from a formatted disk of eight sectors in which a removed name comes back, and a block of an
    open file is given away. */
module FailingRun {
  import opened Common
  import opened Bitmaps
  import opened FileSystem
  import opened FileRuns
  import CacheSteps
  import DirectorySlots

  function Entries(first: DirEntry, second: DirEntry): seq<DirEntry> {
    NoEntries()[0 := first][1 := second]
  }

  const NONE: DirEntry := DirEntry(0, "", false)
  const A: DirEntry := DirEntry(4, "a", true)
  const B: DirEntry := DirEntry(6, "b", true)
  const X: DirEntry := DirEntry(4, "x", true)
  const MAP: OpenInode := OpenInode(FREE_MAP_SECTOR, 1, false, DiskInode(2, 4))
  const XOPEN: OpenInode := OpenInode(4, 1, false, DiskInode(5, 1024))

  /** The parts of a state that the run is about. */
  predicate At(a: State, freeMap: seq<bool>, first: DirEntry, second: DirEntry, open: seq<OpenInode>) {
    |a.disk| == 8 && a.freeMap == freeMap && a.dir == Entries(first, second) && a.open == open
  }

  /** A file is created where there is room for it. */
  lemma CreatesAt(a: State, name: string, size: nat, s: nat, k: nat)
    requires |a.disk| == |a.freeMap| && Scan(a.freeMap, 0, 1, false) == Some(s) && s < |a.freeMap|
    requires Scan(Fill(a.freeMap, s, 1, true), 0, SectorsFor(size), false) == Some(k) && k + SectorsFor(size) <= |a.freeMap|
    requires Addable(a.dir, name)
    ensures CreateStep(a, name, size, GOOD, a.dir) ==
            State(Fill(Fill(a.freeMap, s, 1, true), k, SectorsFor(size), true), Made(a.disk, s, DiskInode(k, size)),
                  a.dir[FindFree(a.dir, 0).value := DirEntry(s, name, true)], a.open)
  {
  }

  const T4: seq<bool> := [true, true, true, true, false, false, false, false]
  const T6: seq<bool> := [true, true, true, true, true, true, false, false]
  const T7: seq<bool> := [true, true, true, true, true, true, true, false]
  const T8: seq<bool> := [true, true, true, true, true, true, true, true]

  lemma Formats(raw: seq<Block>)
    requires |raw| == 8
    ensures MapSectors(8) == 1 && At(Formatted(raw), T4, NONE, NONE, [MAP])
  {
  }

  lemma CreatesA(a: State)
    requires At(a, T4, NONE, NONE, [MAP])
    ensures var b := CreateStep(a, "a", 512, GOOD, a.dir);
            At(b, T6, A, NONE, [MAP]) && b.disk[4] == InodeBlock(DiskInode(5, 512))
  {
    ScanForOne(T4, 0, 4, false);
    var marked := Fill(T4, 4, 1, true);
    ScanForOne(marked, 0, 5, false);
    assert SectorsFor(512) == 1 && Fill(marked, 5, 1, true) == T6;
    assert FindFree(a.dir, 0) == Some(0);
    CreatesAt(a, "a", 512, 4, 5);
    assert Entries(NONE, NONE)[0 := A] == Entries(A, NONE);
  }

  lemma CreatesB(a: State)
    requires At(a, T6, A, NONE, [MAP]) && a.disk[4] == InodeBlock(DiskInode(5, 512))
    ensures var b := CreateStep(a, "b", 512, GOOD, a.dir);
            && At(b, T8, A, B, [MAP])
            && b.disk[4] == InodeBlock(DiskInode(5, 512)) && b.disk[6] == InodeBlock(DiskInode(7, 512))
  {
    ScanForOne(T6, 0, 6, false);
    var marked := Fill(T6, 6, 1, true);
    ScanForOne(marked, 0, 7, false);
    assert SectorsFor(512) == 1 && Fill(marked, 7, 1, true) == T8;
    assert a.dir[0] == A && a.dir[1] == NONE;
    assert FindFree(a.dir, 1) == Some(1);
    CreatesAt(a, "b", 512, 6, 7);
    assert Entries(A, NONE)[1 := B] == Entries(A, B);
  }

  lemma RemovesB(a: State)
    requires At(a, T8, A, B, [MAP]) && a.disk[4] == InodeBlock(DiskInode(5, 512)) && a.disk[6] == InodeBlock(DiskInode(7, 512))
    ensures var r := RemoveStep(a, "b", GOOD, a.dir);
            r.Some? && At(r.value, T6, A, B.(inUse := false), [MAP]) && r.value.disk == a.disk
  {
    assert a.dir[0] == A && a.dir[1] == B;
    assert FindName(a.dir, "b", 1) == Some(1);
    assert FindOpen(a.open, 6, 0) == None;
    assert SectorsFor(512) == 1;
    var once := Fill(T8, 6, 1, false);
    assert Fill(once, 7, 1, false) == T6;
    assert Entries(A, B)[1 := B.(inUse := false)] == Entries(A, B.(inUse := false));
  }

  lemma RemovesA(a: State)
    requires At(a, T6, A, B.(inUse := false), [MAP]) && a.disk[4] == InodeBlock(DiskInode(5, 512))
    ensures var r := RemoveStep(a, "a", GOOD, a.dir);
            r.Some? && At(r.value, T4, A.(inUse := false), B.(inUse := false), [MAP])
  {
  }

  lemma CreatesX(a: State)
    requires At(a, T4, A.(inUse := false), B.(inUse := false), [MAP])
    ensures var b := CreateStep(a, "x", 1024, GOOD, a.dir);
            && At(b, T7, X, B.(inUse := false), [MAP])
            && b.disk[4] == InodeBlock(DiskInode(5, 1024)) && b.disk[6] == DataBlock(Zeros())
  {
    ScanForOne(T4, 0, 4, false);
    var marked := Fill(T4, 4, 1, true);
    assert SectorsFor(1024) == 2;
    ScanIsLeast(marked, 0, 2, false);
    assert marked[0] && marked[1] && marked[2] && marked[3] && marked[4] && RunOf(marked, 5, 2, false);
    assert Scan(marked, 0, 2, false) == Some(5);
    assert Fill(marked, 5, 2, true) == T7;
    assert FindFree(a.dir, 0) == Some(0);
    assert FindName(a.dir, "x", 0) == None;
    CreatesAt(a, "x", 1024, 4, 5);
    assert Entries(A.(inUse := false), B.(inUse := false))[0 := X] == Entries(X, B.(inUse := false));
  }

  lemma OpensX(a: State)
    requires At(a, T7, X, B.(inUse := false), [MAP]) && a.disk[4] == InodeBlock(DiskInode(5, 1024))
    ensures var r := OpenStep(a, "x", GOOD, a.dir);
            r.Some? && At(r.value, T7, X, B.(inUse := false), [XOPEN, MAP]) && r.value.disk == a.disk
  {
  }

  /** The removal of "b" by the record that came back. */
  lemma RemovesBAgain(a: State)
    requires At(a, T7, X, B.(inUse := false), [XOPEN, MAP])
    requires a.disk[4] == InodeBlock(DiskInode(5, 1024)) && a.disk[6] == DataBlock(Zeros())
    ensures var r := RemoveStep(a, "b", GOOD, Entries(X, B));
            && r.Some? && At(r.value, T6, X, B.(inUse := false), [XOPEN, MAP]) && r.value.disk == a.disk
            && !Harmless(a, Deed(RemoveOp("b", Entries(X, B)), GOOD))
  {
    var seen := Entries(X, B);
    assert seen[0] == X && seen[1] == B && FindName(seen, "b", 1) == Some(1);
    assert FindOpen(a.open, 6, 2) == None;
    FoundIffOpen(a.open, 6);
    assert WordAt(Zeros(), 0) == 0 && WordAt(Zeros(), 4) == 0;
    assert Fill(Fill(T7, 6, 1, false), 0, 0, false) == T6;
    assert Entries(X, B.(inUse := false))[1 := B.(inUse := false)] == Entries(X, B.(inUse := false));
    var b := a.(dir := a.dir[1 := B.(inUse := false)]);
    assert b.open[0].sector == 4 && b.Exists(4);
    assert PartOf(a.disk, 6, 6) && PartOf(a.disk, 4, 6) && !Apart(a.disk, 6, 4);
  }

  /** The next file has its inode in the block that was given away. */
  lemma CreatesZ(a: State)
    requires At(a, T6, X, B.(inUse := false), [XOPEN, MAP]) && a.disk[4] == InodeBlock(DiskInode(5, 1024))
    ensures var b := CreateStep(a, "z", 0, GOOD, a.dir);
            && b.Exists(4) && b.Exists(6) && IsOpen(b.open, 4)
            && PartOf(b.disk, 4, 6) && PartOf(b.disk, 6, 6) && b.disk[6] == InodeBlock(DiskInode(0, 0))
  {
    ScanForOne(T6, 0, 6, false);
    var marked := Fill(T6, 6, 1, true);
    assert SectorsFor(0) == 0 && Scan(marked, 0, 0, false) == Some(0);
    assert a.dir[0] == X && !a.dir[1].inUse && FindFree(a.dir, 1) == Some(1);
    assert FindName(a.dir, "z", 0) == None;
    CreatesAt(a, "z", 0, 6, 0);
    var b := CreateStep(a, "z", 0, GOOD, a.dir);
    assert b.dir[1].inUse && b.dir[1].sector == 6 && b.open[0].sector == 4;
  }

  function Good(op: Op): Deed {
    Deed(op, GOOD)
  }

  /** The run: create "a" and "b", remove "b" and "a", create "x" and open it, all with right reads; then
      remove "b", whose slot is read as it was before it was erased; then create "z". */
  function Deeds(): seq<Deed> {
    [Good(CreateOp("a", 512, Entries(NONE, NONE))),
     Good(CreateOp("b", 512, Entries(A, NONE))),
     Good(RemoveOp("b", Entries(A, B))),
     Good(RemoveOp("a", Entries(A, B.(inUse := false)))),
     Good(CreateOp("x", 1024, Entries(A.(inUse := false), B.(inUse := false)))),
     Good(OpenOp("x", Entries(X, B.(inUse := false)))),
     Good(RemoveOp("b", Entries(X, B))),
     Good(CreateOp("z", 0, Entries(X, B.(inUse := false))))]
  }

  /** The state after the first `i` operations. */
  function After(raw: seq<Block>, i: nat): Option<State>
    requires |raw| == 8 && i <= 8
  {
    Formats(raw);
    Runs(Formatted(raw), Deeds()[..i])
  }

  lemma Next(raw: seq<Block>, i: nat, a: State)
    requires |raw| == 8 && i < 8 && After(raw, i) == Some(a)
    ensures After(raw, i + 1) == Step(a, Deeds()[i])
  {
    Formats(raw);
    OneMore(Formatted(raw), Deeds(), i);
  }

  // Stage by stage.

  lemma Stage1(raw: seq<Block>)
    requires |raw| == 8
    ensures After(raw, 0) == Some(Formatted(raw)) && At(Formatted(raw), T4, NONE, NONE, [MAP])
    ensures After(raw, 1).Some? && At(After(raw, 1).value, T6, A, NONE, [MAP])
    ensures After(raw, 1).value.disk[4] == InodeBlock(DiskInode(5, 512))
  {
    Formats(raw);
    assert Deeds()[..0] == [];
    Next(raw, 0, Formatted(raw));
    CreatesA(Formatted(raw));
  }

  lemma Stage2(raw: seq<Block>)
    requires |raw| == 8
    ensures After(raw, 2).Some? && At(After(raw, 2).value, T8, A, B, [MAP])
    ensures After(raw, 2).value.disk[4] == InodeBlock(DiskInode(5, 512))
    ensures After(raw, 2).value.disk[6] == InodeBlock(DiskInode(7, 512))
  {
    Stage1(raw);
    Next(raw, 1, After(raw, 1).value);
    CreatesB(After(raw, 1).value);
  }

  lemma Stage3(raw: seq<Block>)
    requires |raw| == 8
    ensures After(raw, 3).Some? && At(After(raw, 3).value, T6, A, B.(inUse := false), [MAP])
    ensures After(raw, 3).value.disk[4] == InodeBlock(DiskInode(5, 512))
  {
    Stage2(raw);
    Next(raw, 2, After(raw, 2).value);
    RemovesB(After(raw, 2).value);
  }

  lemma Stage4(raw: seq<Block>)
    requires |raw| == 8
    ensures After(raw, 4).Some? && At(After(raw, 4).value, T4, A.(inUse := false), B.(inUse := false), [MAP])
  {
    Stage3(raw);
    Next(raw, 3, After(raw, 3).value);
    RemovesA(After(raw, 3).value);
  }

  lemma Stage5(raw: seq<Block>)
    requires |raw| == 8
    ensures After(raw, 5).Some? && At(After(raw, 5).value, T7, X, B.(inUse := false), [MAP])
    ensures After(raw, 5).value.disk[4] == InodeBlock(DiskInode(5, 1024)) && After(raw, 5).value.disk[6] == DataBlock(Zeros())
  {
    Stage4(raw);
    Next(raw, 4, After(raw, 4).value);
    CreatesX(After(raw, 4).value);
  }

  lemma Stage6(raw: seq<Block>)
    requires |raw| == 8
    ensures After(raw, 6).Some? && At(After(raw, 6).value, T7, X, B.(inUse := false), [XOPEN, MAP])
    ensures After(raw, 6).value.disk[4] == InodeBlock(DiskInode(5, 1024)) && After(raw, 6).value.disk[6] == DataBlock(Zeros())
  {
    Stage5(raw);
    Next(raw, 5, After(raw, 5).value);
    OpensX(After(raw, 5).value);
  }

  lemma Stage7(raw: seq<Block>)
    requires |raw| == 8
    ensures After(raw, 6).Some? && !Harmless(After(raw, 6).value, Deeds()[6])
    ensures After(raw, 7).Some? && At(After(raw, 7).value, T6, X, B.(inUse := false), [XOPEN, MAP])
    ensures After(raw, 7).value.disk[4] == InodeBlock(DiskInode(5, 1024))
  {
    Stage6(raw);
    Next(raw, 6, After(raw, 6).value);
    RemovesBAgain(After(raw, 6).value);
  }

  lemma Stage8(raw: seq<Block>)
    requires |raw| == 8
    ensures After(raw, 8).Some?
    ensures var b := After(raw, 8).value;
            b.Exists(4) && IsOpen(b.open, 4) && b.Exists(6) && PartOf(b.disk, 4, 6) && PartOf(b.disk, 6, 6)
  {
    Stage7(raw);
    Next(raw, 7, After(raw, 7).value);
    CreatesZ(After(raw, 7).value);
  }

  /** Before the operation `i` the directory is as the operation reads it. */
  lemma RightAt(raw: seq<Block>, i: nat)
    requires |raw| == 8 && i < 8
    ensures After(raw, i).Some? && (i != 6 ==> ReadsRight(Deeds()[i].op, After(raw, i).value.dir))
  {
    match i
    case 0 => Stage1(raw);
    case 1 => Stage1(raw);
    case 2 => Stage2(raw);
    case 3 => Stage3(raw);
    case 4 => Stage4(raw);
    case 5 => Stage5(raw);
    case 6 => Stage6(raw);
    case _ => Stage7(raw);
  }

  /** In the end the open file "x" and the new file "z" share sector 6. */
  lemma NameComesBack(raw: seq<Block>)
    requires |raw| == 8
    ensures forall i | 0 <= i < 8 :: After(raw, i).Some? && (i != 6 ==> ReadsRight(Deeds()[i].op, After(raw, i).value.dir))
    ensures After(raw, 2).value.dir == Entries(A, B) && After(raw, 6).value.dir == Entries(X, B.(inUse := false))
    ensures After(raw, 6).value.Consistent() && !Harmless(After(raw, 6).value, Deeds()[6])
    ensures After(raw, 8).Some?
    ensures var b := After(raw, 8).value;
            && b.Exists(4) && IsOpen(b.open, 4) && b.Exists(6) && PartOf(b.disk, 4, 6) && PartOf(b.disk, 6, 6)
            && !b.Disjoint()
  {
    forall i | 0 <= i < 8 {
      RightAt(raw, i);
    }
    Stage2(raw);
    Stage6(raw);
    Stage7(raw);
    Stage8(raw);
    assert !Apart(After(raw, 8).value.disk, 4, 6);
    RightSoFar(raw);
  }

  lemma RightSoFar(raw: seq<Block>)
    requires |raw| == 8 && After(raw, 6).Some?
    requires forall i | 0 <= i < 6 :: After(raw, i).Some? && ReadsRight(Deeds()[i].op, After(raw, i).value.dir)
    ensures After(raw, 6).value.Consistent()
  {
    Formats(raw);
    FormattedConsistent(raw);
    var a, ds := Formatted(raw), Deeds()[..6];
    assert forall i | 0 <= i <= 6 :: ds[..i] == Deeds()[..i];
    assert AllRight(a, ds) by {
      forall i | 0 <= i < 6
        ensures ReadsRight(ds[i].op, Runs(a, ds[..i]).value.dir)
      {
        assert After(raw, i).Some? && ds[i] == Deeds()[i];
      }
    }
    RightRun(a, ds, 6);
  }

  /** That the slot of "b" is read so is what the cache makes of this run. If the directory on the disk is
      as it is after the first two operations, and the cache empty, erasing slot 1, erasing slot 0 and
      writing "x" into slot 0 leaves nothing to be written behind. What was written is what the
      directory is before the wrong read, and what the disk holds is what is then read. */
  lemma SlotIsBack(inodes: seq<CacheSteps.Inode>, disk: seq<CacheSteps.Sector>, d: nat)
    returns (ops: seq<CacheSteps.Op>, t: CacheSteps.State, after: seq<CacheSteps.Sector>)
    requires CacheSteps.Placed(inodes, |disk|) && d < |inodes| && inodes[d].length == ROOT_ENTRIES * ENTRY_SIZE
    requires DirectorySlots.Layout(inodes, d, ENTRY_SIZE, ROOT_ENTRIES)
    requires DirectorySlots.Records(inodes, disk, d, ENTRY_SIZE, ROOT_ENTRIES) == Entries(A, B)
    ensures CacheSteps.Over(inodes, ops) && |t.disk| == |after| == |disk|
    ensures CacheSteps.Outcome(inodes, CacheSteps.Empty(disk), disk, ops) == (t, after)
    ensures forall i | 0 <= i < |t.entries| :: !t.entries[i].dirty
    ensures DirectorySlots.Records(inodes, after, d, ENTRY_SIZE, ROOT_ENTRIES) == Entries(X, B.(inUse := false))
    ensures DirectorySlots.Records(inodes, t.disk, d, ENTRY_SIZE, ROOT_ENTRIES) == Entries(X, B) == Deeds()[6].op.seen
  {
    DirectorySlots.DecodedEncoded(X);
    ops, t, after := DirectorySlots.FirstSlotAgain(inodes, disk, d, ENTRY_SIZE, ROOT_ENTRIES, DirectorySlots.Encoded(X));
    assert Entries(A, B)[0 := X] == Entries(X, B);
    assert Entries(X, B)[1 := B.(inUse := false)] == Entries(X, B.(inUse := false));
  }
}
