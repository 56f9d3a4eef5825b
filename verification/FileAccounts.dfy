/** What operations on files do, told from the operations alone: how many openers every file has, what the blocks of
    an open file hold, and, while the directory is read as it was written, which names there are and where
    their files are. */
module FileAccounts {
  import opened Common
  import opened Bitmaps
  import opened FileSystem
  import opened FileRuns

  // ---------- Openers ----------

  /** The operation opens the file `s`. */
  predicate Opens(a: State, d: Deed, s: nat) {
    match d.op
    case OpenOp(name, seen) => d.luck.first && Led(a, name, d.luck, seen) == Some(s)
    case ReopenOp(x) => x == s && d.luck.memory && IsOpen(a.open, s)
    case _ => false
  }

  /** An opener of the file `s` leaves. */
  predicate Leaves(a: State, d: Deed, s: nat) {
    d.op == CloseOp(s) && IsOpen(a.open, s)
  }

  /** Every operation changes the number of openers of every file by those who come and leave, whatever the reads
      of the directory return. */
  lemma {:induction false} StepOpeners(a: State, d: Deed, s: nat)
    requires OpenOk(a.open) && Fits(d.op, |a.dir|) && Step(a, d).Some?
    ensures var b := Step(a, d).value;
            && OpenOk(b.open)
            && Openers(b.open, s) + (if Leaves(a, d, s) then 1 else 0) == Openers(a.open, s) + if Opens(a, d, s) then 1 else 0
  {
    match d.op
    case CreateOp(name, size, seen) => CreateSameOpen(a, name, size, d.luck, seen);
    case OpenOp(name, seen) =>
      if Led(a, name, d.luck, seen).Some? {
        OpenedCounts(a, Led(a, name, d.luck, seen).value);
      }
    case RemoveOp(name, seen) =>
      if Led(a, name, d.luck, seen).Some? {
        var i := FindOpen(a.open, Led(a, name, d.luck, seen).value, 0);
        if i.Some? {
          UpdatedOpen(a.open, i.value, a.open[i.value].(removed := true));
        }
      }
    case ReopenOp(x) =>
      if IsOpen(a.open, x) {
        OpenedCounts(a, x);
      }
    case CloseOp(x) =>
      FoundIffOpen(a.open, x);
      var i := FindOpen(a.open, x, 0);
      if i.Some? {
        ClosedCounts(a, i.value);
      }
    case WriteOp(x, k, bytes) =>
  }

  /** How often a run opens the file `s`. */
  function Comings(a: State, ds: seq<Deed>, s: nat): nat
    requires AllFit(ds, |a.dir|) && Runs(a, ds).Some?
  {
    if ds == [] then 0
    else
      var m := |ds| - 1;
      Comings(a, ds[..m], s) + if Opens(Runs(a, ds[..m]).value, ds[m], s) then 1 else 0
  }

  /** How often it closes it. */
  function Goings(a: State, ds: seq<Deed>, s: nat): nat
    requires AllFit(ds, |a.dir|) && Runs(a, ds).Some?
  {
    if ds == [] then 0
    else
      var m := |ds| - 1;
      Goings(a, ds[..m], s) + if Leaves(Runs(a, ds[..m]).value, ds[m], s) then 1 else 0
  }

  /** Over every run, from any state and whatever the reads of the directory return, every file has the openers that
      it had and that came, less those that left. */
  lemma {:induction false} OpenersAccounted(a: State, ds: seq<Deed>, s: nat)
    requires OpenOk(a.open) && AllFit(ds, |a.dir|) && Runs(a, ds).Some?
    ensures var b := Runs(a, ds).value;
            OpenOk(b.open) && Openers(b.open, s) + Goings(a, ds, s) == Openers(a.open, s) + Comings(a, ds, s)
  {
    if ds != [] {
      var m := |ds| - 1;
      OpenersAccounted(a, ds[..m], s);
      StepOpeners(Runs(a, ds[..m]).value, ds[m], s);
    }
  }

  // ---------- Blocks ----------

  /** The operation does not close the last opener of the file `s`. */
  predicate LeavesOpen(a: State, s: nat, op: Op) {
    !(op == CloseOp(s) && Openers(a.open, s) == 1)
  }

  /** Sector `t` is block `k` of the file `s`. */
  predicate BlockOf(disk: seq<Block>, s: nat, k: nat, t: nat) {
    && s < |disk| && k * SECTOR_SIZE < TakenFor(disk[s]).length
    && t == SectorAt(TakenFor(disk[s]), k * SECTOR_SIZE)
  }

  /** What an operation leaves in block `k` of the file `s`. */
  function Put(op: Op, s: nat, k: nat, before: Block): Block {
    if op.WriteOp? && op.sector == s && op.k == k then DataBlock(op.bytes) else before
  }

  lemma WriteBlocks(a: State, s: nat, d: Deed, k: nat, t: nat)
    requires a.Consistent() && IsOpen(a.open, s) && d.op.WriteOp? && d.op.sector == s && Step(a, d).Some?
    requires BlockOf(a.disk, s, k, t)
    ensures var b := Step(a, d).value;
            t < |a.disk| && |b.disk| == |a.disk| && b.disk[s] == a.disk[s] && b.disk[t] == Put(d.op, s, k, a.disk[t])
  {
    FoundIffOpen(a.open, s);
    assert a.OpenFileOk(a.open[FindOpen(a.open, s, 0).value]);
    assert a.Exists(s) && FileOk(a.freeMap, a.disk, s);
    BlocksHaveBytes(TakenFor(a.disk[s]).length, k);
    BlocksHaveBytes(TakenFor(a.disk[s]).length, d.op.k);
    if Target(a, s, d.op.k).Some? {
      TargetInside(a, s, d.op.k);
    }
  }

  /** A write to a block of an open file leaves its bytes there, and no other operation changes the block. */
  lemma StepBlocks(a: State, s: nat, d: Deed, k: nat, t: nat)
    requires a.Consistent() && IsOpen(a.open, s) && Fits(d.op, |a.dir|) && BlockOf(a.disk, s, k, t)
    requires Step(a, d).Some? && Step(a, d).value.Consistent() && LeavesOpen(a, s, d.op)
    ensures var b := Step(a, d).value;
            && IsOpen(b.open, s) && BlockOf(b.disk, s, k, t)
            && t < |a.disk| == |b.disk| && b.disk[t] == Put(d.op, s, k, a.disk[t])
  {
    if d.op.WriteOp? && d.op.sector == s {
      WriteBlocks(a, s, d, k, t);
    } else {
      StepSpares(a, s, d);
      BlocksHaveBytes(TakenFor(a.disk[s]).length, k);
      assert FileOk(a.freeMap, a.disk, s) by {
        assert a.Exists(s);
      }
      assert PartOf(a.disk, s, s) && PartOf(a.disk, s, t);
    }
  }

  ghost predicate AllLeaveOpen(a: State, s: nat, ds: seq<Deed>)
    requires AllFit(ds, |a.dir|)
  {
    forall i | 0 <= i < |ds| && Runs(a, ds[..i]).Some? :: LeavesOpen(Runs(a, ds[..i]).value, s, ds[i].op)
  }

  /** What was written last to block `k` of the file `s`, or what it held at first. */
  function LastPut(ds: seq<Deed>, s: nat, k: nat, first: Block): Block {
    if ds == [] then first else Put(ds[|ds| - 1].op, s, k, LastPut(ds[..|ds| - 1], s, k, first))
  }

  /** Over every run of harmless operations that leaves a file open, each of its blocks holds what was written there
      last, whatever else is created, opened, removed, written and closed. */
  lemma {:induction false} BlocksAccounted(a: State, s: nat, ds: seq<Deed>, k: nat, t: nat, i: nat)
    requires a.Consistent() && IsOpen(a.open, s) && AllFit(ds, |a.dir|) && i <= |ds| && BlockOf(a.disk, s, k, t)
    requires AllHarmless(a, ds) && AllLeaveOpen(a, s, ds) && Runs(a, ds[..i]).Some? && t < |a.disk|
    ensures var b := Runs(a, ds[..i]).value;
            && IsOpen(b.open, s) && BlockOf(b.disk, s, k, t)
            && |b.disk| == |a.disk| && b.disk[t] == LastPut(ds[..i], s, k, a.disk[t])
  {
    if i > 0 {
      OneMore(a, ds, i - 1);
      BlocksAccounted(a, s, ds, k, t, i - 1);
      HarmlessTo(a, ds, i - 1);
      HarmlessTo(a, ds, i);
      assert ds[..i][..i - 1] == ds[..i - 1];
      StepBlocks(Runs(a, ds[..i - 1]).value, s, ds[i - 1], k, t);
    }
  }

  // ---------- Names ----------

  /** The names in use are those of `names`, and lead to its sectors. */
  ghost predicate Describes(dir: seq<DirEntry>, names: map<string, nat>) {
    && (forall i | 0 <= i < |dir| && dir[i].inUse :: dir[i].name in names && names[dir[i].name] == dir[i].sector)
    && (forall name | name in names :: FindName(dir, name, 0).Some?)
  }

  predicate FreeSlot(dir: seq<DirEntry>) {
    exists i | 0 <= i < |dir| :: !dir[i].inUse
  }

  /** The file can be created: everything is lucky, there is room for it, its name is short and new and a slot of
      the directory is free. */
  predicate Creatable(names: map<string, nat>, a: State, name: string, size: nat, luck: Luck) {
    && luck.root && luck.memory && luck.first && luck.second && Room(a.freeMap, size)
    && 0 < |name| <= NAME_MAX && name !in names && FreeSlot(a.dir)
  }

  /** The names after an operation for which the directory is read as it was written. */
  function Renamed(names: map<string, nat>, a: State, d: Deed): map<string, nat> {
    match d.op
    case CreateOp(name, size, _) =>
      var s := Scan(a.freeMap, 0, 1, false);
      if Creatable(names, a, name, size, d.luck) && s.Some? then names[name := s.value] else names
    case RemoveOp(name, _) =>
      if d.luck.root && name in names && Gettable(a, names[name], d.luck.memory) then names - {name} else names
    case _ => names
  }

  lemma {:induction false} FoundName(dir: seq<DirEntry>, k: nat, name: string)
    requires k < |dir| && dir[k].inUse && dir[k].name == name
    ensures FindName(dir, name, 0).Some?
  {
  }

  /** A name leads to its file. */
  lemma RightLed(a: State, name: string, luck: Luck, names: map<string, nat>)
    requires Describes(a.dir, names)
    ensures Led(a, name, luck, a.dir) ==
            if luck.root && name in names && Gettable(a, names[name], luck.memory) then Some(names[name]) else None
  {
  }

  lemma RightCreates(a: State, name: string, size: nat, luck: Luck, names: map<string, nat>)
    requires Describes(a.dir, names)
    ensures Creates(a, name, size, luck, a.dir) <==> Creatable(names, a, name, size, luck)
  {
  }

  lemma AddedName(dir: seq<DirEntry>, names: map<string, nat>, j: nat, name: string, s: nat)
    requires Describes(dir, names) && j < |dir| && !dir[j].inUse && name !in names
    ensures Describes(dir[j := DirEntry(s, name, true)], names[name := s])
  {
    var after := dir[j := DirEntry(s, name, true)];
    FoundName(after, j, name);
    forall x | x in names
      ensures FindName(after, x, 0).Some?
    {
      FoundName(after, FindName(dir, x, 0).value, x);
    }
  }

  lemma ErasedName(a: State, names: map<string, nat>, j: nat, e: DirEntry)
    requires Describes(a.dir, names) && a.Tidy() && j < |a.dir| && a.dir[j].inUse && !e.inUse
    ensures Describes(a.dir[j := e], names - {a.dir[j].name})
  {
    var after := a.dir[j := e];
    forall x | x in names && x != a.dir[j].name
      ensures FindName(after, x, 0).Some?
    {
      FoundName(after, FindName(a.dir, x, 0).value, x);
    }
  }

  lemma CreateNames(a: State, name: string, size: nat, luck: Luck, names: map<string, nat>)
    requires a.Consistent() && Describes(a.dir, names)
    ensures var s := Scan(a.freeMap, 0, 1, false);
            Describes(CreateStep(a, name, size, luck, a.dir).dir,
                      if Creatable(names, a, name, size, luck) && s.Some? then names[name := s.value] else names)
  {
    RightCreates(a, name, size, luck, names);
    CreateConsistent(a, name, size, luck, a.dir);
    CreateChanges(a, name, size, luck, a.dir);
    if Creates(a, name, size, luck, a.dir) {
      AddedName(a.dir, names, FindFree(a.dir, 0).value, name, Scan(a.freeMap, 0, 1, false).value);
    }
  }

  lemma RemoveNames(a: State, name: string, luck: Luck, names: map<string, nat>)
    requires a.Tidy() && Describes(a.dir, names) && RemoveStep(a, name, luck, a.dir).Some?
    ensures Describes(RemoveStep(a, name, luck, a.dir).value.dir,
                      if luck.root && name in names && Gettable(a, names[name], luck.memory) then names - {name} else names)
  {
    RightLed(a, name, luck, names);
    if Led(a, name, luck, a.dir).Some? {
      var j := FindName(a.dir, name, 0).value;
      ErasedName(a, names, j, a.dir[j].(inUse := false));
    }
  }

  lemma OtherNames(a: State, d: Deed)
    requires Fits(d.op, |a.dir|) && Step(a, d).Some? && !d.op.CreateOp? && !d.op.RemoveOp?
    ensures Step(a, d).value.dir == a.dir
  {
  }

  /** With right reads every operation does to the directory what it does to a map from names to sectors. */
  lemma StepNames(a: State, d: Deed, names: map<string, nat>)
    requires a.Consistent() && a.Tidy() && Describes(a.dir, names)
    requires Fits(d.op, |a.dir|) && ReadsRight(d.op, a.dir) && Step(a, d).Some?
    ensures Describes(Step(a, d).value.dir, Renamed(names, a, d))
  {
    if d.op.CreateOp? {
      CreateNames(a, d.op.name, d.op.size, d.luck, names);
    } else if d.op.RemoveOp? {
      RemoveNames(a, d.op.name, d.luck, names);
    } else {
      OtherNames(a, d);
    }
  }

  /** The names after a run. */
  function NamesAfter(a: State, ds: seq<Deed>, names: map<string, nat>): map<string, nat>
    requires AllFit(ds, |a.dir|) && Runs(a, ds).Some?
  {
    if ds == [] then names
    else
      var m := |ds| - 1;
      Renamed(NamesAfter(a, ds[..m], names), Runs(a, ds[..m]).value, ds[m])
  }

  /** Over every run in which the directory is read as it was written, it is such a map. */
  lemma {:induction false} NamesAccounted(a: State, ds: seq<Deed>, names: map<string, nat>, i: nat)
    requires a.Consistent() && a.Tidy() && Describes(a.dir, names) && AllFit(ds, |a.dir|) && AllRight(a, ds) && i <= |ds|
    ensures Runs(a, ds[..i]).Some? && Describes(Runs(a, ds[..i]).value.dir, NamesAfter(a, ds[..i], names))
  {
    RightRun(a, ds, i);
    if i > 0 {
      OneMore(a, ds, i - 1);
      NamesAccounted(a, ds, names, i - 1);
      RightRun(a, ds, i - 1);
      assert ds[..i][..i - 1] == ds[..i - 1];
      StepNames(Runs(a, ds[..i - 1]).value, ds[i - 1], NamesAfter(a, ds[..i - 1], names));
    }
  }

  /** Over every such run from a formatted disk, which has no names and its map's file open. */
  lemma {:induction false} FromFormatted(raw: seq<Block>, ds: seq<Deed>, s: nat)
    requires 3 + MapSectors(|raw|) <= |raw| && AllFit(ds, ROOT_ENTRIES) && AllRight(Formatted(raw), ds)
    ensures var a := Formatted(raw);
            && Runs(a, ds).Some? && Describes(Runs(a, ds).value.dir, NamesAfter(a, ds, map[]))
            && Openers(Runs(a, ds).value.open, s) + Goings(a, ds, s)
               == Comings(a, ds, s) + if s == FREE_MAP_SECTOR then 1 else 0
  {
    FormattedConsistent(raw);
    assert ds[..|ds|] == ds;
    NamesAccounted(Formatted(raw), ds, map[], |ds|);
    OpenersAccounted(Formatted(raw), ds, s);
  }
}
