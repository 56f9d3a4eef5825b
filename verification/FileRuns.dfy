/** Runs of operations on files. What the reads of the directory return is part of a run: they may be
    wrong. Exactly the runs in which every wrong read is harmless keep the files disjoint. */
module FileRuns {
  import opened Common
  import opened Bitmaps
  import opened FileSystem

  /** An operation; `seen` is what its reads of the directory return. */
  datatype Op =
    | CreateOp(name: string, size: nat, seen: seq<DirEntry>)
    | OpenOp(name: string, seen: seq<DirEntry>)
    | RemoveOp(name: string, seen: seq<DirEntry>)
    | ReopenOp(sector: nat)
    | CloseOp(sector: nat)
    | WriteOp(sector: nat, k: nat, bytes: seq<Byte>)

  /** An operation, and what it is lucky with. */
  datatype Deed = Deed(op: Op, luck: Luck)

  predicate Reads(op: Op) {
    op.CreateOp? || op.OpenOp? || op.RemoveOp?
  }

  /** The directory is read as it was written. */
  predicate ReadsRight(op: Op, dir: seq<DirEntry>) {
    Reads(op) ==> op.seen == dir
  }

  /** The reads return as many slots as there are. */
  predicate Fits(op: Op, n: nat) {
    Reads(op) ==> |op.seen| == n
  }

  function CloseStep(a: State, s: nat): Option<State> {
    var i := FindOpen(a.open, s, 0);
    if i.Some? then Closed(a, i.value) else Some(a)
  }

  /** The state after an operation; `None` where the kernel stops. */
  function Step(a: State, d: Deed): (r: Option<State>)
    requires Fits(d.op, |a.dir|)
    ensures r.Some? ==> |r.value.dir| == |a.dir|
  {
    match d.op
    case CreateOp(name, size, seen) => Some(CreateStep(a, name, size, d.luck, seen))
    case OpenOp(name, seen) => OpenStep(a, name, d.luck, seen)
    case RemoveOp(name, seen) => RemoveStep(a, name, d.luck, seen)
    case ReopenOp(s) => Some(if d.luck.memory && IsOpen(a.open, s) then Opened(a, s) else a)
    case CloseOp(s) => CloseStep(a, s)
    case WriteOp(s, k, bytes) => WriteStep(a, s, k, bytes)
  }

  /** The reads of the directory lead to no file that is not one, and to no removal of a file that
      still exists. */
  ghost predicate Harmless(a: State, d: Deed)
    requires Fits(d.op, |a.dir|)
  {
    match d.op
    case OpenOp(name, seen) =>
      var s := Led(a, name, d.luck, seen);
      s.Some? && d.luck.first ==> Openable(a, s.value)
    case RemoveOp(name, seen) =>
      var j := FindName(seen, name, 0);
      Led(a, name, d.luck, seen).Some? ==> Removable(a, j.value, seen[j.value])
    case _ => true
  }

  /** An operation that does not stop the kernel keeps what is to be kept if and only if it is harmless. */
  lemma StepKeepsIff(a: State, d: Deed)
    requires a.Consistent() && Fits(d.op, |a.dir|) && Step(a, d).Some?
    ensures Step(a, d).value.Consistent() <==> Harmless(a, d)
  {
    match d.op
    case CreateOp(name, size, seen) => CreateConsistent(a, name, size, d.luck, seen);
    case OpenOp(name, seen) =>
      if Led(a, name, d.luck, seen).Some? {
        OpenedIff(a, Led(a, name, d.luck, seen).value);
      }
    case RemoveOp(name, seen) =>
      if Led(a, name, d.luck, seen).Some? {
        var j := FindName(seen, name, 0).value;
        RemovedIff(a, j, seen[j]);
      }
    case ReopenOp(s) =>
      if IsOpen(a.open, s) {
        OpenedIff(a, s);
      }
    case CloseOp(s) =>
      if FindOpen(a.open, s, 0).Some? {
        ClosedConsistent(a, FindOpen(a.open, s, 0).value);
      }
    case WriteOp(s, k, bytes) =>
      if Target(a, s, k).Some? {
        TargetInside(a, s, k);
        BlockConsistent(a, Target(a, s, k).value, bytes);
      }
  }

  lemma TargetInside(a: State, s: nat, k: nat)
    requires a.Consistent() && Target(a, s, k).Some?
    ensures s < |a.disk| && a.Exists(s) && InExtent(TakenFor(a.disk[s]), Target(a, s, k).value)
    ensures Target(a, s, k).value < |a.disk| && !a.Exists(Target(a, s, k).value)
  {
    FoundIffOpen(a.open, s);
    var i := FindOpen(a.open, s, 0).value;
    assert a.OpenFileOk(a.open[i]);
    NoInodeInside(a, s, Target(a, s, k).value);
  }

  // ---------- Reads that are right ----------

  /** Right reads are harmless, and nothing stops the kernel. */
  lemma RightIsHarmless(a: State, d: Deed)
    requires a.Consistent() && Fits(d.op, |a.dir|) && ReadsRight(d.op, a.dir)
    ensures Harmless(a, d) && Step(a, d).Some?
  {
    match d.op
    case OpenOp(name, seen) =>
      if FindName(seen, name, 0).Some? {
        EntryLeads(a, FindName(seen, name, 0).value);
      }
    case RemoveOp(name, seen) =>
      if FindName(seen, name, 0).Some? {
        EntryLeads(a, FindName(seen, name, 0).value);
        EntryRemovable(a, FindName(seen, name, 0).value);
      }
    case CloseOp(s) =>
      if FindOpen(a.open, s, 0).Some? {
        ClosedConsistent(a, FindOpen(a.open, s, 0).value);
      }
    case WriteOp(s, k, bytes) =>
      if Target(a, s, k).Some? {
        TargetInside(a, s, k);
      }
    case _ =>
  }

  /** With right reads, names are not used twice and an open file without a name will be given back. */
  lemma RightKeepsTidy(a: State, d: Deed)
    requires a.Consistent() && a.Tidy() && Fits(d.op, |a.dir|) && ReadsRight(d.op, a.dir) && Step(a, d).Some?
    ensures Step(a, d).value.Tidy()
  {
    var b := Step(a, d).value;
    match d.op
    case CreateOp(name, size, seen) =>
      CreateConsistent(a, name, size, d.luck, seen);
      CreateChanges(a, name, size, d.luck, seen);
      if Creates(a, name, size, d.luck, seen) {
        NamesStay(a.dir, FindFree(seen, 0).value, b.dir[FindFree(seen, 0).value]);
      }
    case OpenOp(name, seen) =>
      if FindName(seen, name, 0).Some? {
        EntryLeads(a, FindName(seen, name, 0).value);
      }
    case RemoveOp(name, seen) =>
      if Led(a, name, d.luck, seen).Some? {
        RemovedTidy(a, FindName(seen, name, 0).value);
      }
    case _ =>
  }

  /** A slot that was free takes no name away. */
  lemma NamesStay(dir: seq<DirEntry>, j: nat, e: DirEntry)
    requires j < |dir| && !dir[j].inUse
    ensures forall x: nat :: InDir(dir, x) ==> InDir(dir[j := e], x)
  {
    forall x: nat | InDir(dir, x)
      ensures InDir(dir[j := e], x)
    {
      var k :| 0 <= k < |dir| && dir[k].inUse && dir[k].sector == x;
      assert dir[j := e][k] == dir[k];
    }
  }

  lemma RemovedTidy(a: State, j: nat)
    requires a.Consistent() && a.Tidy() && j < |a.dir| && a.dir[j].inUse && Removed(a, j, a.dir[j]).Some?
    ensures Removed(a, j, a.dir[j]).value.Tidy()
  {
    var s := a.dir[j].sector;
    var b := Removed(a, j, a.dir[j]).value;
    ErasedDir(a.dir, j, a.dir[j].(inUse := false));
    FoundIffOpen(a.open, s);
    forall i | 0 <= i < |b.open| && !Named(b.dir, b.open[i].sector)
      ensures b.open[i].removed
    {
      if IsOpen(a.open, s) && b.open[i].sector == s {
        FoundAt(a.open, i);
      }
    }
  }

  // ---------- Runs ----------

  predicate AllFit(ds: seq<Deed>, n: nat) {
    forall i | 0 <= i < |ds| :: Fits(ds[i].op, n)
  }

  /** The state after a run; `None` if the kernel stopped. */
  function Runs(a: State, ds: seq<Deed>): (r: Option<State>)
    requires AllFit(ds, |a.dir|)
    ensures r.Some? ==> |r.value.dir| == |a.dir|
  {
    if ds == [] then Some(a)
    else
      var b := Runs(a, ds[..|ds| - 1]);
      if b.None? then None else Step(b.value, ds[|ds| - 1])
  }

  lemma {:induction false} OneMore(a: State, ds: seq<Deed>, i: nat)
    requires AllFit(ds, |a.dir|) && i < |ds|
    ensures Runs(a, ds[..i + 1]) == if Runs(a, ds[..i]).None? then None else Step(Runs(a, ds[..i]).value, ds[i])
  {
    assert ds[..i + 1][..i] == ds[..i];
  }

  /** What is to be kept holds in every state of a run. */
  ghost predicate ConsistentThroughout(a: State, ds: seq<Deed>)
    requires AllFit(ds, |a.dir|)
  {
    forall i | 0 <= i <= |ds| && Runs(a, ds[..i]).Some? :: Runs(a, ds[..i]).value.Consistent()
  }

  /** The next operation of the run, if there is still one to do, is harmless. */
  ghost predicate HarmlessAt(a: State, ds: seq<Deed>, i: nat)
    requires AllFit(ds, |a.dir|) && i < |ds|
  {
    Runs(a, ds[..i]).Some? && Step(Runs(a, ds[..i]).value, ds[i]).Some? ==> Harmless(Runs(a, ds[..i]).value, ds[i])
  }

  ghost predicate AllHarmless(a: State, ds: seq<Deed>)
    requires AllFit(ds, |a.dir|)
  {
    forall i | 0 <= i < |ds| :: HarmlessAt(a, ds, i)
  }

  /** A run keeps what is to be kept in all its states if and only if all its operations are harmless. */
  lemma ThroughoutIff(a: State, ds: seq<Deed>)
    requires a.Consistent() && AllFit(ds, |a.dir|)
    ensures ConsistentThroughout(a, ds) <==> AllHarmless(a, ds)
  {
    if ConsistentThroughout(a, ds) {
      forall i | 0 <= i < |ds|
        ensures HarmlessAt(a, ds, i)
      {
        OneMore(a, ds, i);
        if Runs(a, ds[..i]).Some? && Step(Runs(a, ds[..i]).value, ds[i]).Some? {
          assert Runs(a, ds[..i + 1]).value.Consistent();
          StepKeepsIff(Runs(a, ds[..i]).value, ds[i]);
        }
      }
    }
    if AllHarmless(a, ds) {
      forall i | 0 <= i <= |ds| && Runs(a, ds[..i]).Some?
        ensures Runs(a, ds[..i]).value.Consistent()
      {
        HarmlessTo(a, ds, i);
      }
    }
  }

  lemma {:induction false} HarmlessTo(a: State, ds: seq<Deed>, i: nat)
    requires a.Consistent() && AllFit(ds, |a.dir|) && AllHarmless(a, ds) && i <= |ds| && Runs(a, ds[..i]).Some?
    ensures Runs(a, ds[..i]).value.Consistent()
  {
    if i > 0 {
      OneMore(a, ds, i - 1);
      HarmlessTo(a, ds, i - 1);
      var b := Runs(a, ds[..i - 1]).value;
      assert Harmless(b, ds[i - 1]) by {
        assert HarmlessAt(a, ds, i - 1);
      }
      StepKeepsIff(b, ds[i - 1]);
    }
  }

  /** The directory is read as it was written by every operation of a run. */
  ghost predicate AllRight(a: State, ds: seq<Deed>)
    requires AllFit(ds, |a.dir|)
  {
    forall i | 0 <= i < |ds| && Runs(a, ds[..i]).Some? :: ReadsRight(ds[i].op, Runs(a, ds[..i]).value.dir)
  }

  /** Such a run stops nowhere, and its operations are all harmless. */
  lemma {:induction false} RightRun(a: State, ds: seq<Deed>, i: nat)
    requires a.Consistent() && a.Tidy() && AllFit(ds, |a.dir|) && AllRight(a, ds) && i <= |ds|
    ensures Runs(a, ds[..i]).Some? && Runs(a, ds[..i]).value.Consistent() && Runs(a, ds[..i]).value.Tidy()
  {
    if i > 0 {
      OneMore(a, ds, i - 1);
      RightRun(a, ds, i - 1);
      var b := Runs(a, ds[..i - 1]).value;
      RightIsHarmless(b, ds[i - 1]);
      StepKeepsIff(b, ds[i - 1]);
      RightKeepsTidy(b, ds[i - 1]);
    }
  }

  /** Any operation, as the code does it. */
  method Perform(fs: Files, d: Deed) returns (stopped: bool)
    requires fs.Shaped() && Fits(d.op, |fs.dir|)
    modifies fs
    ensures fs.Shaped() && Step(old(fs.Now()), d) == if stopped then None else Some(fs.Now())
  {
    stopped := false;
    match d.op {
      case CreateOp(name, size, seen) =>
        var ok := fs.Create(name, size, d.luck, seen);
      case OpenOp(name, seen) =>
        var handle;
        handle, stopped := fs.Open(name, d.luck, seen);
      case RemoveOp(name, seen) =>
        var ok;
        ok, stopped := fs.Remove(name, d.luck, seen);
      case ReopenOp(s) =>
        if IsOpen(fs.open, s) {
          var handle := fs.Reopen(s, d.luck.memory);
        }
      case CloseOp(s) =>
        FoundIffOpen(fs.open, s);
        if IsOpen(fs.open, s) {
          stopped := fs.InodeClose(s);
        }
      case WriteOp(s, k, bytes) =>
        stopped := fs.WriteBlock(s, k, bytes);
    }
  }

  /** A run, as the code does it. */
  method Execute(fs: Files, ds: seq<Deed>) returns (stopped: bool)
    requires fs.Shaped() && AllFit(ds, |fs.dir|)
    modifies fs
    ensures fs.Shaped() && Runs(old(fs.Now()), ds) == if stopped then None else Some(fs.Now())
  {
    ghost var a := fs.Now();
    for i := 0 to |ds|
      invariant fs.Shaped() && Runs(a, ds[..i]) == Some(fs.Now())
    {
      OneMore(a, ds, i);
      stopped := Perform(fs, ds[i]);
      if stopped {
        StoppedStays(a, ds, i + 1);
        return;
      }
    }
    assert ds[..|ds|] == ds;
    stopped := false;
  }

  lemma {:induction false} StoppedStays(a: State, ds: seq<Deed>, i: nat)
    requires AllFit(ds, |a.dir|) && i <= |ds| && Runs(a, ds[..i]).None?
    ensures Runs(a, ds).None?
    decreases |ds| - i
  {
    if i < |ds| {
      OneMore(a, ds, i);
      StoppedStays(a, ds, i + 1);
    } else {
      assert ds[..i] == ds;
    }
  }

  /** From a formatted disk on, over every run: the files are disjoint in all its states, and none that has
      a name will be given back, if and only if every operation is harmless. If the directory is read as
      it was written they all are, and nothing stops the kernel. */
  method History(raw: seq<Block>, ds: seq<Deed>) returns (fs: Files, stopped: bool)
    requires 3 + MapSectors(|raw|) <= |raw| && AllFit(ds, ROOT_ENTRIES)
    ensures fresh(fs) && Runs(Formatted(raw), ds) == if stopped then None else Some(fs.Now())
    ensures ConsistentThroughout(Formatted(raw), ds) <==> AllHarmless(Formatted(raw), ds)
    ensures AllHarmless(Formatted(raw), ds) && !stopped ==> fs.Valid() && fs.Now().Disjoint()
    ensures AllRight(Formatted(raw), ds) ==> !stopped && fs.Valid() && fs.Now().Tidy()
  {
    fs := new Files(raw);
    ghost var a := fs.Now();
    stopped := Execute(fs, ds);
    ThroughoutIff(a, ds);
    assert ds[..|ds|] == ds;
    if AllRight(a, ds) {
      RightRun(a, ds, |ds|);
    }
  }

  // ---------- A file that someone has open ----------

  /** The operation is no write to the file `s`, and no close of its last opener. */
  predicate Spares(a: State, s: nat, op: Op) {
    !(op.WriteOp? && op.sector == s) && !(op.CloseOp? && op.sector == s && Openers(a.open, s) == 1)
  }

  /** The file `s` of the state `a` still has every block that it had in `a`. */
  ghost predicate Kept(a: State, s: nat, b: State) {
    && |b.disk| == |b.freeMap| == |a.disk|
    && forall t | 0 <= t < |a.disk| && PartOf(a.disk, s, t) :: b.disk[t] == a.disk[t] && b.freeMap[t]
  }

  lemma StepSpares(a: State, s: nat, d: Deed)
    requires a.Consistent() && IsOpen(a.open, s) && Fits(d.op, |a.dir|)
    requires Step(a, d).Some? && Step(a, d).value.Consistent() && Spares(a, s, d.op)
    ensures IsOpen(Step(a, d).value.open, s) && Kept(a, s, Step(a, d).value)
  {
    var b := Step(a, d).value;
    StaysOpen(a, s, d);
    assert a.Exists(s) && FileOk(a.freeMap, a.disk, s) && b.Exists(s) && FileOk(b.freeMap, b.disk, s);
    assert PartOf(a.disk, s, s);
    if d.op.CreateOp? {
      CreateConsistent(a, d.op.name, d.op.size, d.luck, d.op.seen);
      CreateChanges(a, d.op.name, d.op.size, d.luck, d.op.seen);
    } else if d.op.WriteOp? && Target(a, d.op.sector, d.op.k).Some? {
      TargetInside(a, d.op.sector, d.op.k);
      assert Apart(a.disk, s, d.op.sector);
      assert PartOf(a.disk, d.op.sector, Target(a, d.op.sector, d.op.k).value);
    } else {
      assert b.disk == a.disk;
    }
    assert forall t: nat :: PartOf(b.disk, s, t) <==> PartOf(a.disk, s, t);
  }

  lemma {:induction false} StaysOpen(a: State, s: nat, d: Deed)
    requires OpenOk(a.open) && IsOpen(a.open, s) && Fits(d.op, |a.dir|) && Step(a, d).Some? && Spares(a, s, d.op)
    ensures IsOpen(Step(a, d).value.open, s)
  {
    OpenersPositive(a.open, s);
    match d.op
    case CreateOp(name, size, seen) => CreateSameOpen(a, name, size, d.luck, seen);
    case OpenOp(name, seen) =>
      if Led(a, name, d.luck, seen).Some? {
        OpenedCounts(a, Led(a, name, d.luck, seen).value);
        OpenersPositive(Opened(a, Led(a, name, d.luck, seen).value).open, s);
      }
    case RemoveOp(name, seen) =>
      if Led(a, name, d.luck, seen).Some? {
        var i := FindOpen(a.open, Led(a, name, d.luck, seen).value, 0);
        if i.Some? {
          UpdatedOpen(a.open, i.value, a.open[i.value].(removed := true));
        }
      }
    case ReopenOp(x) =>
      if IsOpen(a.open, x) {
        OpenedCounts(a, x);
        OpenersPositive(Opened(a, x).open, s);
      }
    case CloseOp(x) =>
      var i := FindOpen(a.open, x, 0);
      if i.Some? {
        ClosedCounts(a, i.value);
        OpenersPositive(Closed(a, i.value).value.open, s);
      }
    case WriteOp(x, k, bytes) =>
  }

  lemma CreateSameOpen(a: State, name: string, size: nat, luck: Luck, seen: seq<DirEntry>)
    requires |seen| == |a.dir|
    ensures CreateStep(a, name, size, luck, seen).open == a.open
  {
  }

  ghost predicate AllSpare(a: State, s: nat, ds: seq<Deed>)
    requires AllFit(ds, |a.dir|)
  {
    forall i | 0 <= i < |ds| && Runs(a, ds[..i]).Some? :: Spares(Runs(a, ds[..i]).value, s, ds[i].op)
  }

  lemma {:induction false} SparedTo(a: State, s: nat, ds: seq<Deed>, i: nat)
    requires a.Consistent() && IsOpen(a.open, s) && AllFit(ds, |a.dir|) && i <= |ds|
    requires AllHarmless(a, ds) && AllSpare(a, s, ds) && Runs(a, ds[..i]).Some?
    ensures var b := Runs(a, ds[..i]).value; b.Consistent() && IsOpen(b.open, s) && Kept(a, s, b)
  {
    HarmlessTo(a, ds, i);
    if i > 0 {
      OneMore(a, ds, i - 1);
      SparedTo(a, s, ds, i - 1);
      StepSpares(Runs(a, ds[..i - 1]).value, s, ds[i - 1]);
      assert PartOf(a.disk, s, s);
    } else {
      assert FileOk(a.freeMap, a.disk, s) by {
        assert a.Exists(s);
      }
    }
  }

  /** A file that someone has open keeps its inode and its data over every run of harmless operations, whether it is
      removed or not and whatever else is created, opened, removed, written and closed. The contents of
      the free map's file and of the root directory are `freeMap` and `dir`. */
  method Run(fs: Files, s: nat, ds: seq<Deed>) returns (stopped: bool)
    requires fs.Valid() && IsOpen(fs.open, s) && s != FREE_MAP_SECTOR && s != ROOT_DIR_SECTOR && AllFit(ds, |fs.dir|)
    modifies fs
    ensures fs.Shaped() && Runs(old(fs.Now()), ds) == if stopped then None else Some(fs.Now())
    ensures AllHarmless(old(fs.Now()), ds) && AllSpare(old(fs.Now()), s, ds) && !stopped ==>
              fs.Valid() && IsOpen(fs.open, s) && Kept(old(fs.Now()), s, fs.Now())
  {
    ghost var a := fs.Now();
    stopped := Execute(fs, ds);
    assert ds[..|ds|] == ds;
    if AllHarmless(a, ds) && AllSpare(a, s, ds) && !stopped {
      SparedTo(a, s, ds, |ds|);
    }
  }

  // ---------- Harm that shows late ----------

  function Closes(s: nat, cnt: nat): seq<Deed> {
    seq(cnt, _ => Deed(CloseOp(s), GOOD))
  }

  /** The open file `s` was marked as removed although it has a name. */
  ghost predicate Doomed(a: State, s: nat) {
    && a.Shaped() && WasRemoved(a.open, s) && Named(a.dir, s) && FileOk(a.freeMap, a.disk, s)
    && a.open[FindOpen(a.open, s, 0).value].data == TakenFor(a.disk[s])
  }

  /** What comes of an operation that is not harmless: two files share a sector or a file has one that is
      not marked, at once, or a file that has a name will be given back by its last opener. */
  lemma HarmShows(a: State, d: Deed) returns (s: nat)
    requires a.Consistent() && Fits(d.op, |a.dir|) && Step(a, d).Some? && !Harmless(a, d)
    ensures !Step(a, d).value.Disjoint() || Doomed(Step(a, d).value, s)
  {
    s := Led(a, d.op.name, d.luck, d.op.seen).value;
    if d.op.OpenOp? {
      OpenedIff(a, s);
    } else {
      var j := FindName(d.op.seen, d.op.name, 0).value;
      RemovedIff(a, j, d.op.seen[j]);
      FoundIffOpen(a.open, s);
      if IsOpen(a.open, s) {
        var i := FindOpen(a.open, s, 0).value;
        assert a.Exists(s) && a.OpenFileOk(a.open[i]);
        UpdatedOpen(a.open, i, a.open[i].(removed := true));
        FoundAt(Step(a, d).value.open, i);
      }
    }
  }

  lemma CloseDoomed(a: State, s: nat)
    requires Doomed(a, s)
    ensures var r := CloseStep(a, s);
            && r.Some? && r.value.dir == a.dir
            && if Openers(a.open, s) > 1 then Doomed(r.value, s) && Openers(r.value.open, s) == Openers(a.open, s) - 1
               else !r.value.Disjoint()
  {
    var i := FindOpen(a.open, s, 0).value;
    var f := a.open[i];
    if f.openCnt > 1 {
      UpdatedOpen(a.open, i, f.(openCnt := f.openCnt - 1));
      FoundAt(a.open[i := f.(openCnt := f.openCnt - 1)], i);
    } else {
      ReleasedMarks(a.(open := Without(a.open, i)), s);
      assert PartOf(a.disk, s, s) && CloseStep(a, s).value.Exists(s);
    }
  }

  /** When all its openers have left, it is given back, and then it has a sector that is not marked. */
  lemma {:induction false} LastCloseHarms(a: State, s: nat, n: nat)
    requires Doomed(a, s) && n <= Openers(a.open, s)
    ensures var r := Runs(a, Closes(s, n));
            && r.Some? && r.value.dir == a.dir
            && if n < Openers(a.open, s) then Doomed(r.value, s) && Openers(r.value.open, s) == Openers(a.open, s) - n
               else !r.value.Disjoint()
    decreases n
  {
    if n > 0 {
      LastCloseHarms(a, s, n - 1);
      assert Closes(s, n)[..n - 1] == Closes(s, n - 1);
      CloseDoomed(Runs(a, Closes(s, n - 1)).value, s);
    } else {
      OpenersPositive(a.open, s);
      FoundIffOpen(a.open, s);
    }
  }

  predicate OnlyCloses(ds: seq<Deed>) {
    forall i | 0 <= i < |ds| :: ds[i].op.CloseOp?
  }

  /** The files are disjoint after an operation, and however many openers then leave, if and only if
      the operation is harmless. */
  lemma DisjointIff(a: State, d: Deed)
    requires a.Consistent() && Fits(d.op, |a.dir|) && Step(a, d).Some?
    ensures Harmless(a, d) <==>
            forall ds: seq<Deed> | OnlyCloses(ds) && Runs(Step(a, d).value, ds).Some? ::
              Runs(Step(a, d).value, ds).value.Disjoint()
  {
    var b := Step(a, d).value;
    StepKeepsIff(a, d);
    if Harmless(a, d) {
      forall ds: seq<Deed> | OnlyCloses(ds) && Runs(b, ds).Some?
        ensures Runs(b, ds).value.Disjoint()
      {
        assert AllHarmless(b, ds) && ds[..|ds|] == ds;
        HarmlessTo(b, ds, |ds|);
      }
    } else {
      var ds := HarmBreaks(a, d);
    }
  }

  lemma HarmBreaks(a: State, d: Deed) returns (ds: seq<Deed>)
    requires a.Consistent() && Fits(d.op, |a.dir|) && Step(a, d).Some? && !Harmless(a, d)
    ensures OnlyCloses(ds) && Runs(Step(a, d).value, ds).Some? && !Runs(Step(a, d).value, ds).value.Disjoint()
  {
    var b := Step(a, d).value;
    if !b.Disjoint() {
      ds := [];
    } else {
      var s := HarmShows(a, d);
      ds := Closes(s, Openers(b.open, s));
      LastCloseHarms(b, s, Openers(b.open, s));
    }
  }
}
