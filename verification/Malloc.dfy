/** The block allocator of threads/malloc.c: arenas of equal blocks with a free list per size, and big
    blocks of whole pages. Addresses are numbers of bytes; 0 is null. */
module Malloc {
  import opened Common
  import opened Bits
  import opened Bitmaps
  import opened Nonlinear
  import opened PageAlloc

  /** The size of an arena's header. */
  const HEADER: nat := 12
  const DESC_CNT: nat := 7

  /** The header of an arena: its descriptor, or none for a big block, of which `freeCnt` are the pages. */
  datatype Arena = Arena(desc: Option<nat>, freeCnt: nat)

  // ---------- Descriptors ----------

  function BlockSize(d: nat): (n: nat)
    ensures n > 0
  {
    match d
    case 0 => 16
    case 1 => 32
    case 2 => 64
    case 3 => 128
    case 4 => 256
    case 5 => 512
    case _ => 1024
  }

  function BlocksPerArena(d: nat): (n: nat)
    ensures n > 1
  {
    (PAGE_SIZE - HEADER) / BlockSize(d)
  }

  /** An arena has as many blocks as its page has room for behind the header. */
  lemma BlocksFillPage(d: nat)
    ensures var n := BlocksPerArena(d); HEADER + n * BlockSize(d) <= PAGE_SIZE < HEADER + (n + 1) * BlockSize(d)
  {
    QuotientBounds(PAGE_SIZE - HEADER, BlockSize(d));
  }

  /** The descriptors that are set up: their block sizes are the powers of two from 16 that are below
      half a page. */
  method MallocInit() returns (sizes: seq<nat>)
    ensures |sizes| == DESC_CNT && forall d | 0 <= d < DESC_CNT :: sizes[d] == BlockSize(d)
  {
    sizes := [];
    var size := 16;
    while size < PAGE_SIZE / 2
      invariant |sizes| <= DESC_CNT && forall d | 0 <= d < |sizes| :: sizes[d] == BlockSize(d)
      invariant if |sizes| < DESC_CNT then size == BlockSize(|sizes|) else size == PAGE_SIZE / 2
      decreases PAGE_SIZE - size
    {
      sizes := sizes + [size];
      size := size * 2;
    }
  }

  /** The first descriptor whose blocks are large enough, or the number of descriptors. */
  function DescFor(size: nat, d: nat): (r: nat)
    requires d <= DESC_CNT
    ensures d <= r <= DESC_CNT && (r < DESC_CNT ==> BlockSize(r) >= size)
    ensures forall e | d <= e < r :: BlockSize(e) < size
    decreases DESC_CNT - d
  {
    if d < DESC_CNT && BlockSize(d) < size then DescFor(size, d + 1) else d
  }

  // ---------- Addresses ----------

  function PageOf(x: nat): nat {
    x / PAGE_SIZE
  }

  function OffsetOf(x: nat): nat {
    x % PAGE_SIZE
  }

  /** Block number `i` of an arena. */
  function BlockAt(page: nat, d: nat, i: nat): nat {
    page * PAGE_SIZE + HEADER + i * BlockSize(d)
  }

  /** The block of a big arena. */
  function BigAt(page: nat): nat {
    page * PAGE_SIZE + HEADER
  }

  /** The number of the block at an address. */
  function IndexOf(x: nat, d: nat): int {
    (OffsetOf(x) - HEADER) / BlockSize(d)
  }

  /** `x` is a block of an arena with descriptor `d`. */
  predicate IsBlock(x: nat, d: nat) {
    OffsetOf(x) >= HEADER && (OffsetOf(x) - HEADER) % BlockSize(d) == 0 && IndexOf(x, d) < BlocksPerArena(d)
  }

  lemma BlockAddress(page: nat, d: nat, i: nat)
    requires i < BlocksPerArena(d)
    ensures var x := BlockAt(page, d, i);
            && PageOf(x) == page && IsBlock(x, d) && IndexOf(x, d) == i
            && OffsetOf(x) + BlockSize(d) <= PAGE_SIZE
  {
    var n := BlockSize(d);
    QuotientBounds(PAGE_SIZE - HEADER, n);
    MulAtMost(i + 1, BlocksPerArena(d), n);
    assert (i + 1) * n == i * n + n;
    QuotientIs(i * n, n, i);
    RemainderIs(i * n, n, i, 0);
  }

  lemma BlockIsAt(x: nat, d: nat)
    requires IsBlock(x, d)
    ensures IndexOf(x, d) >= 0 && x == BlockAt(PageOf(x), d, IndexOf(x, d))
  {
  }

  /** Two blocks of one arena do not overlap. */
  lemma BlocksApart(x: nat, y: nat, d: nat)
    requires IsBlock(x, d) && IsBlock(y, d) && PageOf(x) == PageOf(y) && x < y
    ensures x + BlockSize(d) <= y
  {
    BlockIsAt(x, d);
    BlockIsAt(y, d);
    var i, j, n := IndexOf(x, d), IndexOf(y, d), BlockSize(d);
    if i >= j {
      MulAtMost(j, i, n);
    } else {
      MulAtMost(i + 1, j, n);
      assert (i + 1) * n == i * n + n;
    }
  }

  // ---------- The state of the allocator ----------

  /** The arenas by page number, the free lists by descriptor, and the blocks that are handed out. */
  datatype Heap = Heap(arenas: map<nat, Arena>, free: seq<seq<nat>>, live: set<nat>)

  /** The number of pages of an arena. */
  function Span(a: Arena): nat {
    if a.desc.Some? then 1 else a.freeCnt
  }

  /** The number of blocks of the arena at `page` on a list. */
  function CountIn(list: seq<nat>, page: nat): nat {
    if list == [] then 0 else (if PageOf(list[0]) == page then 1 else 0) + CountIn(list[1..], page)
  }

  function LiveIn(live: set<nat>, page: nat): set<nat> {
    set x | x in live && PageOf(x) == page
  }

  /** `x` is a block of an arena with descriptor `d`. */
  ghost predicate OnArena(arenas: map<nat, Arena>, d: nat, x: nat) {
    PageOf(x) in arenas && arenas[PageOf(x)].desc == Some(d) && IsBlock(x, d)
  }

  ghost predicate FreeOk(h: Heap, d: nat)
    requires d < |h.free|
  {
    && Distinct(h.free[d])
    && forall x | x in h.free[d] :: OnArena(h.arenas, d, x) && x !in h.live
  }

  /** A block that is handed out is a block of a small arena, or follows the header of a big one. */
  ghost predicate LiveOk(h: Heap, x: nat) {
    && PageOf(x) in h.arenas
    && match h.arenas[PageOf(x)].desc
       case Some(d) => IsBlock(x, d)
       case None => OffsetOf(x) == HEADER
  }

  /** Every block of a small arena is free or handed out; `freeCnt` counts the free ones. */
  ghost predicate SmallOk(h: Heap, page: nat, d: nat)
    requires page in h.arenas && d < |h.free|
  {
    && CountIn(h.free[d], page) == h.arenas[page].freeCnt
    && |LiveIn(h.live, page)| + h.arenas[page].freeCnt == BlocksPerArena(d)
    && forall i: nat | i < BlocksPerArena(d) :: BlockAt(page, d, i) in h.free[d] || BlockAt(page, d, i) in h.live
  }

  ghost predicate ArenaOk(h: Heap, page: nat)
    requires page in h.arenas
  {
    match h.arenas[page].desc
    case Some(d) => d < |h.free| && SmallOk(h, page, d)
    case None => h.arenas[page].freeCnt > 0 && BigAt(page) in h.live
  }

  ghost predicate SpansApart(arenas: map<nat, Arena>) {
    forall a, b {:trigger arenas[a], arenas[b]} | a in arenas && b in arenas && a < b :: a + Span(arenas[a]) <= b
  }

  ghost predicate Consistent(h: Heap) {
    && |h.free| == DESC_CNT
    && SpansApart(h.arenas)
    && (forall page | page in h.arenas :: ArenaOk(h, page))
    && (forall d | 0 <= d < DESC_CNT :: FreeOk(h, d))
    && (forall x | x in h.live :: LiveOk(h, x))
  }

  /** No small arena is wholly free. */
  ghost predicate Settled(h: Heap) {
    forall page | page in h.arenas && h.arenas[page].desc.Some? ::
      h.arenas[page].freeCnt < BlocksPerArena(h.arenas[page].desc.value)
  }

  /** No small arena but the one at `but` is. */
  ghost predicate SettledBut(h: Heap, but: nat) {
    forall page | page in h.arenas && h.arenas[page].desc.Some? && page != but ::
      h.arenas[page].freeCnt < BlocksPerArena(h.arenas[page].desc.value)
  }

  /** The bytes that a block has room for. */
  function Capacity(arenas: map<nat, Arena>, x: nat): int
    requires PageOf(x) in arenas
  {
    var a := arenas[PageOf(x)];
    if a.desc.Some? then BlockSize(a.desc.value) else PAGE_SIZE * a.freeCnt - OffsetOf(x)
  }

  /** Blocks that are handed out lie past the header of their arena and in its pages. */
  lemma LiveInArena(h: Heap, x: nat)
    requires Consistent(h) && x in h.live
    ensures LiveOk(h, x) && OffsetOf(x) >= HEADER && Capacity(h.arenas, x) > 0
    ensures x + Capacity(h.arenas, x) <= (PageOf(x) + Span(h.arenas[PageOf(x)])) * PAGE_SIZE
  {
  }

  /** No two blocks that are handed out overlap. */
  lemma LiveApart(h: Heap, x: nat, y: nat)
    requires Consistent(h) && x in h.live && y in h.live && x < y
    ensures PageOf(x) in h.arenas && x + Capacity(h.arenas, x) <= y
  {
    LiveInArena(h, x);
    LiveInArena(h, y);
    if PageOf(x) == PageOf(y) {
      var a := h.arenas[PageOf(x)];
      if a.desc.Some? {
        BlocksApart(x, y, a.desc.value);
      }
    } else {
      assert PageOf(x) < PageOf(y);
      MulAtMost(PageOf(x) + Span(h.arenas[PageOf(x)]), PageOf(y), PAGE_SIZE);
    }
  }

  /** Byte `p` is one that the allocator keeps its own data in: the header of an arena, or a free block,
      where the links of the free list are. */
  ghost predicate OwnByte(h: Heap, p: nat) {
    || (exists a | a in h.arenas :: a * PAGE_SIZE <= p < a * PAGE_SIZE + HEADER)
    || (exists d, x | 0 <= d < |h.free| && x in h.free[d] :: x <= p < x + BlockSize(d))
  }

  lemma OtherArena(h: Heap, a: nat, y: nat)
    requires Consistent(h) && a in h.arenas && y in h.live && PageOf(y) != a
    ensures PageOf(y) in h.arenas
    ensures (a + Span(h.arenas[a])) * PAGE_SIZE <= y || y + Capacity(h.arenas, y) <= a * PAGE_SIZE
  {
    LiveInArena(h, y);
    var b: nat := PageOf(y);
    if a < b {
      assert a + Span(h.arenas[a]) <= b;
      MulAtMost(a + Span(h.arenas[a]), b, PAGE_SIZE);
    } else {
      assert b + Span(h.arenas[b]) <= a;
      MulAtMost(b + Span(h.arenas[b]), a, PAGE_SIZE);
    }
  }

  /** No byte of a block that is handed out is one of the allocator's own. */
  lemma LiveNotOwn(h: Heap, y: nat, p: nat)
    requires Consistent(h) && y in h.live && OwnByte(h, p)
    ensures PageOf(y) in h.arenas && !(y <= p < y + Capacity(h.arenas, y))
  {
    LiveInArena(h, y);
    if a :| a in h.arenas && a * PAGE_SIZE <= p < a * PAGE_SIZE + HEADER {
      SpanAtLeastOne(h, a);
      if a != PageOf(y) {
        OtherArena(h, a, y);
      }
    } else {
      var d, x :| 0 <= d < |h.free| && x in h.free[d] && x <= p < x + BlockSize(d);
      FreeNotLive(h, d, x, y);
    }
  }

  lemma SpanAtLeastOne(h: Heap, a: nat)
    requires Consistent(h) && a in h.arenas
    ensures Span(h.arenas[a]) > 0
  {
    assert ArenaOk(h, a);
  }

  lemma FreeNotLive(h: Heap, d: nat, x: nat, y: nat)
    requires Consistent(h) && d < DESC_CNT && x in h.free[d] && y in h.live
    ensures PageOf(y) in h.arenas && (x + BlockSize(d) <= y || y + Capacity(h.arenas, y) <= x)
  {
    assert FreeOk(h, d);
    var a := PageOf(x);
    LiveInArena(h, y);
    BlockIsAt(x, d);
    BlockAddress(a, d, IndexOf(x, d));
    if a != PageOf(y) {
      OtherArena(h, a, y);
    } else if x < y {
      BlocksApart(x, y, d);
    } else {
      BlocksApart(y, x, d);
    }
  }

  // ---------- Taking and giving back a block ----------

  lemma LiveInMore(live: set<nat>, x: nat, page: nat)
    requires x !in live
    ensures |LiveIn(live + {x}, page)| == |LiveIn(live, page)| + if PageOf(x) == page then 1 else 0
  {
    assert LiveIn(live + {x}, page) == if PageOf(x) == page then LiveIn(live, page) + {x} else LiveIn(live, page);
  }

  lemma FreeBlock(h: Heap, d: nat, x: nat)
    requires Consistent(h) && d < DESC_CNT && x in h.free[d]
    ensures FreeOk(h, d) && OnArena(h.arenas, d, x) && ArenaOk(h, PageOf(x)) && x !in h.live
  {
    assert FreeOk(h, d);
  }

  function Popped(h: Heap, d: nat): Heap
    requires Consistent(h) && d < DESC_CNT && h.free[d] != []
  {
    var x := h.free[d][0];
    FreeBlock(h, d, x);
    var a := h.arenas[PageOf(x)];
    Heap(h.arenas[PageOf(x) := a.(freeCnt := a.freeCnt - 1)], h.free[d := h.free[d][1..]], h.live + {x})
  }

  lemma PopArena(h: Heap, d: nat, page: nat)
    requires Consistent(h) && d < DESC_CNT && h.free[d] != [] && page in h.arenas
    ensures ArenaOk(Popped(h, d), page)
  {
    var x := h.free[d][0];
    var r := Popped(h, d);
    assert FreeOk(h, d) && ArenaOk(h, page) && OnArena(h.arenas, d, x);
    LiveInMore(h.live, x, page);
    if h.arenas[page].desc.Some? {
      var e := h.arenas[page].desc.value;
      forall i: nat | i < BlocksPerArena(e)
        ensures BlockAt(page, e, i) in r.free[e] || BlockAt(page, e, i) in r.live
      {
        assert BlockAt(page, e, i) in h.free[e] || BlockAt(page, e, i) in h.live;
        if e == d && BlockAt(page, e, i) in h.free[d] && BlockAt(page, e, i) != x {
          var k :| 0 <= k < |h.free[d]| && h.free[d][k] == BlockAt(page, e, i);
          assert h.free[d][1..][k - 1] == BlockAt(page, e, i);
        }
      }
    }
  }

  lemma PopFree(h: Heap, d: nat, e: nat)
    requires Consistent(h) && d < DESC_CNT && h.free[d] != [] && e < DESC_CNT
    ensures FreeOk(Popped(h, d), e)
  {
    var x := h.free[d][0];
    var r := Popped(h, d);
    assert FreeOk(h, d) && FreeOk(h, e) && OnArena(h.arenas, d, x);
    forall y | y in r.free[e]
      ensures OnArena(r.arenas, e, y) && y !in r.live
    {
      assert y in h.free[e] && OnArena(h.arenas, e, y);
      if e == d {
        var k :| 0 <= k < |r.free[e]| && r.free[e][k] == y;
        assert h.free[d][k + 1] == y && h.free[d][0] == x;
      }
    }
  }

  /** Taking the first block of a free list. */
  lemma PopConsistent(h: Heap, d: nat)
    requires Consistent(h) && d < DESC_CNT && h.free[d] != []
    ensures Consistent(Popped(h, d))
  {
    var r := Popped(h, d);
    var x := h.free[d][0];
    FreeBlock(h, d, x);
    forall page | page in r.arenas
      ensures ArenaOk(r, page)
    {
      PopArena(h, d, page);
    }
    forall e | 0 <= e < DESC_CNT
      ensures FreeOk(r, e)
    {
      PopFree(h, d, e);
    }
    forall y | y in r.live
      ensures LiveOk(r, y)
    {
      assert y != x ==> LiveOk(h, y);
    }
  }

  /** The block `x` is back on its free list. */
  function Pushed(h: Heap, d: nat, x: nat): Heap
    requires Consistent(h) && d < DESC_CNT && x in h.live && OnArena(h.arenas, d, x)
  {
    var a := h.arenas[PageOf(x)];
    Heap(h.arenas[PageOf(x) := a.(freeCnt := a.freeCnt + 1)], h.free[d := [x] + h.free[d]], h.live - {x})
  }

  lemma {:induction false} CountPush(list: seq<nat>, x: nat, page: nat)
    ensures CountIn([x] + list, page) == CountIn(list, page) + if PageOf(x) == page then 1 else 0
  {
    assert ([x] + list)[1..] == list;
  }

  lemma PushBlocks(h: Heap, d: nat, x: nat, page: nat, e: nat)
    requires Consistent(h) && d < DESC_CNT && x in h.live && OnArena(h.arenas, d, x)
    requires page in h.arenas && h.arenas[page].desc == Some(e)
    ensures e < DESC_CNT && forall i: nat | i < BlocksPerArena(e) ::
              BlockAt(page, e, i) in Pushed(h, d, x).free[e] || BlockAt(page, e, i) in Pushed(h, d, x).live
  {
    assert ArenaOk(h, page);
    var r := Pushed(h, d, x);
    forall i: nat | i < BlocksPerArena(e)
      ensures BlockAt(page, e, i) in r.free[e] || BlockAt(page, e, i) in r.live
    {
      var y := BlockAt(page, e, i);
      BlockAddress(page, e, i);
      assert y in h.free[e] || y in h.live;
      if y == x {
        assert r.free[d][0] == x;
      } else if y in h.free[e] && e == d {
        var k :| 0 <= k < |h.free[d]| && h.free[d][k] == y;
        assert r.free[d][k + 1] == y;
      }
    }
  }

  lemma PushArena(h: Heap, d: nat, x: nat, page: nat)
    requires Consistent(h) && d < DESC_CNT && x in h.live && OnArena(h.arenas, d, x) && page in h.arenas
    ensures ArenaOk(Pushed(h, d, x), page)
  {
    var r := Pushed(h, d, x);
    assert ArenaOk(h, page);
    if h.arenas[page].desc.Some? {
      var e := h.arenas[page].desc.value;
      PushBlocks(h, d, x, page, e);
      CountPush(h.free[d], x, page);
      assert r.live + {x} == h.live;
      LiveInMore(r.live, x, page);
    }
  }

  lemma PushFree(h: Heap, d: nat, x: nat, e: nat)
    requires Consistent(h) && d < DESC_CNT && x in h.live && OnArena(h.arenas, d, x) && e < DESC_CNT
    ensures FreeOk(Pushed(h, d, x), e)
  {
    assert FreeOk(h, e);
  }

  lemma PushConsistent(h: Heap, d: nat, x: nat)
    requires Consistent(h) && d < DESC_CNT && x in h.live && OnArena(h.arenas, d, x)
    ensures Consistent(Pushed(h, d, x))
  {
    var r := Pushed(h, d, x);
    forall page | page in r.arenas
      ensures ArenaOk(r, page)
    {
      PushArena(h, d, x, page);
    }
    forall e | 0 <= e < DESC_CNT
      ensures FreeOk(r, e)
    {
      PushFree(h, d, x, e);
    }
    forall y | y in r.live
      ensures LiveOk(r, y)
    {
      assert LiveOk(h, y);
    }
  }

  // ---------- Arenas ----------

  function Blocks(page: nat, d: nat): seq<nat> {
    seq(BlocksPerArena(d), i requires 0 <= i < BlocksPerArena(d) => BlockAt(page, d, i))
  }

  lemma {:induction false} CountAll(list: seq<nat>, page: nat)
    requires forall k | 0 <= k < |list| :: PageOf(list[k]) == page
    ensures CountIn(list, page) == |list|
  {
    if list != [] {
      CountAll(list[1..], page);
    }
  }

  lemma {:induction false} CountNone(list: seq<nat>, page: nat)
    requires forall k | 0 <= k < |list| :: PageOf(list[k]) != page
    ensures CountIn(list, page) == 0
  {
    if list != [] {
      CountNone(list[1..], page);
    }
  }

  lemma {:induction false} NewBlocks(page: nat, d: nat)
    ensures Distinct(Blocks(page, d)) && CountIn(Blocks(page, d), page) == BlocksPerArena(d)
    ensures forall k | 0 <= k < BlocksPerArena(d) :: PageOf(Blocks(page, d)[k]) == page && IsBlock(Blocks(page, d)[k], d)
    ensures forall other | other != page :: CountIn(Blocks(page, d), other) == 0
  {
    var list := Blocks(page, d);
    forall k | 0 <= k < BlocksPerArena(d)
      ensures PageOf(list[k]) == page && IsBlock(list[k], d) && IndexOf(list[k], d) == k
    {
      BlockAddress(page, d, k);
    }
    CountAll(list, page);
    forall other | other != page
      ensures CountIn(list, other) == 0
    {
      CountNone(list, other);
    }
  }

  /** The loop of malloc() that lists the blocks of a new arena. */
  method ListBlocks(page: nat, d: nat) returns (list: seq<nat>)
    ensures list == Blocks(page, d)
  {
    list := [];
    for i := 0 to BlocksPerArena(d)
      invariant list == Blocks(page, d)[..i]
    {
      list := list + [BlockAt(page, d, i)];
    }
  }

  /** A new arena, all of whose blocks are free; the list of its descriptor was empty. */
  function Added(h: Heap, page: nat, d: nat): Heap
    requires d < |h.free|
  {
    h.(arenas := h.arenas[page := Arena(Some(d), BlocksPerArena(d))], free := h.free[d := Blocks(page, d)])
  }

  /** Pages from `page` on that no arena has. */
  ghost predicate Unused(arenas: map<nat, Arena>, page: nat, cnt: nat) {
    forall a | a in arenas :: a + Span(arenas[a]) <= page || page + cnt <= a
  }

  lemma NothingLive(h: Heap, page: nat, cnt: nat)
    requires Consistent(h) && Unused(h.arenas, page, cnt) && cnt > 0
    ensures page !in h.arenas && LiveIn(h.live, page) == {} && forall x | x in h.live :: PageOf(x) != page
  {
    if page in h.arenas {
      assert false;
    }
    forall x | x in h.live
      ensures PageOf(x) != page
    {
      assert LiveOk(h, x);
    }
  }

  lemma AddArena(h: Heap, page: nat, d: nat, p: nat)
    requires Consistent(h) && d < DESC_CNT && h.free[d] == [] && Unused(h.arenas, page, 1)
    requires p == page || p in h.arenas
    ensures ArenaOk(Added(h, page, d), p)
  {
    var r := Added(h, page, d);
    NewBlocks(page, d);
    NothingLive(h, page, 1);
    if p == page {
      forall i: nat | i < BlocksPerArena(d)
        ensures BlockAt(page, d, i) in r.free[d]
      {
        assert r.free[d][i] == BlockAt(page, d, i);
      }
    } else {
      assert ArenaOk(h, p);
    }
  }

  lemma AddFree(h: Heap, page: nat, d: nat, e: nat)
    requires Consistent(h) && d < DESC_CNT && h.free[d] == [] && Unused(h.arenas, page, 1) && e < DESC_CNT
    ensures FreeOk(Added(h, page, d), e)
  {
    NewBlocks(page, d);
    NothingLive(h, page, 1);
    assert FreeOk(h, e);
  }

  lemma AddConsistent(h: Heap, page: nat, d: nat)
    requires Consistent(h) && d < DESC_CNT && h.free[d] == [] && Unused(h.arenas, page, 1)
    ensures Consistent(Added(h, page, d))
  {
    var r := Added(h, page, d);
    forall p | p in r.arenas
      ensures ArenaOk(r, p)
    {
      AddArena(h, page, d, p);
    }
    forall e | 0 <= e < DESC_CNT
      ensures FreeOk(r, e)
    {
      AddFree(h, page, d, e);
    }
    NothingLive(h, page, 1);
    forall y | y in r.live
      ensures LiveOk(r, y)
    {
      assert LiveOk(h, y);
    }
  }

  /** A list without the blocks of the arena at `page`. */
  function Others(list: seq<nat>, page: nat): seq<nat> {
    if list == [] then []
    else if PageOf(list[0]) == page then Others(list[1..], page)
    else [list[0]] + Others(list[1..], page)
  }

  lemma {:induction false} OthersHave(list: seq<nat>, page: nat, y: nat)
    ensures y in Others(list, page) <==> y in list && PageOf(y) != page
  {
    if list != [] {
      OthersHave(list[1..], page, y);
    }
  }

  lemma {:induction false} OthersCount(list: seq<nat>, page: nat, q: nat)
    ensures CountIn(Others(list, page), q) == if q == page then 0 else CountIn(list, q)
  {
    if list != [] {
      OthersCount(list[1..], page, q);
      if PageOf(list[0]) != page {
        CountPush(Others(list[1..], page), list[0], q);
      }
    }
  }

  lemma {:induction false} OthersDistinct(list: seq<nat>, page: nat)
    requires Distinct(list)
    ensures Distinct(Others(list, page))
  {
    if list != [] {
      OthersDistinct(list[1..], page);
      OthersHave(list[1..], page, list[0]);
      assert list[0] !in list[1..];
    }
  }

  /** A small arena is given up, with all its blocks. */
  function Dropped(h: Heap, page: nat, d: nat): Heap
    requires d < |h.free|
  {
    h.(arenas := h.arenas - {page}, free := h.free[d := Others(h.free[d], page)])
  }

  ghost predicate WhollyFree(h: Heap, page: nat, d: nat) {
    page in h.arenas && h.arenas[page] == Arena(Some(d), BlocksPerArena(d))
  }

  /** A wholly free arena has no block that is handed out, so all its blocks are on the free list. */
  lemma WhollyFreeBlocks(h: Heap, page: nat, d: nat)
    requires Consistent(h) && d < DESC_CNT && WhollyFree(h, page, d)
    ensures forall x | x in h.live :: PageOf(x) != page
    ensures forall i: nat | i < BlocksPerArena(d) :: BlockAt(page, d, i) in h.free[d]
  {
    assert ArenaOk(h, page);
    assert LiveIn(h.live, page) == {};
    forall x | x in h.live
      ensures PageOf(x) != page
    {
      assert x !in LiveIn(h.live, page);
    }
    forall i: nat | i < BlocksPerArena(d)
      ensures BlockAt(page, d, i) in h.free[d]
    {
      BlockAddress(page, d, i);
    }
  }

  lemma DropArena(h: Heap, page: nat, d: nat, p: nat)
    requires Consistent(h) && d < DESC_CNT && WhollyFree(h, page, d) && p in h.arenas && p != page
    ensures ArenaOk(Dropped(h, page, d), p)
  {
    var r := Dropped(h, page, d);
    assert ArenaOk(h, p);
    if h.arenas[p].desc.Some? {
      var e := h.arenas[p].desc.value;
      OthersCount(h.free[d], page, p);
      forall i: nat | i < BlocksPerArena(e)
        ensures BlockAt(p, e, i) in r.free[e] || BlockAt(p, e, i) in r.live
      {
        BlockAddress(p, e, i);
        OthersHave(h.free[d], page, BlockAt(p, e, i));
      }
    }
  }

  lemma DropFree(h: Heap, page: nat, d: nat, e: nat)
    requires Consistent(h) && d < DESC_CNT && WhollyFree(h, page, d) && e < DESC_CNT
    ensures FreeOk(Dropped(h, page, d), e)
  {
    assert FreeOk(h, e) && FreeOk(h, d);
    OthersDistinct(h.free[d], page);
    forall x | x in Dropped(h, page, d).free[e]
      ensures OnArena(h.arenas - {page}, e, x) && x !in h.live
    {
      OthersHave(h.free[d], page, x);
      assert x in h.free[e] && OnArena(h.arenas, e, x);
    }
  }

  lemma DropConsistent(h: Heap, page: nat, d: nat)
    requires Consistent(h) && d < DESC_CNT && WhollyFree(h, page, d)
    ensures Consistent(Dropped(h, page, d))
  {
    var r := Dropped(h, page, d);
    WhollyFreeBlocks(h, page, d);
    forall p | p in r.arenas
      ensures ArenaOk(r, p)
    {
      DropArena(h, page, d, p);
    }
    forall e | 0 <= e < DESC_CNT
      ensures FreeOk(r, e)
    {
      DropFree(h, page, d, e);
    }
    forall y | y in r.live
      ensures LiveOk(r, y)
    {
      assert LiveOk(h, y);
    }
  }

  // ---------- Big blocks ----------

  function AddedBig(h: Heap, page: nat, cnt: nat): Heap {
    h.(arenas := h.arenas[page := Arena(None, cnt)], live := h.live + {BigAt(page)})
  }

  function DroppedBig(h: Heap, page: nat): Heap {
    h.(arenas := h.arenas - {page}, live := h.live - {BigAt(page)})
  }

  lemma BigAddress(page: nat)
    ensures PageOf(BigAt(page)) == page && OffsetOf(BigAt(page)) == HEADER
  {
  }

  lemma LiveElsewhere(live: set<nat>, x: nat, page: nat)
    requires PageOf(x) != page
    ensures LiveIn(live + {x}, page) == LiveIn(live, page) == LiveIn(live - {x}, page)
  {
  }

  lemma AddBigArena(h: Heap, page: nat, cnt: nat, p: nat)
    requires Consistent(h) && cnt > 0 && Unused(h.arenas, page, cnt) && (p == page || p in h.arenas)
    ensures ArenaOk(AddedBig(h, page, cnt), p)
  {
    BigAddress(page);
    NothingLive(h, page, cnt);
    if p != page {
      assert ArenaOk(h, p);
      LiveElsewhere(h.live, BigAt(page), p);
    }
  }

  lemma AddBigFree(h: Heap, page: nat, cnt: nat, e: nat)
    requires Consistent(h) && cnt > 0 && Unused(h.arenas, page, cnt) && e < DESC_CNT
    ensures FreeOk(AddedBig(h, page, cnt), e)
  {
    BigAddress(page);
    NothingLive(h, page, cnt);
    assert FreeOk(h, e);
  }

  lemma AddBigConsistent(h: Heap, page: nat, cnt: nat)
    requires Consistent(h) && cnt > 0 && Unused(h.arenas, page, cnt)
    ensures Consistent(AddedBig(h, page, cnt))
  {
    var r := AddedBig(h, page, cnt);
    forall p | p in r.arenas
      ensures ArenaOk(r, p)
    {
      AddBigArena(h, page, cnt, p);
    }
    forall e | 0 <= e < DESC_CNT
      ensures FreeOk(r, e)
    {
      AddBigFree(h, page, cnt, e);
    }
    BigAddress(page);
    NothingLive(h, page, cnt);
    forall y | y in r.live
      ensures LiveOk(r, y)
    {
      assert y != BigAt(page) ==> LiveOk(h, y);
    }
  }

  lemma DropBigArena(h: Heap, page: nat, p: nat)
    requires Consistent(h) && page in h.arenas && h.arenas[page].desc.None? && p in h.arenas && p != page
    ensures ArenaOk(DroppedBig(h, page), p)
  {
    assert ArenaOk(h, p);
    BigAddress(page);
    BigAddress(p);
    LiveElsewhere(h.live, BigAt(page), p);
    if h.arenas[p].desc.Some? {
      var e := h.arenas[p].desc.value;
      forall i: nat | i < BlocksPerArena(e)
        ensures BlockAt(p, e, i) != BigAt(page)
      {
        BlockAddress(p, e, i);
      }
    }
  }

  lemma DropBigConsistent(h: Heap, page: nat)
    requires Consistent(h) && page in h.arenas && h.arenas[page].desc.None?
    ensures Consistent(DroppedBig(h, page))
  {
    var r := DroppedBig(h, page);
    forall p | p in r.arenas
      ensures ArenaOk(r, p)
    {
      DropBigArena(h, page, p);
    }
    forall e | 0 <= e < DESC_CNT
      ensures FreeOk(r, e)
    {
      DropBigFree(h, page, e);
    }
    forall y | y in r.live
      ensures LiveOk(r, y)
    {
      BigAddress(page);
      assert LiveOk(h, y);
    }
  }

  lemma DropBigFree(h: Heap, page: nat, e: nat)
    requires Consistent(h) && page in h.arenas && h.arenas[page].desc.None? && e < DESC_CNT
    ensures FreeOk(DroppedBig(h, page), e)
  {
    assert FreeOk(h, e);
  }

  // ---------- Removing the blocks of an arena from a list ----------

  function RemoveOne(list: seq<nat>, x: nat): seq<nat>
    requires x in list
  {
    if list[0] == x then list[1..] else [list[0]] + RemoveOne(list[1..], x)
  }

  /** A list without the blocks of an arena that are numbered below `i`. */
  function Trimmed(list: seq<nat>, page: nat, d: nat, i: nat): seq<nat> {
    if list == [] then []
    else if PageOf(list[0]) == page && IndexOf(list[0], d) < i then Trimmed(list[1..], page, d, i)
    else [list[0]] + Trimmed(list[1..], page, d, i)
  }

  ghost predicate PageBlocks(list: seq<nat>, page: nat, d: nat) {
    forall k | 0 <= k < |list| && PageOf(list[k]) == page :: IsBlock(list[k], d)
  }

  lemma {:induction false} TrimNone(list: seq<nat>, page: nat, d: nat)
    requires PageBlocks(list, page, d)
    ensures Trimmed(list, page, d, 0) == list
  {
    if list != [] {
      TrimNone(list[1..], page, d);
      assert PageOf(list[0]) == page ==> IsBlock(list[0], d);
    }
  }

  lemma {:induction false} TrimAll(list: seq<nat>, page: nat, d: nat)
    requires PageBlocks(list, page, d)
    ensures Trimmed(list, page, d, BlocksPerArena(d)) == Others(list, page)
  {
    if list != [] {
      TrimAll(list[1..], page, d);
      assert PageOf(list[0]) == page ==> IsBlock(list[0], d);
    }
  }

  lemma {:induction false} TrimSame(list: seq<nat>, page: nat, d: nat, i: nat)
    requires PageBlocks(list, page, d) && BlockAt(page, d, i) !in list
    ensures Trimmed(list, page, d, i) == Trimmed(list, page, d, i + 1)
  {
    if list != [] {
      TrimSame(list[1..], page, d, i);
      if PageOf(list[0]) == page {
        BlockIsAt(list[0], d);
      }
    }
  }

  lemma {:induction false} TrimStep(list: seq<nat>, page: nat, d: nat, i: nat)
    requires PageBlocks(list, page, d) && Distinct(list)
    requires i < BlocksPerArena(d) && BlockAt(page, d, i) in list
    ensures BlockAt(page, d, i) in Trimmed(list, page, d, i)
    ensures RemoveOne(Trimmed(list, page, d, i), BlockAt(page, d, i)) == Trimmed(list, page, d, i + 1)
  {
    var x := BlockAt(page, d, i);
    BlockAddress(page, d, i);
    var rest := Trimmed(list[1..], page, d, i);
    if list[0] == x {
      TrimSame(list[1..], page, d, i);
      assert ([x] + rest)[1..] == rest;
    } else {
      TrimStep(list[1..], page, d, i);
      if PageOf(list[0]) == page {
        BlockIsAt(list[0], d);
      }
      assert ([list[0]] + rest)[1..] == rest;
    }
  }

  /** The loop of free() that takes every block of an arena off the list; each of them is on it. */
  method RemoveBlocks(list: seq<nat>, page: nat, d: nat) returns (r: seq<nat>)
    requires PageBlocks(list, page, d) && Distinct(list)
    requires forall i: nat | i < BlocksPerArena(d) :: BlockAt(page, d, i) in list
    ensures r == Others(list, page)
  {
    r := list;
    TrimNone(list, page, d);
    for i := 0 to BlocksPerArena(d)
      invariant r == Trimmed(list, page, d, i)
    {
      TrimStep(list, page, d, i);
      r := RemoveOne(r, BlockAt(page, d, i));
    }
    TrimAll(list, page, d);
  }

  // ---------- The pages of a big block ----------

  /** The number of pages for a big block, in 32-bit arithmetic. */
  function PageCount(size: nat): nat {
    ((size + HEADER) % TWO_32 + PAGE_SIZE - 1) % TWO_32 / PAGE_SIZE
  }

  /** The room of a big block. */
  lemma BigRoom(size: nat, cnt: nat)
    requires 1024 < size < TWO_32 && cnt == PageCount(size) > 0
    ensures PAGE_SIZE * cnt - HEADER >= size <==> size < TWO_32 - 11
  {
    PageCountSuffices(size);
  }

  /** The pages have room for the block exactly up to the size at which the sum with the header wraps
      around to a positive number; a sum that wraps to less than that asks for no page. */
  lemma PageCountSuffices(size: nat)
    requires size < TWO_32
    ensures size < TWO_32 - 11 ==> PageCount(size) == 0 || PageCount(size) * PAGE_SIZE >= size + HEADER
    ensures size >= TWO_32 - 11 ==> PageCount(size) == 1
    ensures size < TWO_32 - 4107 ==> PageCount(size) > 0 && (PageCount(size) - 1) * PAGE_SIZE < size + HEADER
  {
  }

  // ---------- The allocator ----------

  /** Every block handed out before is still there, with the same room. */
  ghost predicate SameRoom(a: Heap, b: Heap, live: set<nat>) {
    forall x | x in live ::
      PageOf(x) in a.arenas && PageOf(x) in b.arenas && Capacity(b.arenas, x) == Capacity(a.arenas, x)
  }

  /** When nothing is handed out, no arena is left. */
  lemma NothingLeaks(h: Heap)
    requires Consistent(h) && Settled(h) && h.live == {}
    ensures h.arenas == map[]
  {
  }

  /** A new arena leaves the blocks of the others as they are. */
  lemma NewArenaRoom(h: Heap, page: nat, a: Arena, cnt: nat)
    requires Consistent(h) && Settled(h) && cnt > 0 && Unused(h.arenas, page, cnt)
    ensures var r := h.(arenas := h.arenas[page := a]);
            SettledBut(r, page) && SameRoom(h, r, h.live) && page !in h.arenas
  {
    NothingLive(h, page, cnt);
    OldRoom(h);
  }

  /** Page `p` is one of an arena. */
  ghost predicate InSpan(arenas: map<nat, Arena>, p: nat) {
    exists a | a in arenas :: a <= p < a + Span(arenas[a])
  }

  /** The pages in use are those of the arenas and those of `others`, and none is both. */
  ghost predicate Backed(base: nat, used: seq<bool>, arenas: map<nat, Arena>, others: seq<bool>) {
    && |others| == |used|
    && (forall a | a in arenas :: base <= a && a - base + Span(arenas[a]) <= |used|)
    && (forall i | 0 <= i < |used| :: used[i] <==> others[i] || InSpan(arenas, base + i))
    && (forall i | 0 <= i < |used| :: !(others[i] && InSpan(arenas, base + i)))
  }

  /** There is no way to have `cnt` pages. */
  ghost predicate NoPages(used: seq<bool>, cnt: nat) {
    cnt == 0 || NoRun(used, cnt)
  }

  /** Pages that were free and are in use now, by others so far. */
  lemma BackedUnused(h: Heap, base: nat, used: seq<bool>, others: seq<bool>, i: nat, cnt: nat)
    requires Consistent(h) && Backed(base, used, h.arenas, others) && RunOf(used, i, cnt, false) && cnt > 0
    ensures Unused(h.arenas, base + i, cnt) && RunOf(others, i, cnt, false)
    ensures Backed(base, Fill(used, i, cnt, true), h.arenas, Fill(others, i, cnt, true))
  {
    forall a | a in h.arenas
      ensures a + Span(h.arenas[a]) <= base + i || base + i + cnt <= a
    {
      SpanAtLeastOne(h, a);
      var p := if a - base < i then i else a - base;
      assert a <= base + p < a + Span(h.arenas[a]) ==> InSpan(h.arenas, base + p);
      assert i <= p < i + cnt ==> !used[p];
    }
    forall p | i <= p < i + cnt
      ensures !others[p] && !InSpan(h.arenas, base + p)
    {
      assert !used[p];
    }
  }

  /** They become the pages of an arena. */
  lemma BackedMore(base: nat, used: seq<bool>, arenas: map<nat, Arena>, others: seq<bool>, page: nat, a: Arena)
    requires Backed(base, used, arenas, others) && page !in arenas
    requires base <= page && RunOf(others, page - base, Span(a), true)
    ensures Backed(base, used, arenas[page := a], Fill(others, page - base, Span(a), false))
  {
    var more := arenas[page := a];
    forall p: nat
      ensures InSpan(more, p) <==> InSpan(arenas, p) || page <= p < page + Span(a)
    {
      if InSpan(arenas, p) {
        var b :| b in arenas && b <= p < b + Span(arenas[b]);
        assert more[b] == arenas[b];
      }
      if page <= p < page + Span(a) {
        assert more[page] == a;
      }
    }
  }

  /** The pages of an arena are free, and the other pages are used as before. */
  lemma BackedLess(base: nat, used: seq<bool>, arenas: map<nat, Arena>, others: seq<bool>, page: nat)
    requires SpansApart(arenas) && Backed(base, used, arenas, others) && page in arenas
    ensures RunOf(used, page - base, Span(arenas[page]), true)
    ensures Backed(base, Fill(used, page - base, Span(arenas[page]), false), arenas - {page}, others)
  {
    var less := arenas - {page};
    var end := page + Span(arenas[page]);
    forall p: nat
      ensures InSpan(less, p) <==> InSpan(arenas, p) && !(page <= p < end)
      ensures page <= p < end ==> InSpan(arenas, p)
    {
      if page <= p < end {
        assert page in arenas;
      }
      if InSpan(arenas, p) && !(page <= p < end) {
        var b :| b in arenas && b <= p < b + Span(arenas[b]);
        assert less[b] == arenas[b];
      }
      if InSpan(less, p) {
        var b :| b in less && b <= p < b + Span(less[b]);
        assert arenas[b] == less[b] && (b < page || page < b);
      }
    }
    assert forall i | page - base <= i < end - base :: used[i] by {
      forall i | page - base <= i < end - base
        ensures used[i]
      {
        assert InSpan(arenas, base + i);
      }
    }
  }

  lemma BackedSame(base: nat, used: seq<bool>, a: map<nat, Arena>, b: map<nat, Arena>, others: seq<bool>)
    requires Backed(base, used, a, others) && SameArenas(a, b)
    ensures Backed(base, used, b, others)
  {
    forall p: nat
      ensures InSpan(a, p) <==> InSpan(b, p)
    {
      if InSpan(a, p) {
        var c :| c in a && c <= p < c + Span(a[c]);
        assert c in b && Span(b[c]) == Span(a[c]);
      }
      if InSpan(b, p) {
        var c :| c in b && c <= p < c + Span(b[c]);
        assert c in a && Span(b[c]) == Span(a[c]);
      }
    }
  }

  class Allocator {
    const pages: Pools
    var arenas: map<nat, Arena>
    var free: seq<seq<nat>>
    ghost var live: set<nat>
    /** The pages of the kernel pool that are not the allocator's and are in use. */
    ghost var others: seq<bool>

    ghost function Now(): Heap
      reads this
    {
      Heap(arenas, free, live)
    }

    ghost predicate Valid()
      reads this, pages
    {
      pages.Valid() && Consistent(Now()) && Settled(Now()) && Backed(pages.kernelBase, pages.kernel, arenas, others)
    }

    constructor (pages: Pools)
      requires pages.Valid()
      ensures Valid() && this.pages == pages && live == {} && arenas == map[] && others == pages.kernel
    {
      this.pages := pages;
      arenas := map[];
      free := seq(DESC_CNT, _ => []);
      live := {};
      others := pages.kernel;
    }

    /** A block that overlaps none handed out before, or null. It has room for `size` bytes exactly if
        `size` is less than 2^32 - 11; larger ones get a single page. */
    method Malloc(size: nat) returns (x: nat)
      requires Valid() && size < TWO_32
      modifies this`arenas, this`free, this`live, this`others, pages
      ensures others == old(others)
      ensures Valid() && (size == 0 ==> x == 0)
      ensures x == 0 ==> Now() == old(Now())
      ensures x == 0 && size > 0 ==> NoPages(old(pages.kernel), if size <= 1024 then 1 else PageCount(size))
      ensures x != 0 ==> x !in old(live) && live == old(live) + {x} && PageOf(x) in arenas
      ensures x != 0 ==> (Capacity(arenas, x) >= size <==> size < TWO_32 - 11)
      ensures x != 0 ==> arenas[PageOf(x)].desc == if size <= 1024 then Some(DescFor(size, 0)) else None
      ensures SameRoom(old(Now()), Now(), old(live))
    {
      OldRoom(Now());
      if size == 0 {
        return 0;
      }
      var d := 0;
      while d < DESC_CNT && BlockSize(d) < size
        invariant 0 <= d <= DESC_CNT && DescFor(size, d) == DescFor(size, 0)
      {
        d := d + 1;
      }
      assert d == DescFor(size, 0);
      if d == DESC_CNT {
        assert size > BlockSize(6);
        x := MallocBig(size);
      } else {
        x := MallocSmall(d);
      }
    }

    method MallocBig(size: nat) returns (x: nat)
      requires Valid() && 1024 < size < TWO_32
      modifies this`arenas, this`free, this`live, this`others, pages
      ensures others == old(others)
      ensures Valid()
      ensures x == 0 ==> Now() == old(Now()) && NoPages(old(pages.kernel), PageCount(size))
      ensures x != 0 ==> x !in old(live) && live == old(live) + {x} && PageOf(x) in arenas
      ensures x != 0 ==> (Capacity(arenas, x) >= size <==> size < TWO_32 - 11) && arenas[PageOf(x)].desc.None?
      ensures SameRoom(old(Now()), Now(), old(live))
    {
      OldRoom(Now());
      var cnt := PageCount(size);
      PageCountSuffices(size);
      var page := GetPages(cnt);
      if page.None? {
        return 0;
      }
      x := BigAt(page.value);
      BigAddress(page.value);
      NothingLive(Now(), page.value, cnt);
      InstallBig(page.value, cnt);
      BigRoom(size, cnt);
      assert others == old(others);
    }

    method InstallBig(page: nat, cnt: nat)
      requires Valid() && cnt > 0 && Unused(arenas, page, cnt)
      requires pages.kernelBase <= page && RunOf(others, page - pages.kernelBase, cnt, true)
      modifies this`arenas, this`free, this`live, this`others
      ensures Valid() && SameRoom(old(Now()), Now(), old(live))
      ensures live == old(live) + {BigAt(page)} && page in arenas && arenas[page] == Arena(None, cnt)
      ensures others == Fill(old(others), page - pages.kernelBase, cnt, false)
    {
      AddBigConsistent(Now(), page, cnt);
      NewArenaRoom(Now(), page, Arena(None, cnt), cnt);
      BackedMore(pages.kernelBase, pages.kernel, arenas, others, page, Arena(None, cnt));
      arenas := arenas[page := Arena(None, cnt)];
      live := live + {BigAt(page)};
      others := Fill(others, page - pages.kernelBase, cnt, false);
    }

    /** Pages from the kernel pool that no arena has. */
    method GetPages(cnt: nat) returns (r: Option<nat>)
      requires Valid()
      modifies this`others, pages
      ensures Valid() && (r.Some? ==> cnt > 0 && r.value > 0 && Unused(arenas, r.value, cnt))
      ensures r.None? ==> NoPages(old(pages.kernel), cnt) && others == old(others)
      ensures r.Some? ==> pages.kernelBase <= r.value && RunOf(old(others), r.value - pages.kernelBase, cnt, false)
                          && others == Fill(old(others), r.value - pages.kernelBase, cnt, true)
    {
      r := pages.GetMultiple(false, cnt);
      if r.Some? {
        BackedUnused(Now(), pages.kernelBase, old(pages.kernel), others, r.value - pages.kernelBase, cnt);
        others := Fill(others, r.value - pages.kernelBase, cnt, true);
      }
    }

    method MallocSmall(d: nat) returns (x: nat)
      requires Valid() && d < DESC_CNT
      modifies this`arenas, this`free, this`live, this`others, pages
      ensures others == old(others)
      ensures Valid()
      ensures x == 0 ==> Now() == old(Now()) && NoPages(old(pages.kernel), 1)
      ensures x != 0 ==> x !in old(live) && live == old(live) + {x} && PageOf(x) in arenas
      ensures x != 0 ==> OnArena(arenas, d, x)
      ensures SameRoom(old(Now()), Now(), old(live))
    {
      OldRoom(Now());
      if free[d] == [] {
        var page := GetPages(1);
        if page.None? {
          return 0;
        }
        InstallArena(page.value, d);
        assert others == old(others);
      }
      ghost var before := Now();
      x := TakeBlock(d);
      RoomChain(old(Now()), before, Now(), old(live));
    }

    method InstallArena(page: nat, d: nat)
      requires Valid() && d < DESC_CNT && free[d] == [] && Unused(arenas, page, 1)
      requires pages.kernelBase <= page && RunOf(others, page - pages.kernelBase, 1, true)
      modifies this`arenas, this`free, this`others
      ensures others == Fill(old(others), page - pages.kernelBase, 1, false)
      ensures Consistent(Now()) && Backed(pages.kernelBase, pages.kernel, arenas, others)
      ensures free[d] != [] && PageOf(free[d][0]) == page && SettledBut(Now(), page)
      ensures SameRoom(old(Now()), Now(), old(live))
    {
      AddConsistent(Now(), page, d);
      NewArenaRoom(Now(), page, Arena(Some(d), BlocksPerArena(d)), 1);
      BackedMore(pages.kernelBase, pages.kernel, arenas, others, page, Arena(Some(d), BlocksPerArena(d)));
      NewBlocks(page, d);
      arenas := arenas[page := Arena(Some(d), BlocksPerArena(d))];
      var list := ListBlocks(page, d);
      free := free[d := list];
      others := Fill(others, page - pages.kernelBase, 1, false);
    }

    /** The first block of a free list, whose arena alone may be wholly free. */
    method TakeBlock(d: nat) returns (x: nat)
      requires Consistent(Now()) && d < DESC_CNT && free[d] != []
      requires SettledBut(Now(), PageOf(free[d][0])) && Backed(pages.kernelBase, pages.kernel, arenas, others)
      modifies this`arenas, this`free, this`live
      ensures Consistent(Now()) && Settled(Now()) && SameRoom(old(Now()), Now(), old(live))
      ensures Backed(pages.kernelBase, pages.kernel, arenas, others)
      ensures x != 0 && OnArena(arenas, d, x) && x !in old(live) && live == old(live) + {x}
    {
      PopConsistent(Now(), d);
      PopRoom(Now(), d);
      x := free[d][0];
      FreeBlock(Now(), d, x);
      var a := arenas[PageOf(x)];
      BackedSame(pages.kernelBase, pages.kernel, arenas, Popped(Now(), d).arenas, others);
      arenas := arenas[PageOf(x) := a.(freeCnt := a.freeCnt - 1)];
      free := free[d := free[d][1..]];
      live := live + {x};
    }

    /** Gives a block back. The pages of an arena go back with its last block. */
    method Free(x: nat)
      requires Valid() && (x == 0 || x in live)
      modifies this`arenas, this`free, this`live, pages
      ensures Valid() && live == old(live) - {x} && SameRoom(old(Now()), Now(), live)
    {
      OldRoom(Now());
      if x == 0 {
        return;
      }
      LiveInArena(Now(), x);
      var page := PageOf(x);
      var a := arenas[page];
      if a.desc.Some? {
        FreeSmall(x, page, a.desc.value);
      } else {
        FreeBig(x, page, a.freeCnt);
      }
    }

    method FreeSmall(x: nat, page: nat, d: nat)
      requires Valid() && x in live && d < DESC_CNT && OnArena(arenas, d, x) && page == PageOf(x)
      modifies this`arenas, this`free, this`live, pages
      ensures Valid() && live == old(live) - {x} && SameRoom(old(Now()), Now(), live)
    {
      ReturnBlock(x, page, d);
      if arenas[page].freeCnt >= BlocksPerArena(d) {
        ghost var before := Now();
        FreeArena(page, d);
        RoomChain(old(Now()), before, Now(), live);
      }
    }

    method ReturnBlock(x: nat, page: nat, d: nat)
      requires Valid() && x in live && d < DESC_CNT && OnArena(arenas, d, x) && page == PageOf(x)
      modifies this`arenas, this`free, this`live
      ensures Consistent(Now()) && Backed(pages.kernelBase, pages.kernel, arenas, others) && SettledBut(Now(), page)
      ensures page in arenas && arenas[page].desc == Some(d) && arenas[page].freeCnt <= BlocksPerArena(d)
      ensures live == old(live) - {x} && SameRoom(old(Now()), Now(), live)
    {
      PushConsistent(Now(), d, x);
      PushRoom(Now(), d, x);
      BackedSame(pages.kernelBase, pages.kernel, arenas, Pushed(Now(), d, x).arenas, others);
      free := free[d := [x] + free[d]];
      arenas := arenas[page := arenas[page].(freeCnt := arenas[page].freeCnt + 1)];
      live := live - {x};
    }

    /** What free() asserts of a wholly free arena holds, and its page is given back. */
    method FreeArena(page: nat, d: nat)
      requires pages.Valid() && Consistent(Now()) && SettledBut(Now(), page)
      requires Backed(pages.kernelBase, pages.kernel, arenas, others)
      requires d < DESC_CNT && WhollyFree(Now(), page, d)
      modifies this`arenas, this`free, pages
      ensures Valid() && SameRoom(old(Now()), Now(), live)
    {
      WhollyFreeBlocks(Now(), page, d);
      DropConsistent(Now(), page, d);
      OldRoom(Now());
      FreeBlocksOk(Now(), page, d);
      var list := RemoveBlocks(free[d], page, d);
      free := free[d := list];
      ReleasePages(page, 1);
    }

    /** The pages of an arena go back, and those of the others stay in use. */
    method ReleasePages(page: nat, cnt: nat)
      requires pages.Valid() && SpansApart(arenas) && page in arenas && cnt == Span(arenas[page]) > 0
      requires Backed(pages.kernelBase, pages.kernel, arenas, others)
      modifies this`arenas, pages
      ensures pages.Valid() && arenas == old(arenas) - {page}
      ensures Backed(pages.kernelBase, pages.kernel, arenas, others)
    {
      BackedLess(pages.kernelBase, pages.kernel, arenas, others, page);
      pages.FreeMultiple(page, cnt);
      arenas := arenas - {page};
    }

    method FreeBig(x: nat, page: nat, cnt: nat)
      requires Valid() && x in live && page == PageOf(x) && page in arenas && arenas[page] == Arena(None, cnt)
      modifies this`arenas, this`free, this`live, pages
      ensures Valid() && live == old(live) - {x} && SameRoom(old(Now()), Now(), live)
    {
      OldRoom(Now());
      DropBigConsistent(Now(), page);
      BigBlock(Now(), x);
      live := live - {x};
      ReleasePages(page, cnt);
    }
  }

  /** The only block of a big arena. */
  lemma BigBlock(h: Heap, x: nat)
    requires Consistent(h) && x in h.live && PageOf(x) in h.arenas && h.arenas[PageOf(x)].desc.None?
    ensures x == BigAt(PageOf(x)) && forall y | y in h.live && y != x :: PageOf(y) != PageOf(x)
  {
    assert LiveOk(h, x);
    forall y | y in h.live && PageOf(y) == PageOf(x)
      ensures y == x
    {
      assert LiveOk(h, y);
    }
  }

  lemma FreeBlocksOk(h: Heap, page: nat, d: nat)
    requires Consistent(h) && d < DESC_CNT && page in h.arenas && h.arenas[page].desc == Some(d)
    ensures Distinct(h.free[d]) && PageBlocks(h.free[d], page, d)
  {
    assert FreeOk(h, d);
    forall k | 0 <= k < |h.free[d]| && PageOf(h.free[d][k]) == page
      ensures IsBlock(h.free[d][k], d)
    {
      assert h.free[d][k] in h.free[d];
    }
  }

  lemma PushRoom(h: Heap, d: nat, x: nat)
    requires Consistent(h) && Settled(h) && d < DESC_CNT && x in h.live && OnArena(h.arenas, d, x)
    ensures var r := Pushed(h, d, x);
            && SameArenas(h.arenas, r.arenas) && SettledBut(r, PageOf(x)) && SameRoom(h, r, r.live)
            && r.arenas[PageOf(x)].freeCnt <= BlocksPerArena(d)
  {
    OldRoom(h);
  }

  /** The same arenas, apart from their counts of free blocks. */
  ghost predicate SameArenas(a: map<nat, Arena>, b: map<nat, Arena>) {
    a.Keys == b.Keys && forall page | page in a :: a[page].desc == b[page].desc && (a[page].desc.None? ==> a[page] == b[page])
  }

  lemma RoomChain(a: Heap, b: Heap, c: Heap, live: set<nat>)
    requires SameRoom(a, b, live) && SameRoom(b, c, live)
    ensures SameRoom(a, c, live)
  {
  }

  lemma PopRoom(h: Heap, d: nat)
    requires Consistent(h) && d < DESC_CNT && h.free[d] != [] && SettledBut(h, PageOf(h.free[d][0]))
    ensures var r := Popped(h, d);
            && SameArenas(h.arenas, r.arenas) && Settled(r) && SameRoom(h, r, h.live)
            && h.free[d][0] != 0 && OnArena(r.arenas, d, h.free[d][0])
  {
    FreeBlock(h, d, h.free[d][0]);
    OldRoom(h);
  }

  lemma OldRoom(h: Heap)
    requires Consistent(h)
    ensures SameRoom(h, h, h.live)
  {
    forall x | x in h.live
      ensures PageOf(x) in h.arenas
    {
      assert LiveOk(h, x);
    }
  }

  // ---------- Every run ----------

  /** A request, or the return of one of the blocks held. */
  datatype Op = MallocOp(size: nat) | FreeOp(k: nat)

  /** A block that a caller holds, and the size asked for. */
  datatype Block = Block(address: nat, size: nat)

  ghost predicate Holds(a: Heap, held: seq<Block>) {
    && (forall x :: x in a.live <==> exists k | 0 <= k < |held| :: held[k].address == x)
    && (forall i, j {:trigger held[i], held[j]} | 0 <= i < j < |held| :: held[i].address != held[j].address)
    && (forall k | 0 <= k < |held| :: RoomOk(a, held[k]))
  }

  /** A block has room for what was asked, unless that was too large for the sum with the header. */
  ghost predicate RoomOk(a: Heap, b: Block) {
    && PageOf(b.address) in a.arenas
    && (Capacity(a.arenas, b.address) >= b.size <==> b.size < TWO_32 - 11)
  }

  lemma HoldsMore(a: Heap, b: Heap, held: seq<Block>, block: Block)
    requires Holds(a, held) && block.address !in a.live && b.live == a.live + {block.address}
    requires SameRoom(a, b, a.live) && RoomOk(b, block)
    ensures Holds(b, held + [block])
  {
    var more := held + [block];
    forall x
      ensures x in b.live <==> exists k | 0 <= k < |more| :: more[k].address == x
    {
      if x in a.live {
        var k :| 0 <= k < |held| && held[k].address == x;
        assert more[k].address == x;
      } else if x == block.address {
        assert more[|held|].address == x;
      }
    }
    forall k | 0 <= k < |held|
      ensures held[k].address in a.live && RoomOk(b, held[k])
    {
      assert held[k].address in a.live;
    }
  }

  lemma LessHas(a: Heap, held: seq<Block>, k: nat, x: nat)
    requires Holds(a, held) && k < |held|
    ensures x in a.live && x != held[k].address <==>
            exists i | 0 <= i < |held| - 1 :: Without(held, k)[i].address == x
  {
    var less := Without(held, k);
    if x in a.live && x != held[k].address {
      var i :| 0 <= i < |held| && held[i].address == x;
      assert less[if i < k then i else i - 1].address == x;
    }
    if i :| 0 <= i < |less| && less[i].address == x {
      assert held[if i < k then i else i + 1].address == x;
    }
  }

  lemma HoldsLess(a: Heap, b: Heap, held: seq<Block>, k: nat)
    requires Holds(a, held) && k < |held| && b.live == a.live - {held[k].address} && SameRoom(a, b, b.live)
    ensures Holds(b, Without(held, k))
  {
    var less := Without(held, k);
    forall x {
      LessHas(a, held, k, x);
    }
    forall i | 0 <= i < |less|
      ensures RoomOk(b, less[i])
    {
      LessHas(a, held, k, less[i].address);
      assert RoomOk(a, held[if i < k then i else i + 1]);
    }
  }

  /** The blocks held after an operation with reply `x`: one that is handed out comes last, and one that is given
      back leaves. */
  function HeldNext(held: seq<Block>, op: Op, x: nat): seq<Block> {
    match op
    case MallocOp(size) => if x != 0 then held + [Block(x, size)] else held
    case FreeOp(k) => if k < |held| then Without(held, k) else held
  }

  function HeldAfter(ops: seq<Op>, replies: seq<nat>): seq<Block>
    requires |ops| == |replies|
  {
    if ops == [] then []
    else
      var m := |ops| - 1;
      HeldNext(HeldAfter(ops[..m], replies[..m]), ops[m], replies[m])
  }

  /** Over every run the blocks held are those handed out and not given back. None overlap, all are
      past the header of their arena, and each has room for what was asked exactly if that was less
      than 2^32 - 11; and if none is held, no arena is left and all pages have been given back. */
  method Run(pages: Pools, ops: seq<Op>) returns (a: Allocator, replies: seq<nat>, held: seq<Block>)
    requires pages.Valid() && forall i | 0 <= i < |ops| :: ops[i].MallocOp? ==> ops[i].size < TWO_32
    modifies pages
    ensures |replies| == |ops| && held == HeldAfter(ops, replies)
    ensures fresh(a) && a.Valid() && Holds(a.Now(), held)
    ensures forall i, j {:trigger held[i], held[j]} | 0 <= i < |held| && 0 <= j < |held| && held[i].address < held[j].address ::
              held[i].address + Capacity(a.arenas, held[i].address) <= held[j].address
    ensures forall i | 0 <= i < |held| :: OffsetOf(held[i].address) >= HEADER
    ensures held == [] ==> a.arenas == map[] && pages.kernel == old(pages.kernel)
  {
    a := new Allocator(pages);
    held, replies := [], [];
    for n := 0 to |ops|
      invariant fresh(a) && a.pages == pages && a.Valid() && Holds(a.Now(), held) && a.others == old(pages.kernel)
      invariant |replies| == n && held == HeldAfter(ops[..n], replies)
    {
      var x;
      held, x := Perform(a, held, ops[n]);
      HeldMore(ops, replies, n, x);
      replies := replies + [x];
    }
    assert ops[..|ops|] == ops;
    Apart(a.Now(), held);
    if held == [] {
      NothingLeaks(a.Now());
    }
  }

  lemma Apart(h: Heap, held: seq<Block>)
    requires Consistent(h) && Holds(h, held)
    ensures forall i, j {:trigger held[i], held[j]} | 0 <= i < |held| && 0 <= j < |held| && held[i].address < held[j].address ::
              held[i].address + Capacity(h.arenas, held[i].address) <= held[j].address
    ensures forall i | 0 <= i < |held| :: OffsetOf(held[i].address) >= HEADER
    ensures held == [] ==> h.live == {}
  {
    forall i | 0 <= i < |held|
      ensures held[i].address in h.live && OffsetOf(held[i].address) >= HEADER
    {
      LiveInArena(h, held[i].address);
    }
    forall i, j | 0 <= i < |held| && 0 <= j < |held| && held[i].address < held[j].address
      ensures held[i].address + Capacity(h.arenas, held[i].address) <= held[j].address
    {
      LiveApart(h, held[i].address, held[j].address);
    }
  }

  lemma {:induction false} HeldMore(ops: seq<Op>, replies: seq<nat>, n: nat, x: nat)
    requires |replies| == n < |ops|
    ensures HeldAfter(ops[..n + 1], replies + [x]) == HeldNext(HeldAfter(ops[..n], replies), ops[n], x)
  {
    assert ops[..n + 1][..n] == ops[..n] && (replies + [x])[..n] == replies;
  }

  method Perform(a: Allocator, held: seq<Block>, op: Op) returns (after: seq<Block>, x: nat)
    requires a.Valid() && Holds(a.Now(), held) && (op.MallocOp? ==> op.size < TWO_32)
    modifies a, a.pages
    ensures a.Valid() && Holds(a.Now(), after) && a.others == old(a.others)
    ensures after == HeldNext(held, op, x) && (x != 0 ==> op.MallocOp? && x !in old(a.live))
    ensures op.MallocOp? && x == 0 && op.size > 0 ==>
              NoPages(old(a.pages.kernel), if op.size <= 1024 then 1 else PageCount(op.size))
  {
    after, x := held, 0;
    match op {
      case MallocOp(size) =>
        x := a.Malloc(size);
        if x != 0 {
          HoldsMore(old(a.Now()), a.Now(), held, Block(x, size));
          after := held + [Block(x, size)];
        }
      case FreeOp(k) =>
        if k < |held| {
          a.Free(held[k].address);
          HoldsLess(old(a.Now()), a.Now(), held, k);
          after := Without(held, k);
        }
    }
  }
}
