/** The page allocator of threads/palloc.c: two pools of pages, each with a map of those in use. Pages
    are named by their numbers; number 0 is null. */
module PageAlloc {
  import opened Common
  import opened Bitmaps

  /** The pages at the base of a pool of `cnt` pages that hold its map. */
  function MapPages(cnt: nat): nat {
    (8 + 4 * WordCount(cnt) + PAGE_SIZE - 1) / PAGE_SIZE
  }

  /** They have room for the structure of eight bytes and a bit for every page, in whole words, and none of them
      is without. */
  lemma MapFits(cnt: nat)
    ensures 8 + 4 * WordCount(cnt) <= MapPages(cnt) * PAGE_SIZE < 8 + 4 * WordCount(cnt) + PAGE_SIZE
    ensures cnt <= 32 * WordCount(cnt) < cnt + 32
  {
  }

  /** The pages that the user pool is given out of `free`: half of them, if it is not limited to fewer. */
  function UserPages(free: nat, limit: nat): (n: nat)
    ensures n <= limit && n <= free - n && (n == limit || n + 1 > free - n - 1)
  {
    if free / 2 > limit then limit else free / 2
  }

  /** A pool does not have `cnt` free pages in a row. */
  ghost predicate NoRun(used: seq<bool>, cnt: nat) {
    forall i: nat :: !RunOf(used, i, cnt, false)
  }

  class Pools {
    const kernelBase: nat
    const userBase: nat
    var kernel: seq<bool>
    var user: seq<bool>

    ghost predicate Valid()
      reads this
    {
      0 < kernelBase && kernelBase + |kernel| <= userBase
    }

    /** Splits the `free` pages from `start` on. Each pool must have room for its map; no page of a pool
        is in both, holds a map or lies outside. */
    constructor (start: nat, free: nat, limit: nat)
      requires start > 0
      requires var users := UserPages(free, limit); MapPages(free - users) <= free - users && MapPages(users) <= users
      ensures Valid() && userBase + |user| == start + free
      ensures kernelBase == start + MapPages(free - UserPages(free, limit))
      ensures userBase == kernelBase + |kernel| + MapPages(UserPages(free, limit))
      ensures (forall i | 0 <= i < |kernel| :: !kernel[i]) && (forall i | 0 <= i < |user| :: !user[i])
    {
      var users := UserPages(free, limit);
      var kernels := free - users;
      kernelBase := start + MapPages(kernels);
      kernel := seq(kernels - MapPages(kernels), _ => false);
      userBase := start + kernels + MapPages(users);
      user := seq(users - MapPages(users), _ => false);
    }

    /** The first `cnt` pages in a row that are free, from the pool asked for, and no others. */
    method GetMultiple(fromUser: bool, cnt: nat) returns (r: Option<nat>)
      requires Valid()
      modifies this`kernel, this`user
      ensures Valid()
      ensures r.None? ==> kernel == old(kernel) && user == old(user)
      ensures r.None? <==> cnt == 0 || NoRun(if fromUser then old(user) else old(kernel), cnt)
      ensures r.Some? && fromUser ==>
                && kernel == old(kernel) && r.value >= userBase && RunOf(old(user), r.value - userBase, cnt, false)
                && user == Fill(old(user), r.value - userBase, cnt, true)
                && forall i: nat | i < r.value - userBase :: !RunOf(old(user), i, cnt, false)
      ensures r.Some? && !fromUser ==>
                && user == old(user) && r.value >= kernelBase && RunOf(old(kernel), r.value - kernelBase, cnt, false)
                && kernel == Fill(old(kernel), r.value - kernelBase, cnt, true)
                && forall i: nat | i < r.value - kernelBase :: !RunOf(old(kernel), i, cnt, false)
    {
      if cnt == 0 {
        return None;
      }
      var used := if fromUser then user else kernel;
      var idx := Scan(used, 0, cnt, false);
      ScanIsLeast(used, 0, cnt, false);
      if idx.None? {
        return None;
      }
      if fromUser {
        user := Fill(user, idx.value, cnt, true);
        return Some(userBase + idx.value);
      }
      kernel := Fill(kernel, idx.value, cnt, true);
      return Some(kernelBase + idx.value);
    }

    /** `cnt` pages from `page` on are in one pool, and in use. */
    ghost predicate Allocated(page: nat, cnt: nat)
      reads this
    {
      || (kernelBase <= page && RunOf(kernel, page - kernelBase, cnt, true))
      || (userBase <= page && RunOf(user, page - userBase, cnt, true))
    }

    /** Gives pages back to the pool that they are from, which their numbers tell. */
    method FreeMultiple(page: nat, cnt: nat)
      requires Valid() && (page == 0 || cnt == 0 || Allocated(page, cnt))
      modifies this`kernel, this`user
      ensures Valid()
      ensures page == 0 || cnt == 0 ==> kernel == old(kernel) && user == old(user)
      ensures page != 0 && cnt > 0 && page < userBase ==>
                user == old(user) && page >= kernelBase && page - kernelBase + cnt <= |old(kernel)|
                && kernel == Fill(old(kernel), page - kernelBase, cnt, false)
      ensures page != 0 && cnt > 0 && page >= userBase ==>
                kernel == old(kernel) && page - userBase + cnt <= |old(user)|
                && user == Fill(old(user), page - userBase, cnt, false)
    {
      if page == 0 || cnt == 0 {
        return;
      }
      if kernelBase <= page < kernelBase + |kernel| {
        kernel := Fill(kernel, page - kernelBase, cnt, false);
      } else {
        user := Fill(user, page - userBase, cnt, false);
      }
    }
  }

  /** Pages that were got and given back leave their pool as it was. */
  method GetThenFree(pools: Pools, fromUser: bool, cnt: nat)
    requires pools.Valid()
    modifies pools
    ensures pools.Valid() && pools.kernel == old(pools.kernel) && pools.user == old(pools.user)
  {
    var page := pools.GetMultiple(fromUser, cnt);
    if page.Some? {
      pools.FreeMultiple(page.value, cnt);
    }
  }
}
