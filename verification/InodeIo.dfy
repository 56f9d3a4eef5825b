/** Reading and writing the bytes of an inode, filesys/inode.c, in chunks that each lie in one sector,
    through the buffer cache. */
module InodeIo {
  import opened Common
  import opened CacheSteps
  import opened BufferCache

  /** The bytes of an inode as one sequence. */
  function Contents(inodes: seq<Inode>, logical: seq<Sector>, inode: nat): seq<Byte>
    requires Placed(inodes, |logical|) && inode < |inodes|
  {
    seq(inodes[inode].length, p requires 0 <= p < inodes[inode].length =>
      logical[SectorFor(inodes, Key(inode, p))][p % SECTOR_SIZE])
  }

  /** `s` with `bytes` from position `ofs` on. */
  function Overlaid(s: seq<Byte>, ofs: nat, bytes: seq<Byte>): (r: seq<Byte>)
    requires ofs + |bytes| <= |s|
  {
    seq(|s|, i requires 0 <= i < |s| => if ofs <= i < ofs + |bytes| then bytes[i - ofs] else s[i])
  }

  lemma HeldIsSlice(inodes: seq<Inode>, logical: seq<Sector>, key: Key, size: nat)
    requires Placed(inodes, |logical|) && InRange(inodes, key)
    requires key.offset % SECTOR_SIZE + size <= SECTOR_SIZE && key.offset + size <= inodes[key.inode].length
    ensures Held(inodes, logical, key, size) == Contents(inodes, logical, key.inode)[key.offset..key.offset + size]
  {
  }

  lemma WrittenIsOverlaid(inodes: seq<Inode>, logical: seq<Sector>, key: Key, bytes: seq<Byte>)
    requires Placed(inodes, |logical|) && InRange(inodes, key)
    requires key.offset % SECTOR_SIZE + |bytes| <= SECTOR_SIZE && key.offset + |bytes| <= inodes[key.inode].length
    ensures var after := Written(inodes, logical, key, bytes);
            && Contents(inodes, after, key.inode) == Overlaid(Contents(inodes, logical, key.inode), key.offset, bytes)
            && forall j | 0 <= j < |inodes| && j != key.inode :: Contents(inodes, after, j) == Contents(inodes, logical, j)
  {
  }

  /** `keys` has every offset at which a transfer of the bytes from `from` to `to` accesses the cache:
      the first, and the sector boundaries after it. */
  ghost predicate Reaches(keys: iset<Key>, inode: nat, from: nat, to: int) {
    forall p: nat {:trigger Key(inode, p)} | (p == from || p % SECTOR_SIZE == 0) && from <= p < to :: Key(inode, p) in keys
  }

  /** The number of bytes that a transfer moves. */
  function Moved(length: nat, size: int, offset: nat): (n: nat)
    ensures size <= 0 || offset >= length ==> n == 0
    ensures size > 0 && offset < length ==> n <= size && offset + n <= length && (n == size || offset + n == length)
  {
    var left := if offset < length then length - offset else 0;
    if size < 0 then 0 else if size < left then size else left
  }

  /** The size of the next chunk, which is not positive when there is none. */
  function ChunkSize(length: nat, size: int, offset: nat): int {
    var inodeLeft, sectorLeft := length - offset, SECTOR_SIZE - offset % SECTOR_SIZE;
    var minLeft := if inodeLeft < sectorLeft then inodeLeft else sectorLeft;
    if size < minLeft then size else minLeft
  }

  /** A chunk lies in one sector and in the inode, and it ends the transfer, the inode or the sector. */
  lemma ChunkFits(length: nat, size: int, offset: nat)
    requires ChunkSize(length, size, offset) > 0
    ensures var n := ChunkSize(length, size, offset);
            && offset % SECTOR_SIZE + n <= SECTOR_SIZE && offset + n <= length && n <= size
            && (n == size || offset + n == length || (offset + n) % SECTOR_SIZE == 0)
  {
  }

  /** The transfer ends when all is moved or the inode ends. */
  lemma NoChunk(length: nat, size: int, offset: nat)
    requires ChunkSize(length, size, offset) <= 0
    ensures size <= 0 || offset >= length
  {
  }

  lemma SliceJoin<T>(s: seq<T>, a: nat, b: nat, c: nat)
    requires a <= b <= c <= |s|
    ensures s[a..b] + s[b..c] == s[a..c]
  {
  }

  /** With memory, an offset in an inode always gets an entry. */
  lemma FindSucceeds(inodes: seq<Inode>, s: State, key: Key, memory: bool)
    requires Sound(inodes, s) && InRange(inodes, key) && memory
    ensures Find(inodes, s, key, memory).1.Some?
  {
  }

  /** Reads exactly the bytes there are from `offset` on, up to `size`, unless memory runs out: the
      answers to the allocations are those of `memory`. */
  method ReadAt(cache: Cache, inode: nat, size: int, offset: nat, memory: nat -> bool,
                ghost keys: iset<Key>, ghost logical: seq<Sector>) returns (exited: bool, bytes: seq<Byte>)
    requires cache.Valid() && Agrees(cache.inodes, keys, cache.State(), logical) && OneOffsetPerSector(cache.inodes, keys)
    requires inode < |cache.inodes| && Reaches(keys, inode, offset, offset + size)
    modifies cache
    ensures cache.Valid() && Agrees(cache.inodes, keys, cache.State(), logical)
    ensures exited ==> exists k :: !memory(k)
    ensures var all := Contents(cache.inodes, logical, inode);
            var n := Moved(|all|, size, offset);
            !exited ==> bytes == if n == 0 then [] else all[offset..offset + n]
  {
    var length := cache.inodes[inode].length;
    ghost var all := Contents(cache.inodes, logical, inode);
    var left, at := size, offset;
    bytes := [];
    while left > 0
      invariant at == offset + |bytes| && left + |bytes| == size && (left >= 0 || bytes == [])
      invariant cache.Valid() && Agrees(cache.inodes, keys, cache.State(), logical)
      invariant bytes == [] || (at <= length && bytes == all[offset..at])
      invariant bytes == [] || left == 0 || at == length || at % SECTOR_SIZE == 0
    {
      var chunk := ChunkSize(length, left, at);
      if chunk <= 0 {
        NoChunk(length, left, at);
        break;
      }
      ChunkFits(length, left, at);
      assert Key(inode, at) in keys;
      var r := ReadChunk(cache, Key(inode, at), chunk, memory(2 * at), memory(2 * at + 1), keys, logical);
      if r.None? {
        return true, bytes;
      }
      SliceJoin(all, offset, at, at + chunk);
      left, at, bytes := left - chunk, at + chunk, bytes + r.value;
    }
    exited := false;
  }

  method ReadChunk(cache: Cache, key: Key, size: nat, memory: bool, ahead: bool,
                   ghost keys: iset<Key>, ghost logical: seq<Sector>) returns (r: Option<seq<Byte>>)
    requires cache.Valid() && Agrees(cache.inodes, keys, cache.State(), logical) && OneOffsetPerSector(cache.inodes, keys)
    requires key in keys && InRange(cache.inodes, key)
    requires key.offset % SECTOR_SIZE + size <= SECTOR_SIZE && key.offset + size <= cache.inodes[key.inode].length
    modifies cache
    ensures cache.Valid() && Agrees(cache.inodes, keys, cache.State(), logical)
    ensures memory ==> r.Some?
    ensures r.Some? ==> r.value == Contents(cache.inodes, logical, key.inode)[key.offset..key.offset + size]
  {
    ReadAgrees(cache.inodes, keys, cache.State(), logical, key, size, memory, ahead);
    if memory {
      FindSucceeds(cache.inodes, cache.State(), key, memory);
    }
    r := cache.Read(key, size, memory, ahead);
    HeldIsSlice(cache.inodes, logical, key, size);
  }

  /** The other inodes have the same bytes. */
  ghost predicate OthersSame(inodes: seq<Inode>, before: seq<Sector>, after: seq<Sector>, inode: nat)
    requires Placed(inodes, |before|) && |after| == |before|
  {
    forall j | 0 <= j < |inodes| && j != inode :: Contents(inodes, after, j) == Contents(inodes, before, j)
  }

  /** Of all sectors, only bytes at positions `from` to `to` of an extent that begins at sector `start`
      may differ. */
  ghost predicate OutsideSame(start: nat, before: seq<Sector>, after: seq<Sector>, from: nat, to: nat) {
    && |after| == |before|
    && forall t, i | 0 <= t < |before| && 0 <= i < SECTOR_SIZE && after[t][i] != before[t][i] ::
         from <= (t - start) * SECTOR_SIZE + i < to
  }

  /** The bytes of `bytes` were written from `offset` on, and nothing else changed. */
  ghost predicate Transferred(inodes: seq<Inode>, inode: nat, before: seq<Sector>, after: seq<Sector>,
                              offset: nat, bytes: seq<Byte>)
    requires Placed(inodes, |before|) && inode < |inodes|
  {
    && OutsideSame(inodes[inode].start, before, after, offset, offset + |bytes|)
    && OthersSame(inodes, before, after, inode)
    && if bytes == [] then after == before
       else
         && offset + |bytes| <= inodes[inode].length
         && Contents(inodes, after, inode) == Overlaid(Contents(inodes, before, inode), offset, bytes)
  }

  lemma ChunkTransferred(inodes: seq<Inode>, logical: seq<Sector>, key: Key, bytes: seq<Byte>)
    requires Placed(inodes, |logical|) && InRange(inodes, key) && bytes != []
    requires key.offset % SECTOR_SIZE + |bytes| <= SECTOR_SIZE && key.offset + |bytes| <= inodes[key.inode].length
    ensures Transferred(inodes, key.inode, logical, Written(inodes, logical, key, bytes), key.offset, bytes)
  {
  }

  lemma TransferredMore(inodes: seq<Inode>, inode: nat, a: seq<Sector>, b: seq<Sector>, c: seq<Sector>,
                        offset: nat, buffer: seq<Byte>, i: nat, j: nat)
    requires Placed(inodes, |a|) && inode < |inodes| && |b| == |a| && i < j <= |buffer|
    requires Transferred(inodes, inode, a, b, offset, buffer[..i]) && Transferred(inodes, inode, b, c, offset + i, buffer[i..j])
    ensures Transferred(inodes, inode, a, c, offset, buffer[..j])
  {
  }

  /** Writes exactly the bytes for which the inode has room from `offset` on, unless memory runs out;
      nothing at all while writes are denied. No other byte changes, of this inode, of another or of no
      inode at all. */
  method WriteAt(cache: Cache, inode: nat, buffer: seq<Byte>, offset: nat, denied: bool, memory: nat -> bool,
                 ghost keys: iset<Key>, ghost logical: seq<Sector>)
    returns (exited: bool, n: nat, ghost after: seq<Sector>)
    requires cache.Valid() && Agrees(cache.inodes, keys, cache.State(), logical) && OneOffsetPerSector(cache.inodes, keys)
    requires inode < |cache.inodes| && Reaches(keys, inode, offset, offset + |buffer|)
    modifies cache
    ensures cache.Valid() && |after| == |logical| && Agrees(cache.inodes, keys, cache.State(), after)
    ensures exited ==> exists k :: !memory(k)
    ensures !exited ==> n == if denied then 0 else Moved(cache.inodes[inode].length, |buffer|, offset)
    ensures n <= |buffer| && Transferred(cache.inodes, inode, logical, after, offset, buffer[..n])
  {
    n, after := 0, logical;
    if denied {
      return false, 0, logical;
    }
    var length := cache.inodes[inode].length;
    while n < |buffer|
      invariant n <= |buffer| && |after| == |logical|
      invariant cache.Valid() && Agrees(cache.inodes, keys, cache.State(), after)
      invariant Transferred(cache.inodes, inode, logical, after, offset, buffer[..n])
      invariant n == 0 || n == |buffer| || offset + n == length || (offset + n) % SECTOR_SIZE == 0
    {
      var at := offset + n;
      var chunk := ChunkSize(length, |buffer| - n, at);
      if chunk <= 0 {
        NoChunk(length, |buffer| - n, at);
        break;
      }
      ChunkFits(length, |buffer| - n, at);
      assert Key(inode, at) in keys;
      var ok;
      ok, after := WriteNext(cache, inode, buffer, offset, n, chunk, memory(at), keys, logical, after);
      if !ok {
        return true, n, after;
      }
      n := n + chunk;
    }
    exited := false;
  }

  method WriteChunk(cache: Cache, key: Key, bytes: seq<Byte>, memory: bool, ghost keys: iset<Key>, ghost logical: seq<Sector>)
    returns (ok: bool, ghost after: seq<Sector>)
    requires cache.Valid() && Agrees(cache.inodes, keys, cache.State(), logical) && OneOffsetPerSector(cache.inodes, keys)
    requires key in keys && InRange(cache.inodes, key) && bytes != []
    requires key.offset % SECTOR_SIZE + |bytes| <= SECTOR_SIZE && key.offset + |bytes| <= cache.inodes[key.inode].length
    modifies cache
    ensures cache.Valid() && |after| == |logical| && Agrees(cache.inodes, keys, cache.State(), after)
    ensures memory ==> ok
    ensures !ok ==> after == logical
    ensures ok ==> Transferred(cache.inodes, key.inode, logical, after, key.offset, bytes)
  {
    WriteAgrees(cache.inodes, keys, cache.State(), logical, key, bytes, memory);
    if memory {
      FindSucceeds(cache.inodes, cache.State(), key, memory);
    }
    ChunkTransferred(cache.inodes, logical, key, bytes);
    ok := cache.Write(key, bytes, memory);
    after := if ok then Written(cache.inodes, logical, key, bytes) else logical;
  }

  /** The next chunk of a transfer. */
  method WriteNext(cache: Cache, inode: nat, buffer: seq<Byte>, offset: nat, n: nat, chunk: nat, memory: bool,
                   ghost keys: iset<Key>, ghost logical: seq<Sector>, ghost before: seq<Sector>)
    returns (ok: bool, ghost after: seq<Sector>)
    requires cache.Valid() && Agrees(cache.inodes, keys, cache.State(), before) && OneOffsetPerSector(cache.inodes, keys)
    requires inode < |cache.inodes| && Key(inode, offset + n) in keys && |logical| == |before|
    requires 0 < chunk && n + chunk <= |buffer| && offset + n + chunk <= cache.inodes[inode].length
    requires (offset + n) % SECTOR_SIZE + chunk <= SECTOR_SIZE
    requires Transferred(cache.inodes, inode, logical, before, offset, buffer[..n])
    modifies cache
    ensures cache.Valid() && |after| == |logical| && Agrees(cache.inodes, keys, cache.State(), after)
    ensures memory ==> ok
    ensures if ok then Transferred(cache.inodes, inode, logical, after, offset, buffer[..n + chunk]) else after == before
  {
    ok, after := WriteChunk(cache, Key(inode, offset + n), buffer[n..n + chunk], memory, keys, before);
    if ok {
      TransferredMore(cache.inodes, inode, logical, before, after, offset, buffer, n, n + chunk);
    }
  }

  // ---------- Over a plain disk ----------

  /** What is read from where it was written is what was written. */
  lemma ReadBack(s: seq<Byte>, ofs: nat, bytes: seq<Byte>)
    requires ofs + |bytes| <= |s|
    ensures Overlaid(s, ofs, bytes)[ofs..ofs + |bytes|] == bytes
  {
  }

  /** The same transfers over sectors that are read and written directly, at any offset. */
  class Store {
    const inodes: seq<Inode>
    var sectors: seq<Sector>

    ghost predicate Valid()
      reads this
    {
      Placed(inodes, |sectors|)
    }

    constructor (inodes: seq<Inode>, sectors: seq<Sector>)
      requires Placed(inodes, |sectors|)
      ensures Valid() && this.inodes == inodes && this.sectors == sectors
    {
      this.inodes, this.sectors := inodes, sectors;
    }

    method ReadAt(inode: nat, size: int, offset: nat) returns (bytes: seq<Byte>)
      requires Valid() && inode < |inodes|
      ensures var all := Contents(inodes, sectors, inode);
              var n := Moved(|all|, size, offset);
              bytes == if n == 0 then [] else all[offset..offset + n]
    {
      var length := inodes[inode].length;
      ghost var all := Contents(inodes, sectors, inode);
      var left, at := size, offset;
      bytes := [];
      while left > 0
        invariant at == offset + |bytes| && left + |bytes| == size && (left >= 0 || bytes == [])
        invariant bytes == [] || (at <= length && bytes == all[offset..at])
      {
        var chunk := ChunkSize(length, left, at);
        if chunk <= 0 {
          NoChunk(length, left, at);
          break;
        }
        ChunkFits(length, left, at);
        HeldIsSlice(inodes, sectors, Key(inode, at), chunk);
        SliceJoin(all, offset, at, at + chunk);
        left, at, bytes := left - chunk, at + chunk, bytes + Held(inodes, sectors, Key(inode, at), chunk);
      }
    }

    method WriteAt(inode: nat, buffer: seq<Byte>, offset: nat, denied: bool) returns (n: nat)
      requires Valid() && inode < |inodes|
      modifies this
      ensures Valid() && |sectors| == |old(sectors)|
      ensures n == if denied then 0 else Moved(inodes[inode].length, |buffer|, offset)
      ensures n <= |buffer| && Transferred(inodes, inode, old(sectors), sectors, offset, buffer[..n])
    {
      n := 0;
      if denied {
        return;
      }
      var length := inodes[inode].length;
      while n < |buffer|
        invariant n <= |buffer| && Valid() && |sectors| == |old(sectors)|
        invariant Transferred(inodes, inode, old(sectors), sectors, offset, buffer[..n])
      {
        var at := offset + n;
        var chunk := ChunkSize(length, |buffer| - n, at);
        if chunk <= 0 {
          NoChunk(length, |buffer| - n, at);
          break;
        }
        ChunkFits(length, |buffer| - n, at);
        ghost var before := sectors;
        ChunkTransferred(inodes, sectors, Key(inode, at), buffer[n..n + chunk]);
        sectors := Written(inodes, sectors, Key(inode, at), buffer[n..n + chunk]);
        TransferredMore(inodes, inode, old(sectors), before, sectors, offset, buffer, n, n + chunk);
        n := n + chunk;
      }
    }
  }

  /** Reading where something was just written gives that much of it. */
  method WriteThenRead(store: Store, inode: nat, buffer: seq<Byte>, offset: nat) returns (n: nat, bytes: seq<Byte>)
    requires store.Valid() && inode < |store.inodes|
    modifies store
    ensures n == Moved(store.inodes[inode].length, |buffer|, offset)
    ensures n <= |buffer| && bytes == buffer[..n]
  {
    ghost var all := Contents(store.inodes, store.sectors, inode);
    n := store.WriteAt(inode, buffer, offset, false);
    bytes := store.ReadAt(inode, |buffer|, offset);
    if n > 0 {
      ReadBack(all, offset, buffer[..n]);
    }
  }
}
