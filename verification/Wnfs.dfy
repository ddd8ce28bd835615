/** WNFS over the cache and the disk: create_file, write_to_file, read_from_file, allocate_sectors and
    vfs_metadata, with every buffer reference released on every way out. */
module Wnfs {
  import opened Bits
  import opened DiskLayout
  import opened DiskSteps
  import opened FileWrites
  import opened FileCreation
  import opened WriteStages
  import opened BlockAllocation
  import opened BufferCache
  import opened Refusals

  datatype CreateResult = Created(id: nat) | CreateDiskError | OutOfINodes

  datatype WriteResult = Wrote(count: nat) | WriteDeviceError | BufferTooSmall

  datatype ReadResult = Read(count: nat) | ReadDiskError | BadPosition | EndOfFile

  /** The lowest inode number at or above `i` that is not in use. */
  function LowestFree(d: Image, i: nat): (r: nat)
    requires Formatted(d) && i <= BITMAP_BITS
    ensures i <= r <= BITMAP_BITS && (r < BITMAP_BITS ==> !InodeUsed(d, r))
    ensures forall x {:trigger InodeUsed(d, x)} :: i <= x < r ==> InodeUsed(d, x)
    decreases BITMAP_BITS - i
  {
    if i == BITMAP_BITS || !InodeUsed(d, i) then i else LowestFree(d, i + 1)
  }

  lemma LowestFreeIs(d: Image, id: nat)
    requires Formatted(d) && id <= BITMAP_BITS
    requires id < BITMAP_BITS ==> !Marked(d[INODE_BITMAP_SECTOR], id)
    requires forall x {:trigger Marked(d[INODE_BITMAP_SECTOR], x)} :: 0 <= x < id ==> Marked(d[INODE_BITMAP_SECTOR], x)
    ensures LowestFree(d, 0) == id
  {
    var r := LowestFree(d, 0);
    assert r < id ==> Marked(d[INODE_BITMAP_SECTOR], r);
    assert id < r ==> InodeUsed(d, id);
  }

  /** `bytes` are what the sectors of the file hold from `position` on. */
  predicate BytesAt(d: Image, id: nat, position: nat, bytes: seq<byte>)
    requires Formatted(d) && id < BITMAP_BITS
  {
    forall i {:trigger bytes[i]} :: 0 <= i < |bytes| ==>
      position + i < MAX_SIZE && DataSector(d, id, (position + i) / 512) < |d|
      && bytes[i] == ByteOf(d, id, position + i)
  }

  lemma SectorBytes(d: Image, id: nat, position: nat, bytes: seq<byte>)
    requires Consistent(d) && UsedIn(d, id) && position + |bytes| <= MAX_SIZE && position % 512 + |bytes| <= 512
    requires position < MAX_SIZE && DataSector(d, id, position / 512) < |d|
    requires bytes == d[DataSector(d, id, position / 512)][position % 512..position % 512 + |bytes|]
    ensures BytesAt(d, id, position, bytes)
  {
    forall i | 0 <= i < |bytes|
      ensures position + i < MAX_SIZE && DataSector(d, id, (position + i) / 512) < |d|
              && bytes[i] == ByteOf(d, id, position + i)
    {
      assert (position + i) / 512 == position / 512 && (position + i) % 512 == position % 512 + i;
    }
  }

  /** An answer of read_from_file in the numbers of the layout. */
  lemma AnswerOnDisk(d: Image, id: nat, position: nat, len: nat, res: ReadResult, bytes: seq<byte>)
    requires Consistent(d) && UsedIn(d, id) && !res.ReadDiskError?
    requires res.EndOfFile? ==> position >= FileSize(d, id)
    requires !res.EndOfFile? ==> position < FileSize(d, id)
    requires res.BadPosition? ==> position / 512 < NUM_DIRECT && Pointer(d, id, position / 512) == 0
    requires res.Read? ==> position < FileSize(d, id) <= MAX_SIZE && |bytes| == res.count
                           && res.count == BytesToRead(FileSize(d, id), position, len)
                           && Pointer(d, id, position / 512) != 0 && BytesAt(d, id, position, bytes)
    ensures var inode, o := d[84 + id / 4], 128 * (id % 4);
            var size := (inode[o] as int) + 0x100 * (inode[o + 1] as int) + 0x1_0000 * (inode[o + 2] as int)
                        + 0x100_0000 * (inode[o + 3] as int);
            (res.EndOfFile? <==> position >= size) &&
            (!res.EndOfFile? ==>
               var w := o + 16 + 4 * (position / 512);
               w + 4 <= 512 &&
               var q := (inode[w] as int) + 0x100 * (inode[w + 1] as int) + 0x1_0000 * (inode[w + 2] as int)
                        + 0x100_0000 * (inode[w + 3] as int);
               (res.BadPosition? <==> q == 0) &&
               (res.Read? ==>
                  && position + res.count <= size && position % 512 + res.count <= 512 && res.count <= len
                  && (position + res.count == size || position % 512 + res.count == 512 || res.count == len)
                  && q + position / 512 % 2 < |d|
                  && forall i :: 0 <= i < res.count ==> bytes[i] == d[q + position / 512 % 2][position % 512 + i]))
  {
    InodeWords(d, id);
    if res.Read? {
      DataSectorInRange(d, id, position / 512);
      forall i | 0 <= i < |bytes| ensures bytes[i] == d[DataSector(d, id, position / 512)][position % 512 + i] {
        assert (position + i) / 512 == position / 512 && (position + i) % 512 == position % 512 + i;
        assert bytes[i] == ByteOf(d, id, position + i);
      }
    }
  }

  /** A finished write in the numbers of the layout. */
  lemma WrittenOnDisk(before: Image, after: Image, id: nat, pos: nat, data: seq<byte>)
    requires Consistent(before) && UsedIn(before, id) && after in Outcomes(before, id, pos, data, true)
    ensures pos % 512 + |data| <= 512
    ensures var o, w := 128 * (id % 4), 128 * (id % 4) + 16 + 4 * (pos / 512);
            |after| == |before| && w + 4 <= 512 &&
            var b, a := before[84 + id / 4], after[84 + id / 4];
            var size0 := (b[o] as int) + 0x100 * (b[o + 1] as int) + 0x1_0000 * (b[o + 2] as int)
                         + 0x100_0000 * (b[o + 3] as int);
            var size := (a[o] as int) + 0x100 * (a[o + 1] as int) + 0x1_0000 * (a[o + 2] as int)
                        + 0x100_0000 * (a[o + 3] as int);
            var q0 := (b[w] as int) + 0x100 * (b[w + 1] as int) + 0x1_0000 * (b[w + 2] as int)
                      + 0x100_0000 * (b[w + 3] as int);
            var q := (a[w] as int) + 0x100 * (a[w + 1] as int) + 0x1_0000 * (a[w + 2] as int)
                     + 0x100_0000 * (a[w + 3] as int);
            && size == (if size0 < pos + |data| then pos + |data| else size0)
            && q != 0 && (q0 != 0 ==> q == q0) && q + pos / 512 % 2 < |after|
            && var s := before[q + pos / 512 % 2];
               after[q + pos / 512 % 2] == s[..pos % 512] + data + s[pos % 512 + |data|..]
  {
    InodeWords(before, id);
    InodeWords(after, id);
    assert Pointer(before, id, pos / 512) == Pointer(before, id, pos / 512);
    assert Pointer(after, id, pos / 512) == Pointer(after, id, pos / 512);
  }

  lemma WordBytes(s: Sector, off: nat)
    requires off + 4 <= 512
    ensures U32At(s, off) == 0 ==> s[off] == 0 && s[off + 1] == 0 && s[off + 2] == 0 && s[off + 3] == 0
    ensures U32At(s, off) == 0xDEADBEEF ==> s[off..off + 4] == [0xEF, 0xBE, 0xAD, 0xDE]
  {
    var b0: int, b1: int, b2: int, b3: int := s[off], s[off + 1], s[off + 2], s[off + 3];
    assert U32At(s, off) == 0xDEADBEEF ==> b0 == 0xEF && b1 == 0xBE && b2 == 0xAD && b3 == 0xDE;
  }

  /** A new file in the numbers of the layout. */
  lemma CreatedOnDisk(before: Image, after: Image, id: nat, name: seq<byte>)
    requires Consistent(before) && id == LowestFree(before, 0) < BITMAP_BITS
    requires CreateOk(before, after, id, name) && InodeUsed(after, id)
    ensures && id < 4096 && |after| >= 2132
            && !Bit(before[82][id / 8], id % 8)
            && (forall x: nat {:trigger Bit(before[82][x / 8], x % 8)} :: x < id ==>
                  Bit(before[82][x / 8], x % 8))
            && (forall x: nat {:trigger Bit(after[82][x / 8], x % 8)} :: x < 4096 ==>
                  (Bit(after[82][x / 8], x % 8) <==> x == id || Bit(before[82][x / 8], x % 8)))
            && var inode, o := after[84 + id / 4], 128 * (id % 4);
               && (forall i :: o <= i < o + 12 || o + 16 <= i < o + 64 ==> inode[i] == 0)
               && inode[o + 12..o + 16] == [0xEF, 0xBE, 0xAD, 0xDE]
               && (|name| <= 63 ==> inode[o + 64] == |name| && inode[o + 65..o + 65 + |name|] == name)
  {
    forall x: nat | x < 4096 ensures Bit(before[82][x / 8], x % 8) <==> InodeUsed(before, x) {
    }
    assert after[INODE_BITMAP_SECTOR] == MarkOne(before[INODE_BITMAP_SECTOR], id);
    forall x: nat | x < 4096
      ensures Bit(after[82][x / 8], x % 8) <==> x == id || Bit(before[82][x / 8], x % 8)
    {
      MarkOneMarks(before[INODE_BITMAP_SECTOR], id, x);
      assert Marked(after[INODE_BITMAP_SECTOR], x) <==> x == id || Marked(before[INODE_BITMAP_SECTOR], x);
    }
    NewInodeBytes(after[InodeSector(id)], InodeOffset(id), name);
  }

  lemma AllUsedOnDisk(d: Image)
    requires Formatted(d) && LowestFree(d, 0) == BITMAP_BITS
    ensures forall x: nat {:trigger Bit(d[82][x / 8], x % 8)} :: x < 4096 ==> Bit(d[82][x / 8], x % 8)
  {
    forall x: nat | x < 4096 ensures Bit(d[82][x / 8], x % 8) {
      assert InodeUsed(d, x);
    }
  }

  lemma NewInodeBytes(sec: Sector, o: nat, name: seq<byte>)
    requires o + INODE_SIZE <= 512 && NewInode(sec, o, name)
    ensures forall i :: o <= i < o + 12 || o + 16 <= i < o + 64 ==> sec[i] == 0
    ensures sec[o + 12..o + 16] == [0xEF, 0xBE, 0xAD, 0xDE]
  {
    forall w: nat | w < 16 ensures w != 3 ==> U32At(sec, o + 4 * w) == 0 {
      if w >= 4 { assert NullWord(sec, o, w - 4); }
    }
    forall i | o <= i < o + 12 || o + 16 <= i < o + 64 ensures sec[i] == 0 {
      var w := (i - o) / 4;
      WordBytes(sec, o + 4 * w);
      assert i == o + 4 * w + (i - o) % 4;
    }
    WordBytes(sec, o + 12);
  }

  /** The search for a block comes back empty-handed. */
  predicate NoBlockFound(d: Image)
    requires Formatted(d)
  {
    Crowded(d[BLOCK_GROUP_SECTOR]) && FirstHit(d[BLOCK_GROUP_SECTOR], 0) == 512
  }

  /** Every image from place `n` of a history on is one of `good`. */
  ghost predicate AllIn(history: seq<Image>, n: nat, good: iset<Image>) {
    forall k {:trigger history[k]} :: n <= k < |history| ==> history[k] in good
  }

  class FileSystem {
    const disk: Disk
    const cache: BufCache

    /** The cache serves this disk and never holds the block bitmap, which is read and written past it. */
    ghost predicate Wired()
      reads this, cache, cache.bufSectors, cache.buffer, cache.disk
    {
      && cache.disk == disk && cache.Valid()
      && forall b: nat :: b < NUM_BUFS ==> cache.bufSectors[b] != BLOCK_GROUP_SECTOR
    }

    /** Whatever the disk has refused: the disk, what readers see, and every mixture of the two are
        consistent. */
    ghost predicate Safe()
      requires Wired()
      reads this, cache, cache.bufSectors, cache.buffer, cache.disk
    {
      Sound(disk.sectors, cache.seen)
    }

    /** Before and after every call, on every way out of it. */
    ghost predicate Ready()
      reads this, cache, cache.bufSectors, cache.buffer, cache.disk
    {
      Wired() && cache.HeldExactly({}) && Safe() && Consistent(disk.sectors)
    }

    constructor (disk: Disk)
      requires |disk.sectors| < NO_SECTOR && Consistent(disk.sectors) && !disk.lost
      ensures Ready() && !disk.lost && this.disk == disk
      ensures fresh(cache) && fresh(cache.bufSectors) && fresh(cache.buffer)
    {
      this.disk := disk;
      cache := new BufCache(disk);
      new;
      cache.SeenIsDisk();
      SoundSame(disk.sectors);
    }

    /** read_buf_sector for a sector that no held buffer has: a clean buffer that was free. */
    method Acquire(sector: nat, ghost held: set<nat>) returns (ok: bool, b: nat)
      requires Wired() && Safe() && cache.HeldExactly(held) && sector != NO_SECTOR && sector != BLOCK_GROUP_SECTOR
      requires forall h: nat :: h in held && h < NUM_BUFS ==> cache.bufSectors[h] != sector
      modifies cache`freeMask, cache`seen, cache.bufSectors, cache.buffer, disk`faults
      ensures Wired()
      ensures ok ==> b < NUM_BUFS && b !in held && cache.HeldExactly(held + {b})
      ensures ok ==> cache.bufSectors[b] == sector < |disk.sectors| && !cache.Dirty(b)
      ensures ok && !disk.lost ==> cache.buffer[b] == disk.sectors[sector]
      ensures Safe()
      ensures ok ==> cache.seen[sector] == cache.buffer[b]
      ensures ok ==> forall h: nat :: h in held && h < NUM_BUFS ==>
                cache.bufSectors[h] == old(cache.bufSectors[h]) && cache.buffer[h] == old(cache.buffer[h])
      ensures old(disk.faults) == [] ==> disk.faults == []
      ensures old(disk.faults) == [] && sector < |disk.sectors| && |held| < NUM_BUFS ==> ok
      ensures !ok ==> cache.HeldExactly(held) && cache.bufSectors[..] == old(cache.bufSectors[..])
                      && cache.buffer[..] == old(cache.buffer[..])
    {
      if |held| < NUM_BUFS { FreeBufferExists(held); }
      ghost var d, v := disk.sectors, cache.seen;
      ok, b := cache.ReadBufSector(sector);
      EvictSound(d, v, cache.seen);
      if ok {
        assert cache.BufOk(b);
        assert old(cache.Held(b)) <==> b in held;
        assert cache.BufOk(b);
        assert b !in held;
        forall h: nat | h in held && h < NUM_BUFS
          ensures cache.bufSectors[h] == old(cache.bufSectors[h]) && cache.buffer[h] == old(cache.buffer[h])
        {
          assert h != b;
        }
      }
    }

    lemma FreeBufferExists(held: set<nat>)
      requires cache.HeldExactly(held) && |held| < NUM_BUFS
      ensures exists i: nat :: i < NUM_BUFS && !cache.Held(i)
    {
      var all: set<nat> := {0, 1, 2, 3, 4, 5, 6, 7};
      if all <= held { SubsetSize(all, held); }
      var i :| i in all && i !in held;
      assert !cache.Held(i);
    }

    static lemma {:induction false} SubsetSize(a: set<nat>, b: set<nat>)
      requires a <= b
      ensures |a| <= |b|
    {
      assert b == a + (b - a);
    }

    /** The destructor of a reference. */
    method Release(b: nat, ghost held: set<nat>)
      requires Wired() && Safe() && cache.HeldExactly(held) && b in held && b < NUM_BUFS
      modifies cache`dirtyMask, cache`freeMask, disk
      ensures Wired() && cache.HeldExactly(held - {b})
      ensures forall i: nat :: i != b ==> (cache.Dirty(i) <==> old(cache.Dirty(i)))
      ensures cache.bufSectors[b] < |old(disk.sectors)|
      ensures !old(cache.Dirty(b)) ==>
                disk.sectors == old(disk.sectors) && disk.history == old(disk.history) && disk.lost == old(disk.lost)
      ensures old(cache.Dirty(b)) && !disk.lost ==>
                disk.sectors == old(disk.sectors)[cache.bufSectors[b] := cache.buffer[b]] &&
                disk.history == old(disk.history) + [disk.sectors]
      ensures old(cache.Dirty(b)) && disk.lost ==>
                (disk.sectors == old(disk.sectors) && disk.history == old(disk.history)) ||
                (disk.sectors == old(disk.sectors)[cache.bufSectors[b] := cache.buffer[b]] &&
                 disk.history == old(disk.history) + [disk.sectors])
      ensures old(disk.lost) ==> disk.lost
      ensures old(disk.faults) == [] ==> disk.faults == [] && disk.lost == old(disk.lost)
      ensures Safe()
    {
      assert cache.Held(b);
      assert cache.BufOk(b);
      ghost var d, v := disk.sectors, cache.seen;
      assert cache.BufOk(b);
      cache.ReleaseBuffer(b);
      FlushSound(d, v, cache.bufSectors[b]);
      forall i: nat | i < NUM_BUFS ensures cache.Held(i) <==> i in held - {b} {
        assert old(cache.Held(i)) <==> i in held;
      }
    }

    /** The two destructors at the end of write_to_file: the block's, whose buffer is clean, and the
        inode's. */
    method ReleaseBoth(db: nat, ib: nat)
      requires Wired() && Safe() && cache.HeldExactly({ib, db}) && ib != db && ib < NUM_BUFS && db < NUM_BUFS
      requires !cache.Dirty(db)
      modifies cache`dirtyMask, cache`freeMask, disk
      ensures Ready() && (old(disk.lost) ==> disk.lost)
      ensures cache.bufSectors[ib] < |old(disk.sectors)|
      ensures !old(cache.Dirty(ib)) ==>
                disk.sectors == old(disk.sectors) && disk.history == old(disk.history) && disk.lost == old(disk.lost)
      ensures (disk.sectors == old(disk.sectors)[cache.bufSectors[ib] := cache.buffer[ib]]
               && disk.history == old(disk.history) + [disk.sectors])
              || (disk.sectors == old(disk.sectors) && disk.history == old(disk.history))
      ensures old(cache.Dirty(ib)) && !disk.lost ==>
                disk.sectors == old(disk.sectors)[cache.bufSectors[ib] := cache.buffer[ib]]
      ensures old(disk.faults) == [] ==> disk.faults == [] && disk.lost == old(disk.lost)
    {
      Release(db, {ib, db});
      Release(ib, {ib});
      SoundBoth(disk.sectors, cache.seen);
    }

    /** flush, of a held buffer. */
    method FlushHeld(b: nat, ghost held: set<nat>) returns (ok: bool)
      requires Wired() && Safe() && cache.HeldExactly(held) && b in held && b < NUM_BUFS
      modifies cache`dirtyMask, disk
      ensures Wired() && cache.HeldExactly(held) && !cache.Dirty(b)
      ensures forall i: nat :: i != b ==> (cache.Dirty(i) <==> old(cache.Dirty(i)))
      ensures cache.bufSectors[b] < |old(disk.sectors)|
      ensures ok ==> disk.sectors == old(disk.sectors)[cache.bufSectors[b] := cache.buffer[b]]
      ensures ok ==> disk.history == old(disk.history) + [disk.sectors] && disk.lost == old(disk.lost)
      ensures !ok ==> disk.sectors == old(disk.sectors) && disk.history == old(disk.history) && disk.lost
      ensures old(disk.faults) == [] ==> disk.faults == [] && ok
      ensures Safe()
    {
      assert cache.Held(b);
      assert cache.BufOk(b);
      ghost var d, v := disk.sectors, cache.seen;
      assert cache.BufOk(b);
      ok := cache.Flush(b);
      FlushSound(d, v, cache.bufSectors[b]);
    }

    /** A store through a reference, which marks the buffer dirty. */
    method StoreHeld(b: nat, data: Sector, ghost held: set<nat>)
      requires Wired() && cache.HeldExactly(held) && b in held && b < NUM_BUFS
      requires Safe() && cache.bufSectors[b] < |disk.sectors|
      requires Sound(disk.sectors, cache.seen[cache.bufSectors[b] := data])
      modifies cache`dirtyMask, cache`seen, cache.buffer
      ensures Wired() && cache.HeldExactly(held) && cache.Dirty(b)
      ensures forall i: nat :: i != b ==> (cache.Dirty(i) <==> old(cache.Dirty(i)))
      ensures cache.buffer[..] == old(cache.buffer[..])[b := data]
      ensures Safe()
    {
      assert cache.Held(b);
      cache.MarkDirty(b);
      cache.Store(b, data);
    }

    // -------------------------------------------------------------- creating

    /** create_file: the lowest inode not in use becomes an empty file. While it runs the disk holds no
        trace of the file, or the file, empty and named. In the numbers of the layout: the lowest clear bit of
        sector 82 is set, and the 128 bytes of the inode hold a size, a reserved word, a creation time and
        twelve block words of zero, the time stamp 0xDEADBEEF, and the name. */
    method CreateFile(name: seq<byte>) returns (res: CreateResult)
      requires Ready()
      modifies cache, cache.bufSectors, cache.buffer, disk
      ensures Ready() && (old(disk.lost) ==> disk.lost)
      ensures old(disk.history) <= disk.history
      ensures var id := LowestFree(old(disk.sectors), 0);
              !old(disk.lost) ==>
                forall k {:trigger disk.history[k]} :: |old(disk.history)| <= k < |disk.history| ==>
                  id < BITMAP_BITS && CreateOk(old(disk.sectors), disk.history[k], id, name)
      ensures var id := LowestFree(old(disk.sectors), 0);
              !disk.lost ==>
                match res
                case Created(x) => x == id < BITMAP_BITS && InodeUsed(disk.sectors, id)
                                   && CreateOk(old(disk.sectors), disk.sectors, id, name)
                case OutOfINodes => id == BITMAP_BITS && disk.sectors == old(disk.sectors)
                case CreateDiskError => disk.sectors == old(disk.sectors)
      ensures UsedBits(old(disk.sectors)[INODE_BITMAP_SECTOR]) <= UsedBits(disk.sectors[INODE_BITMAP_SECTOR])
      ensures res.Created? ==> UsedIn(disk.sectors, res.id)
      ensures old(disk.faults) == [] ==> disk.faults == [] && disk.lost == old(disk.lost) && res != CreateDiskError
      ensures res.Created? && !disk.lost ==>
                var before, after := old(disk.sectors), disk.sectors;
                && res.id < 4096 && |after| >= 2132
                && !Bit(before[82][res.id / 8], res.id % 8)
                && (forall x: nat {:trigger Bit(before[82][x / 8], x % 8)} :: x < res.id ==>
                      Bit(before[82][x / 8], x % 8))
                && (forall x: nat {:trigger Bit(after[82][x / 8], x % 8)} :: x < 4096 ==>
                      (Bit(after[82][x / 8], x % 8) <==> x == res.id || Bit(before[82][x / 8], x % 8)))
                && var inode, o := after[84 + res.id / 4], 128 * (res.id % 4);
                   && (forall i :: o <= i < o + 12 || o + 16 <= i < o + 64 ==> inode[i] == 0)
                   && inode[o + 12..o + 16] == [0xEF, 0xBE, 0xAD, 0xDE]
                   && (|name| <= 63 ==> inode[o + 64] == |name| && inode[o + 65..o + 65 + |name|] == name)
      ensures res == OutOfINodes && !disk.lost ==>
                forall x: nat {:trigger Bit(disk.sectors[82][x / 8], x % 8)} :: x < 4096 ==>
                  Bit(disk.sectors[82][x / 8], x % 8)
    {
      ghost var d0 := disk.sectors;
      var ok, bm := Acquire(INODE_BITMAP_SECTOR, {});
      if !ok {
        return CreateDiskError;
      }
      res := CreateFromBitmap(bm, name);
      if !disk.lost && res.Created? { CreatedOnDisk(d0, disk.sectors, res.id, name); }
      if !disk.lost && res.OutOfINodes? { AllUsedOnDisk(d0); }
    }

    /** create_file with the inode bitmap in a held buffer. */
    method CreateFromBitmap(bm: nat, name: seq<byte>) returns (res: CreateResult)
      requires Wired() && Safe() && Consistent(disk.sectors)
      requires bm < NUM_BUFS && cache.HeldExactly({bm}) && !cache.Dirty(bm)
      requires cache.bufSectors[bm] == INODE_BITMAP_SECTOR
      requires !disk.lost ==> cache.buffer[bm] == disk.sectors[INODE_BITMAP_SECTOR]
      modifies cache, cache.bufSectors, cache.buffer, disk
      ensures Ready() && (old(disk.lost) ==> disk.lost)
      ensures old(disk.history) <= disk.history
      ensures var id := LowestFree(old(disk.sectors), 0);
              !old(disk.lost) ==>
                if id < BITMAP_BITS then
                  AllIn(disk.history, |old(disk.history)|, CreateStates(old(disk.sectors), id, name))
                else disk.history == old(disk.history)
      ensures var id := LowestFree(old(disk.sectors), 0);
              !disk.lost ==>
                match res
                case Created(x) => x == id < BITMAP_BITS && InodeUsed(disk.sectors, id)
                                   && disk.sectors in CreateStates(old(disk.sectors), id, name)
                case OutOfINodes => id == BITMAP_BITS && disk.sectors == old(disk.sectors)
                case CreateDiskError => disk.sectors == old(disk.sectors)
      ensures UsedBits(old(disk.sectors)[INODE_BITMAP_SECTOR]) <= UsedBits(disk.sectors[INODE_BITMAP_SECTOR])
      ensures res.Created? ==> UsedIn(disk.sectors, res.id)
      ensures old(disk.faults) == [] ==> disk.faults == [] && disk.lost == old(disk.lost) && res != CreateDiskError
    {
      ghost var d0 := disk.sectors;
      var found, id := FindClearBit(cache.buffer[bm]);
      if !disk.lost { LowestFreeIs(d0, if found then id else BITMAP_BITS); }
      if !found {
        Release(bm, {bm});
        SoundBoth(disk.sectors, cache.seen);
        return OutOfINodes;
      }
      res := CreateAt(bm, id, name);
    }

    method CreateAt(bm: nat, id: nat, name: seq<byte>) returns (res: CreateResult)
      requires Wired() && Safe() && Consistent(disk.sectors)
      requires bm < NUM_BUFS && cache.HeldExactly({bm}) && !cache.Dirty(bm)
      requires cache.bufSectors[bm] == INODE_BITMAP_SECTOR
      requires id < BITMAP_BITS && !Marked(cache.buffer[bm], id)
      modifies cache, cache.bufSectors, cache.buffer, disk
      ensures Ready() && (old(disk.lost) ==> disk.lost)
      ensures old(disk.history) <= disk.history
      ensures !old(disk.lost) ==> AllIn(disk.history, |old(disk.history)|, CreateStates(old(disk.sectors), id, name))
      ensures !disk.lost ==>
                match res
                case Created(x) => x == id && disk.sectors in CreateStates(old(disk.sectors), id, name)
                case OutOfINodes => false
                case CreateDiskError => disk.sectors == old(disk.sectors)
      ensures UsedBits(old(disk.sectors)[INODE_BITMAP_SECTOR]) <= UsedBits(disk.sectors[INODE_BITMAP_SECTOR])
      ensures res.Created? ==> UsedIn(disk.sectors, res.id)
      ensures old(disk.faults) == [] ==> disk.faults == [] && disk.lost == old(disk.lost) && res.Created?
    {
      ghost var d0 := disk.sectors;
      var ok, ib := Acquire(InodeSector(id), {bm});
      if !ok {
        Release(bm, {bm});
        return CreateDiskError;
      }
      var sec := InitInode(cache.buffer[ib], InodeOffset(id), name);
      assert cache.BufOk(bm);
      InitSound(d0, cache.seen, id, sec);
      StoreHeld(ib, sec, {bm, ib});
      ok := FlushHeld(ib, {bm, ib});
      if !ok {
        Release(ib, {bm, ib});
        Release(bm, {bm});
        return CreateDiskError;
      }
      if !disk.lost { InitState(d0, id, sec, name); }
      res := SetInodeBit(bm, ib, id, name, d0);
    }

    /** The rest of create_file: only once the inode is on the disk, its bit. */
    method SetInodeBit(bm: nat, ib: nat, id: nat, ghost name: seq<byte>, ghost d0: Image) returns (res: CreateResult)
      requires Wired() && Safe() && Consistent(d0) && Formatted(disk.sectors)
      requires bm < NUM_BUFS && ib < NUM_BUFS && bm != ib && cache.HeldExactly({bm, ib})
      requires !cache.Dirty(bm) && !cache.Dirty(ib)
      requires cache.bufSectors[bm] == INODE_BITMAP_SECTOR && cache.bufSectors[ib] == InodeSector(id)
      requires id < BITMAP_BITS && !Marked(cache.buffer[bm], id)
      requires cache.buffer[ib] == disk.sectors[InodeSector(id)] && NewInode(cache.buffer[ib], InodeOffset(id), name)
      requires disk.sectors[INODE_BITMAP_SECTOR] == d0[INODE_BITMAP_SECTOR]
      requires !disk.lost ==> Consistent(disk.sectors) && OthersSame(d0, disk.sectors, id)
      modifies cache, cache.bufSectors, cache.buffer, disk
      ensures Ready() && (old(disk.lost) ==> disk.lost)
      ensures old(disk.history) <= disk.history
      ensures !old(disk.lost) ==> AllIn(disk.history, |old(disk.history)|, CreateStates(d0, id, name))
      ensures !disk.lost ==> res == Created(id) && disk.sectors in CreateStates(d0, id, name)
      ensures UsedBits(d0[INODE_BITMAP_SECTOR]) <= UsedBits(disk.sectors[INODE_BITMAP_SECTOR])
      ensures res.Created? ==> res.id == id && UsedIn(disk.sectors, id)
      ensures old(disk.faults) == [] ==> disk.faults == [] && disk.lost == old(disk.lost) && res.Created?
    {
      ghost var d1 := disk.sectors;
      assert cache.BufOk(bm);
      assert cache.BufOk(ib);
      UseSound(d1, cache.seen, id);
      BitsGrow(d1, cache.seen, id);
      if !disk.lost {
        assert cache.BufOk(bm);
        UseState(d0, d1, id, name);
      }
      StoreHeld(bm, MarkOne(cache.buffer[bm], id), {bm, ib});
      var ok := FlushHeld(bm, {bm, ib});
      Release(ib, {bm, ib});
      Release(bm, {bm});
      SoundBoth(disk.sectors, cache.seen);
      return if ok then Created(id) else CreateDiskError;
    }

    /** The inode bitmap that create_file writes has the bits of the disk and one more. */
    static lemma BitsGrow(d: Image, v: Image, id: nat)
      requires Sound(d, v) && id < BITMAP_BITS
      ensures var bits := MarkOne(v[INODE_BITMAP_SECTOR], id);
              UsedBits(d[INODE_BITMAP_SECTOR]) <= UsedBits(bits) && Marked(bits, id)
    {
      forall t: nat | t < BITMAP_BITS
        ensures Marked(MarkOne(v[INODE_BITMAP_SECTOR], id), t) <==> t == id || Marked(v[INODE_BITMAP_SECTOR], t)
      {
        MarkOneMarks(v[INODE_BITMAP_SECTOR], id, t);
      }
    }

    // -------------------------------------------------------------- allocating

    /** allocate_sectors: a run that was wholly free, with exactly its bits set on the disk: bit `s - 2132` of
        sector 74 for sector `s`. */
    method AllocateSectors(sectors: nat, ghost held: set<nat>) returns (ok: bool, first: nat)
      requires Wired() && Safe() && cache.HeldExactly(held) && Formatted(disk.sectors)
      modifies disk, cache`seen
      ensures Wired() && Safe()
      ensures ok ==> first >= BLOCK_START_SECTOR
                     && RunFree(old(disk.sectors)[BLOCK_GROUP_SECTOR], first - BLOCK_START_SECTOR, sectors)
                     && disk.sectors == old(disk.sectors)[BLOCK_GROUP_SECTOR :=
                          MarkRun(old(disk.sectors)[BLOCK_GROUP_SECTOR], first - BLOCK_START_SECTOR, sectors)]
                     && disk.history == old(disk.history) + [disk.sectors] && disk.lost == old(disk.lost)
                     && cache.seen == old(cache.seen)[BLOCK_GROUP_SECTOR := disk.sectors[BLOCK_GROUP_SECTOR]]
      ensures ok ==>
                var before, after := old(disk.sectors), disk.sectors;
                && 2132 <= first && first + sectors <= 2132 + 4096 && |after| == |before|
                && (forall t: nat {:trigger Bit(before[74][t / 8], t % 8)} ::
                      first - 2132 <= t < first - 2132 + sectors ==> !Bit(before[74][t / 8], t % 8))
                && (forall t: nat {:trigger Bit(after[74][t / 8], t % 8)} :: t < 4096 ==>
                      (Bit(after[74][t / 8], t % 8) <==>
                         first - 2132 <= t < first - 2132 + sectors || Bit(before[74][t / 8], t % 8)))
                && forall s :: 0 <= s < |after| && s != 74 ==> after[s] == before[s]
      ensures !ok ==> disk.sectors == old(disk.sectors) && disk.history == old(disk.history)
      ensures old(disk.faults) == [] && !ok && sectors <= 8 ==> Crowded(old(disk.sectors)[BLOCK_GROUP_SECTOR])
      ensures old(disk.faults) == [] && sectors == 2 ==>
                (ok <==> FirstHit(old(disk.sectors)[BLOCK_GROUP_SECTOR], 0) < 512)
      ensures ok && sectors == 2 ==>
                var bitmap := old(disk.sectors)[BLOCK_GROUP_SECTOR];
                FirstHit(bitmap, 0) < 512 && first == BLOCK_START_SECTOR + HitPlace(bitmap, FirstHit(bitmap, 0))
      ensures old(disk.lost) ==> disk.lost
      ensures old(disk.faults) == [] ==> disk.faults == [] && disk.lost == old(disk.lost)
    {
      first := 0;
      var bitmap;
      ok, bitmap := disk.Read(BLOCK_GROUP_SECTOR);
      StillWired();
      if !ok {
        return false, 0;
      }
      var pos, bit;
      ok, pos, bit := FindRun(bitmap, sectors);
      if !ok {
        return false, 0;
      }
      // Repaired: the file marks from bit 0 of byte `pos`.
      ok := PutBitmap(bitmap, 8 * pos + bit, sectors);
      first := pos * 8 + bit + BLOCK_START_SECTOR;
    }

    /** The allocation in the numbers of the layout. */
    static lemma AllocatedOnDisk(before: Image, after: Image, first: nat, n: nat)
      requires Formatted(before) && first >= BLOCK_START_SECTOR
      requires RunFree(before[BLOCK_GROUP_SECTOR], first - BLOCK_START_SECTOR, n)
      requires after == before[BLOCK_GROUP_SECTOR := MarkRun(before[BLOCK_GROUP_SECTOR], first - BLOCK_START_SECTOR, n)]
      ensures 2132 <= first && first + n <= 2132 + 4096 && |after| == |before|
      ensures forall t: nat {:trigger Bit(before[74][t / 8], t % 8)} ::
                first - 2132 <= t < first - 2132 + n ==> !Bit(before[74][t / 8], t % 8)
      ensures forall t: nat {:trigger Bit(after[74][t / 8], t % 8)} :: t < 4096 ==>
                (Bit(after[74][t / 8], t % 8) <==>
                   first - 2132 <= t < first - 2132 + n || Bit(before[74][t / 8], t % 8))
    {
      forall t: nat | t < 4096
        ensures first - 2132 <= t < first - 2132 + n ==> !Bit(before[74][t / 8], t % 8)
        ensures Bit(after[74][t / 8], t % 8) <==>
                  first - 2132 <= t < first - 2132 + n || Bit(before[74][t / 8], t % 8)
      {
        MarkRunMarks(before[74], first - 2132, n, t);
        assert Marked(before[74], t) <==> Bit(before[74][t / 8], t % 8);
      }
    }

    /** The marking of the run from `s` and the write of the bitmap. */
    method PutBitmap(bitmap: Sector, s: nat, n: nat) returns (ok: bool)
      requires Wired() && Safe() && Formatted(disk.sectors) && RunFree(bitmap, s, n)
      requires bitmap == disk.sectors[BLOCK_GROUP_SECTOR]
      modifies disk, cache`seen
      ensures Wired() && Safe()
      ensures ok ==> disk.sectors == old(disk.sectors)[BLOCK_GROUP_SECTOR := MarkRun(bitmap, s, n)]
                     && disk.history == old(disk.history) + [disk.sectors] && disk.lost == old(disk.lost)
                     && cache.seen == old(cache.seen)[BLOCK_GROUP_SECTOR := disk.sectors[BLOCK_GROUP_SECTOR]]
      ensures ok ==>
                var before, after := old(disk.sectors), disk.sectors;
                && s + n <= 4096 && |after| == |before|
                && (forall t: nat {:trigger Bit(before[74][t / 8], t % 8)} ::
                      s <= t < s + n ==> !Bit(before[74][t / 8], t % 8))
                && (forall t: nat {:trigger Bit(after[74][t / 8], t % 8)} :: t < 4096 ==>
                      (Bit(after[74][t / 8], t % 8) <==> s <= t < s + n || Bit(before[74][t / 8], t % 8)))
      ensures !ok ==> disk.sectors == old(disk.sectors) && disk.history == old(disk.history)
      ensures old(disk.lost) ==> disk.lost
      ensures old(disk.faults) == [] ==> ok && disk.faults == []
    {
      var bitmap' := MarkSectors(bitmap, s, n);
      MarkRunSound(disk.sectors, cache.seen, s, n);
      ok := disk.Write(BLOCK_GROUP_SECTOR, bitmap');
      if ok {
        cache.seen := cache.seen[BLOCK_GROUP_SECTOR := bitmap'];
        AllocatedOnDisk(old(disk.sectors), disk.sectors, s + 2132, n);
      }
      StillWired();
    }

    static lemma MarkRunSound(d: Image, v: Image, s: nat, n: nat)
      requires Sound(d, v) && s + n <= BITMAP_BITS
      ensures var bitmap := MarkRun(d[BLOCK_GROUP_SECTOR], s, n);
              Sound(d[BLOCK_GROUP_SECTOR := bitmap], v[BLOCK_GROUP_SECTOR := bitmap])
    {
      forall t: nat | t < BITMAP_BITS
        ensures Marked(MarkRun(d[BLOCK_GROUP_SECTOR], s, n), t) <==> s <= t < s + n || Marked(d[BLOCK_GROUP_SECTOR], t)
      {
        MarkRunMarks(d[BLOCK_GROUP_SECTOR], s, n, t);
      }
      MarkSound(d, v, MarkRun(d[BLOCK_GROUP_SECTOR], s, n));
    }

    /** Writes to the block bitmap go past the cache without making it stale. */
    twostate lemma StillWired()
      requires old(Wired()) && unchanged(cache.bufSectors) && unchanged(cache.buffer)
      requires cache.freeMask == old(cache.freeMask) && cache.dirtyMask == old(cache.dirtyMask)
      requires |disk.sectors| == |old(disk.sectors)| && BLOCK_GROUP_SECTOR < |disk.sectors|
      requires old(disk.lost) ==> disk.lost
      requires disk.sectors == old(disk.sectors)[BLOCK_GROUP_SECTOR := disk.sectors[BLOCK_GROUP_SECTOR]]
      requires cache.seen == old(cache.seen)[BLOCK_GROUP_SECTOR := disk.sectors[BLOCK_GROUP_SECTOR]]
      ensures Wired()
    {
      forall b: nat | b < NUM_BUFS ensures cache.BufOk(b) {
        assert old(cache.BufOk(b));
      }
      forall s: nat | s < |cache.seen| ensures cache.SeenOk(s) {
        assert old(cache.SeenOk(s));
      }
    }

    // -------------------------------------------------------------- writing

    /** A block pointer names two sectors of the block area. */
    static predicate InBlocks(ptr: nat) {
      BLOCK_START_SECTOR <= ptr && ptr + 1 < BLOCK_START_SECTOR + BITMAP_BITS
    }

    /** The pointer that readers see in a file's slot is null or names a block. */
    static lemma SeenPointer(d: Image, v: Image, id: nat, w: nat)
      requires Sound(d, v) && UsedIn(d, id) && w < NUM_DIRECT
      ensures UsedIn(v, id) && (Pointer(v, id, w) != 0 ==> InBlocks(Pointer(v, id, w)))
    {
      UsedInMix(d, v, {}, id);
      SoundBoth(d, v);
      assert PointerOk(v, id, w);
    }

    /** write_to_file: at most the rest of one sector. While it runs the disk only ever holds the old
        file, the old file with the new bytes up to its old size, or the new file. In the numbers of the
        layout: the word of the position's 512 bytes names a block afterwards, the same as before if it named
        one, the bytes are in that block's first or second sector, and the first word of the inode is the
        size, raised if need be. */
    method WriteToFile(buf: seq<byte>, id: nat, position: nat) returns (res: WriteResult)
      requires Ready() && UsedIn(disk.sectors, id)
      modifies cache, cache.bufSectors, cache.buffer, disk
      ensures Ready() && UsedIn(disk.sectors, id) && (old(disk.lost) ==> disk.lost)
      ensures old(disk.history) <= disk.history
      ensures var data := buf[..Min(|buf|, 512 - position % 512)];
              && (!old(disk.lost) ==>
                    AllIn(disk.history, |old(disk.history)|, CrashStates(old(disk.sectors), id, position, data)))
              && (!disk.lost ==> disk.sectors in Outcomes(old(disk.sectors), id, position, data, res.Wrote?))
              && (res.Wrote? ==> res.count == |data| && position / 512 < NUM_DIRECT)
      ensures !disk.lost && res.Wrote? ==>
                res.count == (if |buf| < 512 - position % 512 then |buf| else 512 - position % 512)
      ensures !disk.lost && res.Wrote? ==>
                var before, after := old(disk.sectors), disk.sectors;
                var o, w := 128 * (id % 4), 128 * (id % 4) + 16 + 4 * (position / 512);
                |after| == |before| && w + 4 <= 512 &&
                var b, a := before[84 + id / 4], after[84 + id / 4];
                var size0 := (b[o] as int) + 0x100 * (b[o + 1] as int) + 0x1_0000 * (b[o + 2] as int)
                             + 0x100_0000 * (b[o + 3] as int);
                var size := (a[o] as int) + 0x100 * (a[o + 1] as int) + 0x1_0000 * (a[o + 2] as int)
                            + 0x100_0000 * (a[o + 3] as int);
                var q0 := (b[w] as int) + 0x100 * (b[w + 1] as int) + 0x1_0000 * (b[w + 2] as int)
                          + 0x100_0000 * (b[w + 3] as int);
                var q := (a[w] as int) + 0x100 * (a[w + 1] as int) + 0x1_0000 * (a[w + 2] as int)
                         + 0x100_0000 * (a[w + 3] as int);
                && size == (if size0 < position + res.count then position + res.count else size0)
                && q != 0 && (q0 != 0 ==> q == q0) && q + position / 512 % 2 < |after|
                && res.count <= |buf| && position % 512 + res.count <= 512
                && var s := before[q + position / 512 % 2];
                   after[q + position / 512 % 2] ==
                     s[..position % 512] + buf[..res.count] + s[position % 512 + res.count..]
      ensures disk.sectors[INODE_BITMAP_SECTOR] == old(disk.sectors)[INODE_BITMAP_SECTOR]
      ensures old(disk.faults) == [] ==>
                && disk.faults == [] && disk.lost == old(disk.lost)
                && (res == WriteDeviceError <==> position / 512 >= NUM_DIRECT)
      ensures old(disk.faults) == [] && res == BufferTooSmall ==> NoBlockFound(old(disk.sectors))
    {
      ghost var d0 := disk.sectors;
      KeepsItself(d0, id);
      var ok, ib := Acquire(InodeSector(id), {});
      if !ok {
        return WriteDeviceError;
      }
      cache.MarkDirty(ib);
      res := WriteSlot(buf, id, position, ib);
      if !disk.lost && res.Wrote? {
        WrittenOnDisk(d0, disk.sectors, id, position, buf[..Min(|buf|, 512 - position % 512)]);
      }
    }

    /** write_to_file with the inode in a held buffer. */
    method WriteSlot(buf: seq<byte>, id: nat, position: nat, ib: nat) returns (res: WriteResult)
      requires Wired() && Safe() && ib < NUM_BUFS && cache.HeldExactly({ib}) && cache.Dirty(ib)
      requires Consistent(disk.sectors) && UsedIn(disk.sectors, id) && cache.bufSectors[ib] == InodeSector(id)
      requires !disk.lost ==> cache.buffer[ib] == disk.sectors[InodeSector(id)]
      requires cache.seen[InodeSector(id)] == cache.buffer[ib]
      modifies cache, cache.bufSectors, cache.buffer, disk
      ensures Ready() && UsedIn(disk.sectors, id) && (old(disk.lost) ==> disk.lost)
      ensures old(disk.history) <= disk.history
      ensures var data := buf[..Min(|buf|, 512 - position % 512)];
              && (!old(disk.lost) ==>
                    AllIn(disk.history, |old(disk.history)|, CrashStates(old(disk.sectors), id, position, data)))
              && (!disk.lost ==> disk.sectors in Outcomes(old(disk.sectors), id, position, data, res.Wrote?))
              && (res.Wrote? ==> res.count == |data| && position / 512 < NUM_DIRECT)
      ensures disk.sectors[INODE_BITMAP_SECTOR] == old(disk.sectors)[INODE_BITMAP_SECTOR]
      ensures old(disk.faults) == [] ==>
                && disk.faults == [] && disk.lost == old(disk.lost)
                && (res == WriteDeviceError <==> position / 512 >= NUM_DIRECT)
      ensures old(disk.faults) == [] && res == BufferTooSmall ==> NoBlockFound(old(disk.sectors))
    {
      ghost var d0 := disk.sectors;
      KeepsItself(d0, id);
      var w := position / 512;
      // Repaired: the file lets block 9 through.
      if w >= NUM_DIRECT {
        if !disk.lost { assert WithInode(d0, id, cache.buffer[ib]) == d0; }
        Release(ib, {ib});
        SoundBoth(disk.sectors, cache.seen);
        return WriteDeviceError;
      }
      var ptr := U32At(cache.buffer[ib], PointerOffset(id, w));
      SeenPointer(d0, cache.seen, id, w);
      if ptr != 0 {
        res := WriteBlock(buf, id, position, ib, ptr, false, d0);
      } else {
        res := WriteNewBlock(buf, id, position, ib);
      }
    }

    /** write_to_file when the slot has no block yet. */
    method WriteNewBlock(buf: seq<byte>, id: nat, position: nat, ib: nat) returns (res: WriteResult)
      requires Wired() && Safe() && ib < NUM_BUFS && cache.HeldExactly({ib}) && cache.Dirty(ib)
      requires Consistent(disk.sectors) && UsedIn(disk.sectors, id) && position / 512 < NUM_DIRECT
      requires cache.bufSectors[ib] == InodeSector(id)
      requires U32At(cache.buffer[ib], PointerOffset(id, position / 512)) == 0
      requires !disk.lost ==> cache.buffer[ib] == disk.sectors[InodeSector(id)]
      modifies cache, cache.bufSectors, cache.buffer, disk
      ensures Ready() && UsedIn(disk.sectors, id) && (old(disk.lost) ==> disk.lost)
      ensures old(disk.history) <= disk.history
      ensures var data := buf[..Min(|buf|, 512 - position % 512)];
              && (!old(disk.lost) ==>
                    AllIn(disk.history, |old(disk.history)|, CrashStates(old(disk.sectors), id, position, data)))
              && (!disk.lost ==> disk.sectors in Outcomes(old(disk.sectors), id, position, data, res.Wrote?))
              && (res.Wrote? ==> res.count == |data|)
      ensures disk.sectors[INODE_BITMAP_SECTOR] == old(disk.sectors)[INODE_BITMAP_SECTOR]
      ensures old(disk.faults) == [] ==> disk.faults == [] && disk.lost == old(disk.lost) && res != WriteDeviceError
      ensures old(disk.faults) == [] && res == BufferTooSmall ==> NoBlockFound(old(disk.sectors))
    {
      ghost var d0 := disk.sectors;
      ghost var data := buf[..Min(|buf|, 512 - position % 512)];
      KeepsItself(d0, id);
      var ok, ptr := AttachBlock(id, position / 512, ib);
      if !ok {
        if !old(disk.lost) { assert WithInode(d0, id, cache.buffer[ib]) == d0; }
        Release(ib, {ib});
        SoundBoth(disk.sectors, cache.seen);
        return BufferTooSmall;
      }
      if !disk.lost { PreparedState(d0, disk.sectors, cache.buffer[ib], id, position, ptr, true, data); }
      res := WriteBlock(buf, id, position, ib, ptr, true, d0);
    }

    /** A fresh block, marked on the disk, for a slot of the inode in the held buffer. */
    method AttachBlock(id: nat, w: nat, ib: nat) returns (ok: bool, ptr: nat)
      requires Wired() && Safe() && ib < NUM_BUFS && cache.HeldExactly({ib}) && cache.Dirty(ib)
      requires Consistent(disk.sectors) && UsedIn(disk.sectors, id) && w < NUM_DIRECT
      requires cache.bufSectors[ib] == InodeSector(id) && U32At(cache.buffer[ib], PointerOffset(id, w)) == 0
      requires !disk.lost ==> cache.buffer[ib] == disk.sectors[InodeSector(id)]
      modifies cache`dirtyMask, cache`seen, cache.buffer, disk
      ensures Wired() && Safe() && cache.HeldExactly({ib}) && cache.Dirty(ib) && (old(disk.lost) ==> disk.lost)
      ensures ok ==> InBlocks(ptr) && disk.lost == old(disk.lost) && |disk.sectors| == |old(disk.sectors)|
                     && disk.sectors[INODE_BITMAP_SECTOR] == old(disk.sectors)[INODE_BITMAP_SECTOR]
                     && disk.history == old(disk.history) + [disk.sectors]
      ensures ok && !disk.lost ==> Prepared(old(disk.sectors), disk.sectors, cache.buffer[ib], id, w, ptr, true)
      ensures !ok ==> disk.sectors == old(disk.sectors) && disk.history == old(disk.history)
                      && cache.buffer[ib] == old(cache.buffer[ib])
      ensures old(disk.faults) == [] ==> disk.faults == [] && disk.lost == old(disk.lost)
      ensures old(disk.faults) == [] && !ok ==> NoBlockFound(old(disk.sectors))
    {
      ghost var d0, v0 := disk.sectors, cache.seen;
      assert cache.BufOk(ib);
      ok, ptr := AllocateSectors(2, {ib});
      if ok {
        assert cache.BufOk(ib);
        AttachedSound(d0, v0, disk.sectors, cache.seen, id, w, ptr);
        StoreHeld(ib, PutU32(cache.buffer[ib], PointerOffset(id, w), ptr), {ib});
        if !disk.lost { AttachedPrepared(d0, disk.sectors, cache.buffer[ib], id, w, ptr); }
      }
    }

    static lemma AttachedSound(d0: Image, v0: Image, d: Image, v: Image, id: nat, w: nat, ptr: nat)
      requires Sound(d0, v0) && UsedIn(d0, id) && w < NUM_DIRECT && Pointer(v0, id, w) == 0
      requires ptr >= BLOCK_START_SECTOR && RunFree(d0[BLOCK_GROUP_SECTOR], ptr - BLOCK_START_SECTOR, 2)
      requires d == d0[BLOCK_GROUP_SECTOR := MarkRun(d0[BLOCK_GROUP_SECTOR], ptr - BLOCK_START_SECTOR, 2)]
      requires v == v0[BLOCK_GROUP_SECTOR := d[BLOCK_GROUP_SECTOR]]
      ensures InBlocks(ptr)
      ensures Sound(d, v[InodeSector(id) := PutU32(v[InodeSector(id)], PointerOffset(id, w), ptr)])
    {
      AttachSound(d0, v0, id, w, ptr - BLOCK_START_SECTOR);
    }

    static lemma AttachedPrepared(d0: Image, d: Image, sec: Sector, id: nat, w: nat, ptr: nat)
      requires Consistent(d0) && UsedIn(d0, id) && w < NUM_DIRECT && Pointer(d0, id, w) == 0
      requires ptr >= BLOCK_START_SECTOR && RunFree(d0[BLOCK_GROUP_SECTOR], ptr - BLOCK_START_SECTOR, 2)
      requires d == d0[BLOCK_GROUP_SECTOR := MarkRun(d0[BLOCK_GROUP_SECTOR], ptr - BLOCK_START_SECTOR, 2)]
      requires ptr < WORD && sec == PutU32(d0[InodeSector(id)], PointerOffset(id, w), ptr)
      ensures Prepared(d0, d, sec, id, w, ptr, true)
    {
      AllocationPrepares(d0, id, w, ptr - BLOCK_START_SECTOR);
      assert ptr - BLOCK_START_SECTOR + BLOCK_START_SECTOR == ptr && d[InodeSector(id)] == d0[InodeSector(id)];
    }

    /** write_to_file from the block's sector on. */
    method WriteBlock(buf: seq<byte>, id: nat, position: nat, ib: nat, ptr: nat, flushInode: bool, ghost d0: Image)
      returns (res: WriteResult)
      requires Wired() && Safe() && ib < NUM_BUFS && cache.HeldExactly({ib}) && cache.Dirty(ib)
      requires position / 512 < NUM_DIRECT && UsedIn(disk.sectors, id) && cache.bufSectors[ib] == InodeSector(id)
      requires InBlocks(ptr) && Consistent(d0) && UsedIn(d0, id)
      requires disk.sectors[INODE_BITMAP_SECTOR] == d0[INODE_BITMAP_SECTOR]
      requires !disk.lost ==> Prepared(d0, disk.sectors, cache.buffer[ib], id, position / 512, ptr, flushInode)
      modifies cache, cache.bufSectors, cache.buffer, disk
      ensures Ready() && UsedIn(disk.sectors, id) && (old(disk.lost) ==> disk.lost)
      ensures old(disk.history) <= disk.history
      ensures var data := buf[..Min(|buf|, 512 - position % 512)];
              && (!old(disk.lost) ==> AllIn(disk.history, |old(disk.history)|, CrashStates(d0, id, position, data)))
              && (!disk.lost ==> disk.sectors in Outcomes(d0, id, position, data, res.Wrote?))
              && (res.Wrote? ==> res.count == |data|)
      ensures res != BufferTooSmall
      ensures disk.sectors[INODE_BITMAP_SECTOR] == d0[INODE_BITMAP_SECTOR]
      ensures old(disk.faults) == [] ==> disk.faults == [] && disk.lost == old(disk.lost) && res.Wrote?
    {
      ghost var d := disk.sectors;
      var n := Min(|buf|, 512 - position % 512);
      if !disk.lost { InodeState(d0, d, cache.buffer[ib], id, position, ptr, flushInode, buf[..n]); }
      var sector := ptr + (position % 1024) / 512;
      var ok, db := Acquire(sector, {ib});
      if !ok {
        Release(ib, {ib});
        SoundBoth(disk.sectors, cache.seen);
        return WriteDeviceError;
      }
      res := WriteHeld(id, position, ib, db, ptr, flushInode, buf[..n], d0);
    }

    /** write_to_file with the block's sector in a held buffer. */
    method WriteHeld(id: nat, position: nat, ib: nat, db: nat, ptr: nat, flushInode: bool, data: seq<byte>,
                     ghost d0: Image)
      returns (res: WriteResult)
      requires Wired() && Safe() && ib < NUM_BUFS && db < NUM_BUFS && ib != db && cache.HeldExactly({ib, db})
      requires cache.Dirty(ib) && !cache.Dirty(db) && position % 512 + |data| <= 512
      requires position / 512 < NUM_DIRECT && UsedIn(disk.sectors, id) && cache.bufSectors[ib] == InodeSector(id)
      requires InBlocks(ptr) && cache.bufSectors[db] == DataPlace(position, ptr) < |disk.sectors|
      requires Consistent(d0) && UsedIn(d0, id) && disk.sectors[INODE_BITMAP_SECTOR] == d0[INODE_BITMAP_SECTOR]
      requires !disk.lost ==>
                 && Prepared(d0, disk.sectors, cache.buffer[ib], id, position / 512, ptr, flushInode)
                 && cache.buffer[db] == disk.sectors[DataPlace(position, ptr)]
      modifies cache, disk, cache.buffer
      ensures Ready() && UsedIn(disk.sectors, id) && (old(disk.lost) ==> disk.lost)
      ensures old(disk.history) <= disk.history
      ensures !old(disk.lost) ==> AllIn(disk.history, |old(disk.history)|, CrashStates(d0, id, position, data))
      ensures !disk.lost ==> disk.sectors in Outcomes(d0, id, position, data, res.Wrote?)
      ensures res.Wrote? ==> res.count == |data|
      ensures res != BufferTooSmall
      ensures disk.sectors[INODE_BITMAP_SECTOR] == d0[INODE_BITMAP_SECTOR]
      ensures old(disk.faults) == [] ==> disk.faults == [] && disk.lost == old(disk.lost) && res.Wrote?
    {
      ghost var d := disk.sectors;
      if !disk.lost {
        InodeState(d0, d, cache.buffer[ib], id, position, ptr, flushInode, data);
        DataState(d0, d, cache.buffer[ib], id, position, ptr, flushInode, data);
      }
      CopyIn(db, position % 512, data, {ib, db});
      var ok := FlushHeld(db, {ib, db});
      if !ok {
        ReleaseBoth(db, ib);
        return WriteDeviceError;
      }
      assert disk.lost || disk.sectors == Written(d, position, ptr, data);
      res := FinishWrite(id, position, |data|, ib, db, flushInode, d0, d, ptr, data);
    }

    /** The bytes of `data` into a held buffer, from `off` on. */
    method CopyIn(db: nat, off: nat, data: seq<byte>, ghost held: set<nat>)
      requires Wired() && Safe() && cache.HeldExactly(held) && db in held && db < NUM_BUFS && off + |data| <= 512
      requires BLOCK_START_SECTOR <= cache.bufSectors[db] < |disk.sectors|
      modifies cache`dirtyMask, cache`seen, cache.buffer
      ensures Wired() && Safe() && cache.HeldExactly(held)
      ensures cache.buffer[..] == old(cache.buffer[..])[db := SectorOverlay(old(cache.buffer[db]), off, data)]
      ensures forall i: nat :: i != db ==> (cache.Dirty(i) <==> old(cache.Dirty(i)))
    {
      ghost var before := cache.buffer[db];
      assert SectorOverlay(before, off, data[..0]) == before;
      var i := 0;
      while i < |data|
        invariant 0 <= i <= |data|
        invariant Wired() && Safe() && cache.HeldExactly(held)
        invariant cache.buffer[..] == old(cache.buffer[..])[db := SectorOverlay(before, off, data[..i])]
        invariant forall q: nat :: q != db ==> (cache.Dirty(q) <==> old(cache.Dirty(q)))
      {
        DataSound(disk.sectors, cache.seen, cache.bufSectors[db], cache.buffer[db][off + i := data[i]]);
        StoreHeld(db, cache.buffer[db][off + i := data[i]], held);
        assert SectorOverlay(before, off, data[..i])[off + i := data[i]] == SectorOverlay(before, off, data[..i + 1]);
        i := i + 1;
      }
      assert data[..i] == data;
    }

    /** The size of the inode in a held buffer is raised to `end`, if it is smaller. */
    method StoreSize(ib: nat, id: nat, end: nat, ghost held: set<nat>) returns (grown: bool)
      requires Wired() && Safe() && ib < NUM_BUFS && ib in held && cache.HeldExactly(held) && cache.Dirty(ib)
      requires UsedIn(disk.sectors, id) && cache.bufSectors[ib] == InodeSector(id) && end <= MAX_SIZE
      modifies cache`dirtyMask, cache`seen, cache.buffer
      ensures Wired() && Safe() && cache.HeldExactly(held) && cache.Dirty(ib)
      ensures forall i: nat :: i != ib ==> (cache.Dirty(i) <==> old(cache.Dirty(i)))
      ensures cache.buffer[ib] == SizedSector(old(cache.buffer[ib]), id, end)
      ensures grown <==> U32At(old(cache.buffer[ib]), InodeOffset(id)) < end
    {
      grown := U32At(cache.buffer[ib], InodeOffset(id)) < end;
      if grown {
        assert cache.BufOk(ib);
        SizeSound(disk.sectors, cache.seen, id, end);
        StoreHeld(ib, PutU32(cache.buffer[ib], InodeOffset(id), end), held);
      }
    }

    /** write_to_file after the data sector is on the disk: the size, the inode, the two releases. */
    method FinishWrite(id: nat, position: nat, n: nat, ib: nat, db: nat, flushInode: bool,
                       ghost d0: Image, ghost d: Image, ghost ptr: nat, ghost data: seq<byte>)
      returns (res: WriteResult)
      requires Wired() && Safe() && ib < NUM_BUFS && db < NUM_BUFS && ib != db && cache.HeldExactly({ib, db})
      requires cache.Dirty(ib) && !cache.Dirty(db)
      requires position / 512 < NUM_DIRECT && UsedIn(disk.sectors, id) && cache.bufSectors[ib] == InodeSector(id)
      requires n == |data| && position % 512 + n <= 512
      requires Consistent(d0) && UsedIn(d0, id) && disk.sectors[INODE_BITMAP_SECTOR] == d0[INODE_BITMAP_SECTOR]
      requires !disk.lost ==>
                 && Prepared(d0, d, cache.buffer[ib], id, position / 512, ptr, flushInode)
                 && DataPlace(position, ptr) < |d| && disk.sectors == Written(d, position, ptr, data)
      modifies cache, disk, cache.buffer
      ensures Ready() && UsedIn(disk.sectors, id) && (old(disk.lost) ==> disk.lost)
      ensures old(disk.history) <= disk.history
      ensures !old(disk.lost) ==> AllIn(disk.history, |old(disk.history)|, CrashStates(d0, id, position, data))
      ensures !disk.lost ==> res == Wrote(n) && disk.sectors in Outcomes(d0, id, position, data, true)
      ensures res.Wrote? ==> res.count == n
      ensures res != BufferTooSmall
      ensures disk.sectors[INODE_BITMAP_SECTOR] == d0[INODE_BITMAP_SECTOR]
      ensures old(disk.faults) == [] ==> disk.faults == [] && disk.lost == old(disk.lost) && res.Wrote?
    {
      if !disk.lost { FinalState(d0, d, cache.buffer[ib], id, position, ptr, flushInode, data); }
      var grown := StoreSize(ib, id, position + n, {ib, db});
      var ok := true;
      if flushInode || grown {
        ok := FlushHeld(ib, {ib, db});
      }
      ReleaseBoth(db, ib);
      return if ok then Wrote(n) else WriteDeviceError;
    }

    // -------------------------------------------------------------- reading

    /** read_from_file: at most the rest of one sector or of the file. The disk is not written. In the numbers
        of the layout: the size is the first word of the inode, the word for the position's 512 bytes names a
        block, and the bytes are those of the block's first or second sector. */
    method ReadFromFile(buffer: array<byte>, id: nat, position: nat) returns (res: ReadResult)
      requires Ready() && UsedIn(disk.sectors, id)
      modifies cache, cache.bufSectors, cache.buffer, disk, buffer
      ensures Ready() && disk.sectors == old(disk.sectors) && disk.history == old(disk.history)
      ensures disk.lost == old(disk.lost)
      ensures !disk.lost ==>
                match res
                case Read(n) =>
                  && position < FileSize(disk.sectors, id) <= MAX_SIZE
                  && n == BytesToRead(FileSize(disk.sectors, id), position, buffer.Length)
                  && Pointer(disk.sectors, id, position / 512) != 0
                  && n <= buffer.Length && BytesAt(disk.sectors, id, position, buffer[..n])
                case EndOfFile => position >= FileSize(disk.sectors, id)
                case BadPosition => position < FileSize(disk.sectors, id) && position / 512 < NUM_DIRECT
                                    && Pointer(disk.sectors, id, position / 512) == 0
                case ReadDiskError => true
      ensures !disk.lost && (res.Read? || res.BadPosition? || res.EndOfFile?) ==>
                var inode, o := disk.sectors[84 + id / 4], 128 * (id % 4);
                var size := (inode[o] as int) + 0x100 * (inode[o + 1] as int) + 0x1_0000 * (inode[o + 2] as int)
                            + 0x100_0000 * (inode[o + 3] as int);
                (res.EndOfFile? <==> position >= size) &&
                (!res.EndOfFile? ==>
                   var w := o + 16 + 4 * (position / 512);
                   w + 4 <= 512 &&
                   var q := (inode[w] as int) + 0x100 * (inode[w + 1] as int) + 0x1_0000 * (inode[w + 2] as int)
                            + 0x100_0000 * (inode[w + 3] as int);
                   (res.BadPosition? <==> q == 0) &&
                   (res.Read? ==>
                      && position + res.count <= size && position % 512 + res.count <= 512 && res.count <= buffer.Length
                      && (position + res.count == size || position % 512 + res.count == 512
                          || res.count == buffer.Length)
                      && q + position / 512 % 2 < |disk.sectors|
                      && forall i :: 0 <= i < res.count ==>
                           buffer[i] == disk.sectors[q + position / 512 % 2][position % 512 + i]))
      ensures res.Read? ==> res.count <= buffer.Length && buffer[res.count..] == old(buffer[res.count..])
      ensures !res.Read? ==> buffer[..] == old(buffer[..])
      ensures old(disk.faults) == [] ==> disk.faults == [] && res != ReadDiskError
    {
      var ok, ib := Acquire(InodeSector(id), {});
      if !ok {
        return ReadDiskError;
      }
      ghost var v := cache.seen;
      UsedInMix(disk.sectors, v, {}, id);
      SoundBoth(disk.sectors, v);
      assert SizeOk(v, id);
      var size := U32At(cache.buffer[ib], InodeOffset(id));
      if position >= size {
        Release(ib, {ib});
        if !disk.lost { AnswerOnDisk(disk.sectors, id, position, buffer.Length, EndOfFile, []); }
        return EndOfFile;
      }
      // The guard on the block number, here, never fires: no size reaches block 9.
      var ptr := U32At(cache.buffer[ib], PointerOffset(id, position / 512));
      if ptr == 0 {
        Release(ib, {ib});
        if !disk.lost { AnswerOnDisk(disk.sectors, id, position, buffer.Length, BadPosition, []); }
        return BadPosition;
      }
      SeenPointer(disk.sectors, v, id, position / 512);
      res := ReadBlock(buffer, id, position, size, ib, ptr);
      if !disk.lost && res.Read? {
        AnswerOnDisk(disk.sectors, id, position, buffer.Length, res, buffer[..res.count]);
      }
    }

    /** read_from_file from the block's sector on. */
    method ReadBlock(buffer: array<byte>, id: nat, position: nat, size: nat, ib: nat, ptr: nat)
      returns (res: ReadResult)
      requires Wired() && Safe() && ib < NUM_BUFS && cache.HeldExactly({ib}) && !cache.Dirty(ib)
      requires Consistent(disk.sectors) && UsedIn(disk.sectors, id) && cache.bufSectors[ib] == InodeSector(id)
      requires position < size <= MAX_SIZE && InBlocks(ptr)
      requires !disk.lost ==> ptr == Pointer(disk.sectors, id, position / 512)
      modifies cache, cache.bufSectors, cache.buffer, disk, buffer
      ensures Ready() && disk.sectors == old(disk.sectors) && disk.history == old(disk.history)
      ensures disk.lost == old(disk.lost)
      ensures res == ReadDiskError || res == Read(BytesToRead(size, position, buffer.Length))
      ensures res.Read? ==> res.count <= buffer.Length && buffer[res.count..] == old(buffer[res.count..])
      ensures !disk.lost && res.Read? ==> BytesAt(disk.sectors, id, position, buffer[..res.count])
      ensures !res.Read? ==> buffer[..] == old(buffer[..])
      ensures old(disk.faults) == [] ==> disk.faults == [] && res.Read?
    {
      ghost var d := disk.sectors;
      PlaceIsSlot(position, ptr);
      var ok, db := Acquire(ptr + (position % 1024) / 512, {ib});
      if !ok {
        Release(ib, {ib});
        return ReadDiskError;
      }
      // Repaired: the file's count is BytesAsWritten.
      var n := BytesToRead(size, position, buffer.Length);
      CopyOut(buffer, cache.buffer[db], position % 512, n);
      Release(db, {ib, db});
      Release(ib, {ib});
      if !disk.lost { SectorBytes(d, id, position, buffer[..n]); }
      return Read(n);
    }

    method CopyOut(buffer: array<byte>, sec: Sector, off: nat, n: nat)
      requires n <= buffer.Length && off + n <= 512
      modifies buffer
      ensures buffer[..] == sec[off..off + n] + old(buffer[n..])
    {
      var i := 0;
      while i < n
        invariant 0 <= i <= n
        invariant buffer[..i] == sec[off..off + i] && buffer[i..] == old(buffer[i..])
      {
        buffer[i] := sec[off + i];
        i := i + 1;
      }
    }

    /** vfs_metadata: the size field of an inode, in use or not, if the disk has its sector. */
    method Metadata(id: nat) returns (ok: bool, size: nat)
      requires Ready() && id < WORD
      modifies cache, cache.bufSectors, cache.buffer, disk
      ensures Ready() && disk.sectors == old(disk.sectors) && disk.history == old(disk.history)
      ensures disk.lost == old(disk.lost)
      ensures ok ==> InodeSector(id) < |disk.sectors|
      ensures ok && !disk.lost ==> size == U32At(disk.sectors[InodeSector(id)], InodeOffset(id))
      ensures ok ==> 84 + id / 4 < |disk.sectors|
      ensures ok && !disk.lost ==>
                var inode, o := disk.sectors[84 + id / 4], 128 * (id % 4);
                size == (inode[o] as int) + 0x100 * (inode[o + 1] as int) + 0x1_0000 * (inode[o + 2] as int)
                        + 0x100_0000 * (inode[o + 3] as int)
      ensures old(disk.faults) == [] ==> disk.faults == [] && (ok <==> InodeSector(id) < |disk.sectors|)
    {
      var ib;
      ok, ib := Acquire(InodeSector(id), {});
      if !ok {
        return false, 0;
      }
      size := U32At(cache.buffer[ib], InodeOffset(id));
      Release(ib, {ib});
    }
  }

  // ---------------------------------------------------------------- any calls, whatever the disk refuses

  datatype Demand = Make(name: seq<byte>) | Put(id: nat, position: nat, data: seq<byte>)
                  | Get(id: nat, position: nat, len: nat) | Size(id: nat)

  /** Any calls on any files in use, in any order, with any refusals of the disk: no buffer stays held,
      what is in use stays in use, and the disk and what readers see both stay consistent, though after a
      refused write they may differ. */
  method Endure(fs: FileSystem, demands: seq<Demand>)
    requires fs.Ready()
    modifies fs.cache, fs.cache.bufSectors, fs.cache.buffer, fs.disk
    ensures fs.Ready() && Consistent(fs.disk.sectors) && Consistent(fs.cache.seen)
    ensures UsedBits(old(fs.disk.sectors)[INODE_BITMAP_SECTOR]) <= UsedBits(fs.disk.sectors[INODE_BITMAP_SECTOR])
    ensures old(fs.disk.faults) == [] ==> fs.disk.lost == old(fs.disk.lost)
  {
    var i := 0;
    while i < |demands|
      invariant 0 <= i <= |demands| && fs.Ready()
      invariant UsedBits(old(fs.disk.sectors)[INODE_BITMAP_SECTOR]) <= UsedBits(fs.disk.sectors[INODE_BITMAP_SECTOR])
      invariant old(fs.disk.faults) == [] ==> fs.disk.faults == [] && fs.disk.lost == old(fs.disk.lost)
    {
      match demands[i] {
        case Make(name) =>
          var _ := fs.CreateFile(name);
        case Put(id, position, data) =>
          if UsedIn(fs.disk.sectors, id) { var _ := fs.WriteToFile(data, id, position); }
        case Get(id, position, len) =>
          var buffer := new byte[len](k => 0);
          if UsedIn(fs.disk.sectors, id) { var _ := fs.ReadFromFile(buffer, id, position); }
        case Size(id) =>
          if id < WORD { var _, _ := fs.Metadata(id); }
      }
      i := i + 1;
    }
    SoundBoth(fs.disk.sectors, fs.cache.seen);
  }

  /** How many bytes one read returns: no more than the buffer, the file and the sector hold. */
  function BytesToRead(size: nat, position: nat, len: nat): (n: nat)
    requires position < size
    ensures n <= len && position + n <= size && position % 512 + n <= 512
    ensures n == len || position + n == size || position % 512 + n == 512
  {
    Min(len, Min(size - position, 512 - position % 512))
  }

  /** The count as written: one too many in the last sector of the file, and taken from the wrong
      sector in any other. The subtraction is on 32 bits. */
  function BytesAsWritten(size: nat, position: nat, len: nat): nat
    requires position < size
  {
    Min((size % 512 - position % 512 + 1) % WORD, len)
  }

  /** In the last sector the count as written is right exactly when the buffer is no longer than what
      is left of the file; in an earlier one it is right exactly when the file's last partial sector
      happens to allow it. */
  lemma CountAsWritten(size: nat, position: nat, len: nat)
    requires position < size < WORD && len < WORD
    ensures BytesAsWritten(size, position, len) == BytesToRead(size, position, len) <==>
              if position / 512 == size / 512 then len <= size - position
              else if position % 512 <= size % 512 + 1 then len <= size % 512 + 1 - position % 512 || size % 512 == 511
              else len <= 512 - position % 512
  {
  }

  /** Reading ten bytes into a large buffer as written returns eleven and moves the cursor past the end. */
  lemma CountAsWrittenExample()
    ensures BytesAsWritten(10, 0, 512) == 11 && BytesToRead(10, 0, 512) == 10
  {
  }

  /** The block guard as written lets exactly one bad index through, block 9, whose word is the
      inode's indirect block. */
  lemma GuardAsWritten(position: nat)
    ensures !(position / 512 > NUM_DIRECT) && position / 512 >= NUM_DIRECT <==> 4608 <= position < 5120
  {
  }
}
