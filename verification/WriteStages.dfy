/** The stages of write_to_file as disk contents: what is on the disk, and what is still only in the
    inode's buffer. */
module WriteStages {
  import opened Bits
  import opened DiskLayout
  import opened DiskSteps
  import opened FileWrites
  import opened BlockAllocation

  /** Slot `w` of the inode has the block `ptr`. Either the disk says so, or the block has just been
      marked and only the inode's buffer `sec` knows. */
  ghost predicate Prepared(d0: Image, d: Image, sec: Sector, id: nat, w: nat, ptr: nat, isNew: bool) {
    && Consistent(d0) && UsedIn(d0, id) && w < NUM_DIRECT && Keeps(d0, d, id) && ptr != 0
    && d == d0[BLOCK_GROUP_SECTOR := d[BLOCK_GROUP_SECTOR]]
    && (if isNew then
          FreshBlock(d, ptr) && Pointer(d, id, w) == 0
          && sec == PutU32(d[InodeSector(id)], PointerOffset(id, w), ptr)
        else
          Pointer(d, id, w) == ptr && sec == d[InodeSector(id)])
  }

  /** The disk as it will be when the inode's buffer is written. */
  function WithInode(d: Image, id: nat, sec: Sector): Image
    requires Formatted(d) && id < BITMAP_BITS
  {
    d[InodeSector(id) := sec]
  }

  lemma InodeWrite(d0: Image, d: Image, sec: Sector, id: nat, w: nat, ptr: nat, isNew: bool)
    requires Prepared(d0, d, sec, id, w, ptr, isNew)
    ensures Keeps(d0, WithInode(d, id, sec), id)
    ensures Pointer(WithInode(d, id, sec), id, w) == ptr
    ensures ptr >= BLOCK_START_SECTOR && ptr + 1 < |d|
  {
    if isNew {
      PointKeeps(d, id, w, ptr);
      KeepsTrans(d0, d, WithInode(d, id, sec), id);
    } else {
      assert WithInode(d, id, sec) == d;
      assert PointerOk(d, id, w);
    }
  }

  function DataPlace(pos: nat, ptr: nat): nat {
    ptr + (pos % 1024) / 512
  }

  lemma PlaceIsSlot(pos: nat, ptr: nat)
    ensures DataPlace(pos, ptr) == ptr + (pos / 512) % 2
  {
  }

  function Written(d: Image, pos: nat, ptr: nat, data: seq<byte>): Image
    requires DataPlace(pos, ptr) < |d| && pos % 512 + |data| <= 512
  {
    d[DataPlace(pos, ptr) := SectorOverlay(d[DataPlace(pos, ptr)], pos % 512, data)]
  }

  /** Once the data sector is written, the disk shows the old file or the new bytes up to the old size. */
  lemma DataWrite(d0: Image, d: Image, sec: Sector, id: nat, pos: nat, ptr: nat, isNew: bool, data: seq<byte>)
    requires Prepared(d0, d, sec, id, pos / 512, ptr, isNew) && pos % 512 + |data| <= 512
    requires DataPlace(pos, ptr) < |d|
    ensures CrashOk(d0, Written(d, pos, ptr, data), id, pos, data)
  {
    PlaceIsSlot(pos, ptr);
    if isNew {
      FreshDataKeeps(d, id, ptr, (pos / 512) % 2, SectorOverlay(d[DataPlace(pos, ptr)], pos % 512, data));
      KeepsTrans(d0, d, Written(d, pos, ptr, data), id);
    } else {
      DataWrote(d, id, pos, data);
      KeepsWrote(d0, d, Written(d, pos, ptr, data), id, pos, data, false);
    }
  }

  /** The inode after write_to_file has looked at its size. */
  function SizedSector(sec: Sector, id: nat, end: nat): Sector
    requires end < WORD
  {
    if U32At(sec, InodeOffset(id)) < end then PutU32(sec, InodeOffset(id), end) else sec
  }

  lemma InodeFields(d0: Image, d: Image, sec: Sector, id: nat, w: nat, ptr: nat, isNew: bool)
    requires Prepared(d0, d, sec, id, w, ptr, isNew)
    ensures Pointer(d0, id, w) == 0 || Pointer(d0, id, w) == ptr
    ensures forall v: nat {:trigger Pointer(WithInode(d, id, sec), id, v)} :: v < NUM_DIRECT && v != w ==>
              Pointer(WithInode(d, id, sec), id, v) == Pointer(d0, id, v)
    ensures FileSize(WithInode(d, id, sec), id) == FileSize(d0, id)
  {
    FieldsElsewhere(d0, BLOCK_GROUP_SECTOR, d[BLOCK_GROUP_SECTOR], id);
    if isNew { PointFields(d, id, w, ptr); } else { assert WithInode(d, id, sec) == d; }
  }

  /** Wherever it starts, the finished write is in its place. */
  lemma FinalPlaced(d0: Image, d: Image, sec: Sector, id: nat, pos: nat, ptr: nat, isNew: bool, data: seq<byte>)
    requires Prepared(d0, d, sec, id, pos / 512, ptr, isNew) && pos % 512 + |data| <= 512
    requires DataPlace(pos, ptr) < |d| && pos + |data| < WORD
    ensures Placed(d0, WithInode(Written(d, pos, ptr, data), id, SizedSector(sec, id, pos + |data|)), id, pos, data)
  {
    var e := WithInode(d, id, sec);
    InodeWrite(d0, d, sec, id, pos / 512, ptr, isNew);
    InodeFields(d0, d, sec, id, pos / 512, ptr, isNew);
    PlaceIsSlot(pos, ptr);
    var g := Written(d, pos, ptr, data);
    assert WithInode(g, id, sec) == WithData(e, id, pos, data);
    DataFields(e, id, pos, data);
    var f := WithInode(g, id, SizedSector(sec, id, pos + |data|));
    assert FileSize(e, id) < pos + |data| ==> f == WithSize(WithData(e, id, pos, data), id, pos + |data|);
    PlacedAt(d0, e, f, id, pos, data);
  }

  /** When the inode follows, with the size it needs, the write is finished. */
  lemma FinalWrite(d0: Image, d: Image, sec: Sector, id: nat, pos: nat, ptr: nat, isNew: bool, data: seq<byte>)
    requires Prepared(d0, d, sec, id, pos / 512, ptr, isNew) && pos % 512 + |data| <= 512
    requires DataPlace(pos, ptr) < |d|
    ensures pos + |data| < WORD && U32At(sec, InodeOffset(id)) == FileSize(d0, id)
    ensures Completed(d0, WithInode(Written(d, pos, ptr, data), id, SizedSector(sec, id, pos + |data|)), id, pos, data)
  {
    var e := WithInode(d, id, sec);
    InodeWrite(d0, d, sec, id, pos / 512, ptr, isNew);
    PlaceIsSlot(pos, ptr);
    var g := Written(d, pos, ptr, data);
    assert WithInode(g, id, sec) == WithData(e, id, pos, data);
    DataWrote(e, id, pos, data);
    if pos + |data| <= FileSize(e, id) {
      InsideIsFull(e, WithData(e, id, pos, data), id, pos, data);
      KeepsWrote(d0, e, WithData(e, id, pos, data), id, pos, data, true);
    } else {
      SizeWrote(e, id, pos, data);
      var f := WithSize(WithData(e, id, pos, data), id, pos + |data|);
      assert f == WithInode(g, id, PutU32(sec, InodeOffset(id), pos + |data|));
      KeepsWrote(d0, e, f, id, pos, data, true);
    }
    FinalPlaced(d0, d, sec, id, pos, ptr, isNew, data);
  }

  // ---------------------------------------------------------------- what a crash and the end may find

  ghost function CrashStates(d: Image, id: nat, pos: nat, data: seq<byte>): iset<Image>
    requires Consistent(d) && UsedIn(d, id)
  {
    iset d': Image | CrashOk(d, d', id, pos, data)
  }

  /** The disk after a call that wrote, or after one that failed. */
  ghost function Outcomes(d: Image, id: nat, pos: nat, data: seq<byte>, done: bool): iset<Image>
    requires Consistent(d) && UsedIn(d, id)
  {
    iset d': Image | if done then Completed(d, d', id, pos, data) else Keeps(d, d', id)
  }

  lemma PreparedState(d0: Image, d: Image, sec: Sector, id: nat, pos: nat, ptr: nat, isNew: bool, data: seq<byte>)
    requires Prepared(d0, d, sec, id, pos / 512, ptr, isNew)
    ensures d in CrashStates(d0, id, pos, data) && d in Outcomes(d0, id, pos, data, false)
  {
  }

  /** Only the inode follows. */
  lemma InodeState(d0: Image, d: Image, sec: Sector, id: nat, pos: nat, ptr: nat, isNew: bool, data: seq<byte>)
    requires Prepared(d0, d, sec, id, pos / 512, ptr, isNew)
    ensures WithInode(d, id, sec) in CrashStates(d0, id, pos, data)
    ensures WithInode(d, id, sec) in Outcomes(d0, id, pos, data, false)
    ensures ptr >= BLOCK_START_SECTOR && ptr + 1 < |d|
  {
    InodeWrite(d0, d, sec, id, pos / 512, ptr, isNew);
  }

  /** The data sector follows. */
  lemma DataState(d0: Image, d: Image, sec: Sector, id: nat, pos: nat, ptr: nat, isNew: bool, data: seq<byte>)
    requires Prepared(d0, d, sec, id, pos / 512, ptr, isNew) && pos % 512 + |data| <= 512 && DataPlace(pos, ptr) < |d|
    ensures Written(d, pos, ptr, data) in CrashStates(d0, id, pos, data)
  {
    DataWrite(d0, d, sec, id, pos, ptr, isNew, data);
  }

  /** And then the inode. */
  lemma FinalState(d0: Image, d: Image, sec: Sector, id: nat, pos: nat, ptr: nat, isNew: bool, data: seq<byte>)
    requires Prepared(d0, d, sec, id, pos / 512, ptr, isNew) && pos % 512 + |data| <= 512 && DataPlace(pos, ptr) < |d|
    ensures pos + |data| < WORD
    ensures var f := WithInode(Written(d, pos, ptr, data), id, SizedSector(sec, id, pos + |data|));
            f in CrashStates(d0, id, pos, data) && f in Outcomes(d0, id, pos, data, true)
  {
    FinalWrite(d0, d, sec, id, pos, ptr, isNew, data);
  }

  /** Marking the block that allocate_sectors found prepares a null slot. */
  lemma AllocationPrepares(d0: Image, id: nat, w: nat, s: nat)
    requires Consistent(d0) && UsedIn(d0, id) && w < NUM_DIRECT && Pointer(d0, id, w) == 0
    requires RunFree(d0[BLOCK_GROUP_SECTOR], s, 2)
    ensures var d := d0[BLOCK_GROUP_SECTOR := MarkRun(d0[BLOCK_GROUP_SECTOR], s, 2)];
            var ptr := s + BLOCK_START_SECTOR;
            Prepared(d0, d, PutU32(d[InodeSector(id)], PointerOffset(id, w), ptr), id, w, ptr, true)
            && d[InodeSector(id)] == d0[InodeSector(id)]
  {
    var bm := MarkRun(d0[BLOCK_GROUP_SECTOR], s, 2);
    var d := d0[BLOCK_GROUP_SECTOR := bm];
    forall t: nat | t < BITMAP_BITS
      ensures Marked(bm, t) <==> s <= t < s + 2 || Marked(d0[BLOCK_GROUP_SECTOR], t)
    {
      MarkRunMarks(d0[BLOCK_GROUP_SECTOR], s, 2, t);
    }
    MarkKeeps(d0, id, bm);
    FieldsElsewhere(d0, BLOCK_GROUP_SECTOR, bm, id);
    assert !Marked(d0[BLOCK_GROUP_SECTOR], s) && !Marked(d0[BLOCK_GROUP_SECTOR], s + 1);
    UnmarkedUnowned(d0, s);
    StillUnowned(d0, bm, s + BLOCK_START_SECTOR);
  }

  lemma StillUnowned(d0: Image, bm: Sector, r: nat)
    requires Formatted(d0) && RunUnowned(d0, r)
    ensures RunUnowned(d0[BLOCK_GROUP_SECTOR := bm], r)
  {
    var d := d0[BLOCK_GROUP_SECTOR := bm];
    forall x, v | 0 <= x < BITMAP_BITS && InodeUsed(d, x) && 0 <= v < NUM_DIRECT
      ensures Pointer(d, x, v) == 0 || Pointer(d, x, v) + 2 <= r || r + 2 <= Pointer(d, x, v)
    {
      FieldsElsewhere(d0, BLOCK_GROUP_SECTOR, bm, x);
      assert Pointer(d0, x, v) == Pointer(d, x, v);
    }
  }
}
