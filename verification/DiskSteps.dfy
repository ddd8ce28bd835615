/** Each kind of sector write that WNFS issues keeps the disk consistent. */
module DiskSteps {
  import opened Bits
  import opened DiskLayout

  /** Inode fields do not depend on sectors outside the inode's own. */
  lemma FieldsElsewhere(d: Image, s: nat, sec: Sector, id: nat)
    requires Formatted(d) && s < |d| && id < BITMAP_BITS && s != InodeSector(id)
    ensures FileSize(d[s := sec], id) == FileSize(d, id)
    ensures forall w: nat :: w < NUM_DIRECT ==> Pointer(d[s := sec], id, w) == Pointer(d, id, w)
  {
  }

  // ---------------------------------------------------------------- the block bitmap

  predicate MoreMarked(bitmap: Sector, bitmap': Sector) {
    forall s {:trigger Marked(bitmap', s)} :: 0 <= s < BITMAP_BITS && Marked(bitmap, s) ==> Marked(bitmap', s)
  }

  lemma MarkSameFile(d: Image, bitmap: Sector, id: nat)
    requires Consistent(d) && id < BITMAP_BITS && InodeUsed(d, id)
    ensures InodeUsed(d[BLOCK_GROUP_SECTOR := bitmap], id) && SameFile(d, d[BLOCK_GROUP_SECTOR := bitmap], id)
  {
    var d' := d[BLOCK_GROUP_SECTOR := bitmap];
    FieldsElsewhere(d, BLOCK_GROUP_SECTOR, bitmap, id);
    forall w | 0 <= w < NUM_DIRECT ensures SameSlot(d, d', id, w) {
      DataSectorInRange(d, id, w);
    }
  }

  /** Marking more sectors keeps the disk consistent and changes no file. */
  lemma MarkStep(d: Image, bitmap: Sector)
    requires Consistent(d) && MoreMarked(d[BLOCK_GROUP_SECTOR], bitmap)
    ensures Consistent(d[BLOCK_GROUP_SECTOR := bitmap])
    ensures forall x {:trigger SameFile(d, d[BLOCK_GROUP_SECTOR := bitmap], x)} ::
              0 <= x < BITMAP_BITS && InodeUsed(d, x) ==>
                InodeUsed(d[BLOCK_GROUP_SECTOR := bitmap], x) && SameFile(d, d[BLOCK_GROUP_SECTOR := bitmap], x)
  {
    var d' := d[BLOCK_GROUP_SECTOR := bitmap];
    forall x | 0 <= x < BITMAP_BITS && InodeUsed(d, x) ensures InodeUsed(d', x) && SameFile(d, d', x) {
      MarkSameFile(d, bitmap, x);
    }
    forall id | 0 <= id < BITMAP_BITS && InodeUsed(d', id) ensures SizeOk(d', id) {
      assert SizeOk(d, id);
      FieldsElsewhere(d, BLOCK_GROUP_SECTOR, bitmap, id);
    }
    forall id, w | 0 <= id < BITMAP_BITS && InodeUsed(d', id) && 0 <= w < NUM_DIRECT ensures PointerOk(d', id, w) {
      FieldsElsewhere(d, BLOCK_GROUP_SECTOR, bitmap, id);
      assert PointerOk(d, id, w);
    }
    forall id, w, id', w' | 0 <= id < BITMAP_BITS && InodeUsed(d', id) && 0 <= w < NUM_DIRECT &&
                            0 <= id' < BITMAP_BITS && InodeUsed(d', id') && 0 <= w' < NUM_DIRECT
      ensures Apart(d', id, w, id', w')
    {
      FieldsElsewhere(d, BLOCK_GROUP_SECTOR, bitmap, id);
      FieldsElsewhere(d, BLOCK_GROUP_SECTOR, bitmap, id');
      assert Apart(d, id, w, id', w');
    }
  }

  // ---------------------------------------------------------------- a data sector

  lemma DataConsistent(d: Image, s: nat, sec: Sector)
    requires Consistent(d) && BLOCK_START_SECTOR <= s < |d|
    ensures Consistent(d[s := sec])
    ensures forall id :: 0 <= id < BITMAP_BITS ==> (InodeUsed(d[s := sec], id) <==> InodeUsed(d, id))
  {
    var d' := d[s := sec];
    forall id | 0 <= id < BITMAP_BITS && InodeUsed(d', id) ensures SizeOk(d', id) {
      assert SizeOk(d, id);
    }
    forall id, w | 0 <= id < BITMAP_BITS && InodeUsed(d', id) && 0 <= w < NUM_DIRECT ensures PointerOk(d', id, w) {
      assert PointerOk(d, id, w);
    }
    forall id, w, id', w' | 0 <= id < BITMAP_BITS && InodeUsed(d', id) && 0 <= w < NUM_DIRECT &&
                            0 <= id' < BITMAP_BITS && InodeUsed(d', id') && 0 <= w' < NUM_DIRECT
      ensures Apart(d', id, w, id', w')
    {
      assert Apart(d, id, w, id', w');
    }
  }

  /** A slot that does not own the written sector is unchanged. */
  lemma DataSlot(d: Image, s: nat, sec: Sector, id: nat, w: nat)
    requires Consistent(d) && BLOCK_START_SECTOR <= s < |d|
    requires id < BITMAP_BITS && InodeUsed(d, id) && w < NUM_DIRECT
    requires Pointer(d, id, w) != 0 ==> DataSector(d, id, w) != s
    ensures SameSlot(d, d[s := sec], id, w) && FileSize(d[s := sec], id) == FileSize(d, id)
  {
    DataSectorInRange(d, id, w);
    FieldsElsewhere(d, s, sec, id);
  }

  /** Writing a sector of file `id` leaves every other file alone. */
  lemma DataOthers(d: Image, id: nat, w: nat, sec: Sector)
    requires Consistent(d) && id < BITMAP_BITS && InodeUsed(d, id) && w < NUM_DIRECT
    requires Pointer(d, id, w) != 0 && DataSector(d, id, w) < |d|
    ensures OthersSame(d, d[DataSector(d, id, w) := sec], id)
  {
    var s := DataSector(d, id, w);
    assert PointerOk(d, id, w);
    forall x | 0 <= x < BITMAP_BITS && x != id && InodeUsed(d, x)
      ensures InodeUsed(d[s := sec], x) && SameFile(d, d[s := sec], x)
    {
      forall v {:trigger Pointer(d, x, v)} | 0 <= v < NUM_DIRECT ensures SameSlot(d, d[s := sec], x, v) {
        assert Apart(d, id, w, x, v);
        DataSlot(d, s, sec, x, v);
      }
      FieldsElsewhere(d, s, sec, x);
    }
  }

  /** A write to a sector that no file owns changes no file. */
  lemma DataUnowned(d: Image, s: nat, sec: Sector)
    requires Consistent(d) && BLOCK_START_SECTOR <= s < |d|
    requires forall x, v {:trigger Pointer(d, x, v)} ::
               0 <= x < BITMAP_BITS && InodeUsed(d, x) && 0 <= v < NUM_DIRECT ==>
               Pointer(d, x, v) == 0 || DataSector(d, x, v) != s
    ensures forall x {:trigger SameFile(d, d[s := sec], x)} :: 0 <= x < BITMAP_BITS && InodeUsed(d, x) ==>
              SameFile(d, d[s := sec], x)
  {
    forall x | 0 <= x < BITMAP_BITS && InodeUsed(d, x) ensures SameFile(d, d[s := sec], x) {
      forall v {:trigger Pointer(d, x, v)} | 0 <= v < NUM_DIRECT ensures SameSlot(d, d[s := sec], x, v) {
        DataSlot(d, s, sec, x, v);
      }
      FieldsElsewhere(d, s, sec, x);
    }
  }

  // ---------------------------------------------------------------- an inode

  /** The two sectors agree outside the inode at `off`. */
  predicate OnlyInode(sec: Sector, sec': Sector, off: nat) {
    forall i :: 0 <= i < 512 && !(off <= i < off + INODE_SIZE) ==> sec'[i] == sec[i]
  }

  /** Rewriting one inode leaves the fields of every other inode alone. */
  lemma InodeOtherFields(d: Image, id: nat, sec: Sector, x: nat)
    requires Formatted(d) && id < BITMAP_BITS && x < BITMAP_BITS && x != id
    requires OnlyInode(d[InodeSector(id)], sec, InodeOffset(id))
    ensures var d' := d[InodeSector(id) := sec];
            FileSize(d', x) == FileSize(d, x)
            && forall w: nat :: w < NUM_DIRECT ==> Pointer(d', x, w) == Pointer(d, x, w)
  {
    if InodeSector(x) == InodeSector(id) {
      assert x % 4 != id % 4;
    }
  }

  lemma InodeOthers(d: Image, id: nat, sec: Sector)
    requires Consistent(d) && id < BITMAP_BITS
    requires OnlyInode(d[InodeSector(id)], sec, InodeOffset(id))
    ensures OthersSame(d, d[InodeSector(id) := sec], id)
  {
    var d' := d[InodeSector(id) := sec];
    forall x | 0 <= x < BITMAP_BITS && x != id && InodeUsed(d, x) ensures InodeUsed(d', x) && SameFile(d, d', x) {
      InodeOtherFields(d, id, sec, x);
      forall w | 0 <= w < NUM_DIRECT ensures SameSlot(d, d', x, w) {
        DataSectorInRange(d, x, w);
      }
    }
  }

  /** No used inode points into the two sectors from `r`. */
  predicate RunUnowned(d: Image, r: nat)
    requires Formatted(d)
  {
    forall x, v {:trigger Pointer(d, x, v)} :: 0 <= x < BITMAP_BITS && InodeUsed(d, x) && 0 <= v < NUM_DIRECT ==>
      Pointer(d, x, v) == 0 || Pointer(d, x, v) + 2 <= r || r + 2 <= Pointer(d, x, v)
  }

  /** Sectors that are not marked belong to no file. */
  lemma UnmarkedUnowned(d: Image, s: nat)
    requires Consistent(d) && s + 1 < BITMAP_BITS
    requires !Marked(d[BLOCK_GROUP_SECTOR], s) && !Marked(d[BLOCK_GROUP_SECTOR], s + 1)
    ensures RunUnowned(d, s + BLOCK_START_SECTOR)
  {
    forall x, v | 0 <= x < BITMAP_BITS && InodeUsed(d, x) && 0 <= v < NUM_DIRECT
      ensures var p := Pointer(d, x, v);
              p == 0 || p + 2 <= s + BLOCK_START_SECTOR || s + BLOCK_START_SECTOR + 2 <= p
    {
      assert PointerOk(d, x, v);
    }
  }

  lemma FreshApart(d: Image, d': Image, id: nat, w: nat, r: nat, x: nat, v: nat)
    requires Consistent(d) && Formatted(d') && id < BITMAP_BITS && InodeUsed(d, id) && w < NUM_DIRECT
    requires x < BITMAP_BITS && InodeUsed(d, x) && v < NUM_DIRECT && RunUnowned(d, r)
    requires Pointer(d', id, w) == r
    requires (x, v) != (id, w) ==> Pointer(d', x, v) == Pointer(d, x, v)
    ensures Apart(d', id, w, x, v) && Apart(d', x, v, id, w)
  {
    assert Pointer(d, x, v) == Pointer(d, x, v);
  }

  /** Pointing a null slot of a file at a fresh marked block keeps the disk consistent. */
  lemma PointStep(d: Image, id: nat, w: nat, r: nat)
    requires Consistent(d) && id < BITMAP_BITS && InodeUsed(d, id) && w < NUM_DIRECT
    requires BLOCK_START_SECTOR <= r && r + 1 < BLOCK_START_SECTOR + BITMAP_BITS
    requires Marked(d[BLOCK_GROUP_SECTOR], r - BLOCK_START_SECTOR)
    requires Marked(d[BLOCK_GROUP_SECTOR], r - BLOCK_START_SECTOR + 1)
    requires RunUnowned(d, r) && Pointer(d, id, w) == 0
    ensures var d' := d[InodeSector(id) := PutU32(d[InodeSector(id)], PointerOffset(id, w), r)];
            Consistent(d') && PointedFields(d, d', id, w, r)
  {
    var sec := PutU32(d[InodeSector(id)], PointerOffset(id, w), r);
    var d' := d[InodeSector(id) := sec];
    PointFields(d, id, w, r);
    forall x | 0 <= x < BITMAP_BITS && InodeUsed(d', x) ensures SizeOk(d', x) {
      assert SizeOk(d, x);
      if x != id { InodeOtherFields(d, id, sec, x); }
    }
    forall x, v | 0 <= x < BITMAP_BITS && InodeUsed(d', x) && 0 <= v < NUM_DIRECT ensures PointerOk(d', x, v) {
      assert PointerOk(d, x, v);
      if x != id { InodeOtherFields(d, id, sec, x); }
    }
    forall x, v, x', v' | 0 <= x < BITMAP_BITS && InodeUsed(d', x) && 0 <= v < NUM_DIRECT &&
                          0 <= x' < BITMAP_BITS && InodeUsed(d', x') && 0 <= v' < NUM_DIRECT
      ensures Apart(d', x, v, x', v')
    {
      assert Apart(d, x, v, x', v');
      if x != id { InodeOtherFields(d, id, sec, x); }
      if x' != id { InodeOtherFields(d, id, sec, x'); }
      if (x, v) == (id, w) { FreshApart(d, d', id, w, r, x', v'); }
      if (x', v') == (id, w) { FreshApart(d, d', id, w, r, x, v); }
    }
  }

  /** Exactly slot `w` of inode `id` changed, to `r`. */
  predicate PointedFields(d: Image, d': Image, id: nat, w: nat, r: nat)
    requires Formatted(d) && Formatted(d') && id < BITMAP_BITS && w < NUM_DIRECT
  {
    FileSize(d', id) == FileSize(d, id) && Pointer(d', id, w) == r
    && forall v {:trigger Pointer(d', id, v)} :: 0 <= v < NUM_DIRECT && v != w ==>
         Pointer(d', id, v) == Pointer(d, id, v)
  }

  lemma PointFields(d: Image, id: nat, w: nat, r: nat)
    requires Formatted(d) && id < BITMAP_BITS && w < NUM_DIRECT && r < WORD
    ensures OnlyInode(d[InodeSector(id)], PutU32(d[InodeSector(id)], PointerOffset(id, w), r), InodeOffset(id))
    ensures PointedFields(d, d[InodeSector(id) := PutU32(d[InodeSector(id)], PointerOffset(id, w), r)], id, w, r)
  {
    PutU32RoundTrip(d[InodeSector(id)], PointerOffset(id, w), r);
  }

  /** Raising a file's size within the limit keeps the disk consistent. */
  lemma SizeStep(d: Image, id: nat, size: nat)
    requires Consistent(d) && id < BITMAP_BITS && InodeUsed(d, id) && size <= MAX_SIZE
    ensures var d' := d[InodeSector(id) := PutU32(d[InodeSector(id)], InodeOffset(id), size)];
            Consistent(d') && SizedFields(d, d', id, size)
  {
    var sec := PutU32(d[InodeSector(id)], InodeOffset(id), size);
    var d' := d[InodeSector(id) := sec];
    SizeFields(d, id, size);
    forall x | 0 <= x < BITMAP_BITS && InodeUsed(d', x) ensures SizeOk(d', x) {
      assert SizeOk(d, x);
      if x != id { InodeOtherFields(d, id, sec, x); }
    }
    forall x, v | 0 <= x < BITMAP_BITS && InodeUsed(d', x) && 0 <= v < NUM_DIRECT ensures PointerOk(d', x, v) {
      assert PointerOk(d, x, v);
      if x != id { InodeOtherFields(d, id, sec, x); }
    }
    forall x, v, x', v' | 0 <= x < BITMAP_BITS && InodeUsed(d', x) && 0 <= v < NUM_DIRECT &&
                          0 <= x' < BITMAP_BITS && InodeUsed(d', x') && 0 <= v' < NUM_DIRECT
      ensures Apart(d', x, v, x', v')
    {
      assert Apart(d, x, v, x', v');
      if x != id { InodeOtherFields(d, id, sec, x); }
      if x' != id { InodeOtherFields(d, id, sec, x'); }
    }
  }

  /** The size of inode `id` changed and none of its pointers. */
  predicate SizedFields(d: Image, d': Image, id: nat, size: nat)
    requires Formatted(d) && Formatted(d') && id < BITMAP_BITS
  {
    FileSize(d', id) == size
    && forall v {:trigger Pointer(d', id, v)} :: 0 <= v < NUM_DIRECT ==> Pointer(d', id, v) == Pointer(d, id, v)
  }

  lemma SizeFields(d: Image, id: nat, size: nat)
    requires Formatted(d) && id < BITMAP_BITS && size < WORD
    ensures OnlyInode(d[InodeSector(id)], PutU32(d[InodeSector(id)], InodeOffset(id), size), InodeOffset(id))
    ensures SizedFields(d, d[InodeSector(id) := PutU32(d[InodeSector(id)], InodeOffset(id), size)], id, size)
  {
    PutU32RoundTrip(d[InodeSector(id)], InodeOffset(id), size);
  }
}
