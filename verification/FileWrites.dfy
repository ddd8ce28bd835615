/** What the sector writes of one write_to_file call do to the bytes of the file. */
module FileWrites {
  import opened Bits
  import opened DiskLayout
  import opened DiskSteps

  /** `data` written over `c` at `pos`. */
  function Overlay(c: seq<byte>, pos: nat, data: seq<byte>): (r: seq<byte>)
    requires pos <= |c|
    ensures |r| == if pos + |data| > |c| then pos + |data| else |c|
    ensures forall i {:trigger r[i]} :: 0 <= i < |r| ==>
              r[i] == if pos <= i < pos + |data| then data[i - pos] else c[i]
  {
    c[..pos] + data + (if pos + |data| < |c| then c[pos + |data|..] else [])
  }

  /** `data` over the bytes of `c` that it meets when it is written at `pos`. */
  function Patched(c: seq<byte>, pos: nat, data: seq<byte>): (r: seq<byte>)
    ensures |r| == |c|
    ensures forall i {:trigger r[i]} :: 0 <= i < |r| ==>
              r[i] == if pos <= i < pos + |data| then data[i - pos] else c[i]
    ensures pos <= |c| ==> r == Overlay(c, pos, data)[..|c|]
  {
    seq(|c|, i requires 0 <= i < |c| => if pos <= i < pos + |data| then data[i - pos] else c[i])
  }

  function SectorOverlay(sec: Sector, off: nat, data: seq<byte>): Sector
    requires off + |data| <= 512
  {
    sec[..off] + data + sec[off + |data|..]
  }

  predicate UsedIn(d: Image, id: nat) {
    Formatted(d) && id < BITMAP_BITS && InodeUsed(d, id)
  }

  function WithPointer(d: Image, id: nat, w: nat, r: nat): Image
    requires UsedIn(d, id) && w < NUM_DIRECT && r < WORD
  {
    d[InodeSector(id) := PutU32(d[InodeSector(id)], PointerOffset(id, w), r)]
  }

  function WithSize(d: Image, id: nat, size: nat): Image
    requires UsedIn(d, id) && size < WORD
  {
    d[InodeSector(id) := PutU32(d[InodeSector(id)], InodeOffset(id), size)]
  }

  /** A fresh block in a null slot changes no byte of the file. */
  lemma PointContent(d: Image, id: nat, w: nat, r: nat)
    requires Consistent(d) && UsedIn(d, id) && Dense(d, id) && w < NUM_DIRECT && r < WORD
    requires Pointer(d, id, w) == 0 && r != 0
    requires Consistent(WithPointer(d, id, w, r)) && PointedFields(d, WithPointer(d, id, w, r), id, w, r)
    ensures Dense(WithPointer(d, id, w, r), id)
    ensures Content(WithPointer(d, id, w, r), id) == Content(d, id)
  {
    var d' := WithPointer(d, id, w, r);
    forall v | 0 <= v < NUM_DIRECT ensures Backed(d', id, v) {
      assert Backed(d, id, v);
      assert v != w ==> Pointer(d', id, v) == Pointer(d, id, v);
    }
    var c, c' := Content(d, id), Content(d', id);
    forall p | 0 <= p < |c| ensures c'[p] == c[p] {
      var v := p / 512;
      assert Backed(d, id, v) && PointerOk(d, id, v);
      assert Pointer(d', id, v) == Pointer(d, id, v);
    }
  }

  /** Writing the sector of one slot changes the file's bytes in that slot and no others. */
  lemma DataContent(d: Image, id: nat, w: nat, sec: Sector)
    requires Consistent(d) && UsedIn(d, id) && Dense(d, id) && w < NUM_DIRECT
    requires Pointer(d, id, w) != 0 && DataSector(d, id, w) < |d|
    ensures var d' := d[DataSector(d, id, w) := sec];
            && Consistent(d') && UsedIn(d', id) && Dense(d', id)
            && FileSize(d', id) == FileSize(d, id)
            && DataSector(d', id, w) == DataSector(d, id, w)
            && |Content(d', id)| == |Content(d, id)|
            && forall p {:trigger Content(d', id)[p]} :: 0 <= p < |Content(d, id)| ==>
                 Content(d', id)[p] == if p / 512 == w then sec[p % 512] else Content(d, id)[p]
  {
    var s := DataSector(d, id, w);
    var d' := d[s := sec];
    assert PointerOk(d, id, w);
    DataConsistent(d, s, sec);
    FieldsElsewhere(d, s, sec, id);
    forall v | 0 <= v < NUM_DIRECT ensures Backed(d', id, v) {
      assert Backed(d, id, v);
    }
    forall p | 0 <= p < |Content(d, id)|
      ensures Content(d', id)[p] == if p / 512 == w then sec[p % 512] else Content(d, id)[p]
    {
      var v := p / 512;
      assert Backed(d, id, v) && Apart(d, id, w, id, v) && PointerOk(d, id, v);
    }
  }

  /** Raising the size over backed bytes appends what their sectors hold. */
  lemma SizeContent(d: Image, id: nat, size: nat)
    requires Consistent(d) && UsedIn(d, id) && Dense(d, id) && FileSize(d, id) <= size <= MAX_SIZE
    requires forall w :: 0 <= w < NUM_DIRECT && 512 * w < size ==> Pointer(d, id, w) != 0
    ensures Consistent(WithSize(d, id, size)) && UsedIn(WithSize(d, id, size), id) && Dense(WithSize(d, id, size), id)
    ensures |Content(WithSize(d, id, size), id)| == size
    ensures forall p {:trigger Content(WithSize(d, id, size), id)[p]} :: 0 <= p < size ==>
              DataSector(d, id, p / 512) < |d| &&
              Content(WithSize(d, id, size), id)[p] == ByteOf(d, id, p)
  {
    var d' := WithSize(d, id, size);
    SizeStep(d, id, size);
    forall v | 0 <= v < NUM_DIRECT ensures Backed(d', id, v) {
      assert Pointer(d', id, v) == Pointer(d, id, v);
    }
    forall p | 0 <= p < size
      ensures DataSector(d, id, p / 512) < |d| && Content(d', id)[p] == ByteOf(d, id, p)
    {
      var v := p / 512;
      assert Pointer(d', id, v) == Pointer(d, id, v);
      DataSectorInRange(d, id, v);
    }
  }

  // ---------------------------------------------------------------- one write

  /** After the data sector: the old bytes with the new ones over them, cut at the old size. */
  lemma AfterData(d: Image, id: nat, pos: nat, data: seq<byte>)
    requires Consistent(d) && UsedIn(d, id) && Dense(d, id)
    requires pos / 512 < NUM_DIRECT && pos % 512 + |data| <= 512
    requires Pointer(d, id, pos / 512) != 0 && DataSector(d, id, pos / 512) < |d|
    ensures var s := DataSector(d, id, pos / 512);
            var d' := d[s := SectorOverlay(d[s], pos % 512, data)];
            && Consistent(d') && UsedIn(d', id) && Dense(d', id) && OthersSame(d, d', id)
            && Content(d', id) == Patched(Content(d, id), pos, data)
  {
    var w := pos / 512;
    var s := DataSector(d, id, w);
    var sec := SectorOverlay(d[s], pos % 512, data);
    var d' := d[s := sec];
    DataContent(d, id, w, sec);
    DataOthers(d, id, w, sec);
    var c, c' := Content(d, id), Content(d', id);
    var o := Patched(c, pos, data);
    forall p | 0 <= p < |c| ensures c'[p] == o[p] {
      DataSectorInRange(d, id, p / 512);
      assert c[p] == ByteOf(d, id, p);
    }
  }

  /** After the inode, when the write reaches past the old size: the whole new content. */
  lemma AfterSize(d: Image, id: nat, pos: nat, data: seq<byte>, c: seq<byte>)
    requires Consistent(d) && UsedIn(d, id) && Dense(d, id)
    requires pos <= FileSize(d, id) == |c| && pos / 512 < NUM_DIRECT && pos % 512 + |data| <= 512
    requires Pointer(d, id, pos / 512) != 0 && |c| < pos + |data|
    requires Content(d, id) == Overlay(c, pos, data)[..|c|]
    requires DataSector(d, id, pos / 512) < |d|
    requires forall i :: 0 <= i < |data| ==> d[DataSector(d, id, pos / 512)][pos % 512 + i] == data[i]
    ensures Consistent(WithSize(d, id, pos + |data|)) && UsedIn(WithSize(d, id, pos + |data|), id)
    ensures Dense(WithSize(d, id, pos + |data|), id) && OthersSame(d, WithSize(d, id, pos + |data|), id)
    ensures Content(WithSize(d, id, pos + |data|), id) == Overlay(c, pos, data)
  {
    var size := pos + |data|;
    var d' := WithSize(d, id, size);
    SizeFields(d, id, size);
    InodeOthers(d, id, PutU32(d[InodeSector(id)], InodeOffset(id), size));
    forall w | 0 <= w < NUM_DIRECT && 512 * w < size ensures Pointer(d, id, w) != 0 {
      assert Backed(d, id, w);
      assert w <= pos / 512;
    }
    SizeContent(d, id, size);
    var o := Overlay(c, pos, data);
    forall p | 0 <= p < size ensures Content(d', id)[p] == o[p] {
      if p < |c| {
        assert o[..|c|][p] == o[p];
        assert Content(d, id)[p] == ByteOf(d, id, p);
      } else {
        assert p / 512 == pos / 512;
        assert ByteOf(d, id, p) == d[DataSector(d, id, pos / 512)][pos % 512 + (p - pos)];
      }
    }
  }

  // ---------------------------------------------------------------- what a crash may find

  /** Between the two disks every other file is the same and this one has the same bytes. */
  ghost predicate Keeps(d: Image, d': Image, id: nat)
    requires Consistent(d) && UsedIn(d, id)
  {
    && Consistent(d') && UsedIn(d', id) && OthersSame(d, d', id) && |d'| == |d|
    && d'[INODE_BITMAP_SECTOR] == d[INODE_BITMAP_SECTOR]
    && FileSize(d', id) == FileSize(d, id)
    && (Dense(d, id) ==> Dense(d', id) && Content(d', id) == Content(d, id))
  }

  /** The write of `data` at `pos` shows in the file, cut at the old size unless `full`. The full write
      makes the bytes of a file only when it does not start behind the end; see GrownFile. */
  ghost predicate Wrote(d: Image, d': Image, id: nat, pos: nat, data: seq<byte>, full: bool)
    requires Consistent(d) && UsedIn(d, id)
  {
    && Consistent(d') && UsedIn(d', id) && OthersSame(d, d', id) && |d'| == |d|
    && d'[INODE_BITMAP_SECTOR] == d[INODE_BITMAP_SECTOR]
    && (Dense(d, id) && !full ==> Dense(d', id) && Content(d', id) == Patched(Content(d, id), pos, data))
    && (Dense(d, id) && full && pos <= FileSize(d, id) ==>
          Dense(d', id) && Content(d', id) == Overlay(Content(d, id), pos, data))
  }

  /** The finished write as the disk shows it, wherever it starts: the size covers the data, the data is
      in the sector of its slot, and the other slots and the rest of that sector are as they were. */
  ghost predicate Placed(d: Image, d': Image, id: nat, pos: nat, data: seq<byte>)
    requires Formatted(d) && Formatted(d') && id < BITMAP_BITS
  {
    var w := pos / 512;
    && w < NUM_DIRECT && pos % 512 + |data| <= 512 && |d'| == |d|
    && FileSize(d', id) == Max(FileSize(d, id), pos + |data|)
    && (forall v {:trigger SameSlot(d, d', id, v)} :: 0 <= v < NUM_DIRECT && v != w ==> SameSlot(d, d', id, v))
    && Pointer(d', id, w) != 0 && (Pointer(d, id, w) != 0 ==> Pointer(d', id, w) == Pointer(d, id, w))
    && DataSector(d', id, w) < |d|
    && d'[DataSector(d', id, w)] == SectorOverlay(d[DataSector(d', id, w)], pos % 512, data)
  }

  ghost predicate Completed(d: Image, d': Image, id: nat, pos: nat, data: seq<byte>)
    requires Consistent(d) && UsedIn(d, id)
  {
    Wrote(d, d', id, pos, data, true) && Placed(d, d', id, pos, data)
  }

  /** What the disk may hold at any moment of the write: the old bytes, the old bytes with the new
      ones over them up to the old size, or the finished write. Other files never change. */
  ghost predicate CrashOk(d: Image, d': Image, id: nat, pos: nat, data: seq<byte>)
    requires Consistent(d) && UsedIn(d, id)
  {
    Keeps(d, d', id) || Wrote(d, d', id, pos, data, false) || Completed(d, d', id, pos, data)
  }

  lemma SameFileTrans(d: Image, e: Image, f: Image, x: nat)
    requires Consistent(d) && Consistent(e) && UsedIn(d, x) && Formatted(f)
    requires SameFile(d, e, x) && SameFile(e, f, x)
    ensures SameFile(d, f, x)
  {
    forall w | 0 <= w < NUM_DIRECT ensures SameSlot(d, f, x, w) {
      assert SameSlot(d, e, x, w) && SameSlot(e, f, x, w);
    }
  }

  lemma OthersTrans(d: Image, e: Image, f: Image, id: nat)
    requires Consistent(d) && Consistent(e) && Formatted(f) && OthersSame(d, e, id) && OthersSame(e, f, id)
    ensures OthersSame(d, f, id)
  {
    forall x | 0 <= x < BITMAP_BITS && x != id && InodeUsed(d, x) ensures InodeUsed(f, x) && SameFile(d, f, x) {
      assert SameFile(d, e, x) && SameFile(e, f, x);
      SameFileTrans(d, e, f, x);
    }
  }

  lemma KeepsTrans(d: Image, e: Image, f: Image, id: nat)
    requires Consistent(d) && UsedIn(d, id) && Keeps(d, e, id) && Keeps(e, f, id)
    ensures Keeps(d, f, id)
  {
    OthersTrans(d, e, f, id);
  }

  lemma KeepsWrote(d: Image, e: Image, f: Image, id: nat, pos: nat, data: seq<byte>, full: bool)
    requires Consistent(d) && UsedIn(d, id) && Keeps(d, e, id) && Wrote(e, f, id, pos, data, full)
    ensures Wrote(d, f, id, pos, data, full)
  {
    OthersTrans(d, e, f, id);
  }

  lemma KeepsItself(d: Image, id: nat)
    requires Consistent(d) && UsedIn(d, id)
    ensures Keeps(d, d, id)
  {
    forall x | 0 <= x < BITMAP_BITS && InodeUsed(d, x) ensures SameFile(d, d, x) {
      forall w | 0 <= w < NUM_DIRECT ensures SameSlot(d, d, x, w) {
      }
    }
  }

  lemma MarkKeeps(d: Image, id: nat, bitmap: Sector)
    requires Consistent(d) && UsedIn(d, id) && MoreMarked(d[BLOCK_GROUP_SECTOR], bitmap)
    ensures Keeps(d, d[BLOCK_GROUP_SECTOR := bitmap], id)
  {
    MarkStep(d, bitmap);
    forall x | 0 <= x < BITMAP_BITS && InodeUsed(d, x)
      ensures InodeUsed(d[BLOCK_GROUP_SECTOR := bitmap], x) && SameFile(d, d[BLOCK_GROUP_SECTOR := bitmap], x)
    {
      MarkSameFile(d, bitmap, x);
    }
    if Dense(d, id) { SameFileContent(d, d[BLOCK_GROUP_SECTOR := bitmap], id); }
  }

  /** The block `r` is marked and belongs to nobody. */
  predicate FreshBlock(d: Image, r: nat) {
    && Formatted(d)
    && BLOCK_START_SECTOR <= r && r + 1 < BLOCK_START_SECTOR + BITMAP_BITS
    && Marked(d[BLOCK_GROUP_SECTOR], r - BLOCK_START_SECTOR)
    && Marked(d[BLOCK_GROUP_SECTOR], r - BLOCK_START_SECTOR + 1)
    && RunUnowned(d, r)
  }

  lemma PointKeeps(d: Image, id: nat, w: nat, r: nat)
    requires Consistent(d) && UsedIn(d, id) && w < NUM_DIRECT && FreshBlock(d, r) && Pointer(d, id, w) == 0
    ensures Keeps(d, WithPointer(d, id, w, r), id)
    ensures Pointer(WithPointer(d, id, w, r), id, w) == r
  {
    PointStep(d, id, w, r);
    PointFields(d, id, w, r);
    InodeOthers(d, id, PutU32(d[InodeSector(id)], PointerOffset(id, w), r));
    if Dense(d, id) { PointContent(d, id, w, r); }
  }

  /** Writing into a fresh block before any inode names it shows in no file. */
  lemma FreshDataKeeps(d: Image, id: nat, r: nat, k: nat, sec: Sector)
    requires Consistent(d) && UsedIn(d, id) && FreshBlock(d, r) && k < 2 && r + k < |d|
    ensures Keeps(d, d[r + k := sec], id)
  {
    DataConsistent(d, r + k, sec);
    DataUnowned(d, r + k, sec);
    assert SameFile(d, d[r + k := sec], id);
    if Dense(d, id) { SameFileContent(d, d[r + k := sec], id); }
  }

  function DataSectorOf(d: Image, id: nat, pos: nat): nat
    requires UsedIn(d, id) && pos / 512 < NUM_DIRECT
  {
    DataSector(d, id, pos / 512)
  }

  function WithData(d: Image, id: nat, pos: nat, data: seq<byte>): Image
    requires UsedIn(d, id) && pos / 512 < NUM_DIRECT && pos % 512 + |data| <= 512
    requires DataSectorOf(d, id, pos) < |d|
  {
    var s := DataSectorOf(d, id, pos);
    d[s := SectorOverlay(d[s], pos % 512, data)]
  }

  lemma DataWrote(d: Image, id: nat, pos: nat, data: seq<byte>)
    requires Consistent(d) && UsedIn(d, id) && pos / 512 < NUM_DIRECT && pos % 512 + |data| <= 512
    requires Pointer(d, id, pos / 512) != 0 && DataSectorOf(d, id, pos) < |d|
    ensures Wrote(d, WithData(d, id, pos, data), id, pos, data, false)
    ensures FileSize(WithData(d, id, pos, data), id) == FileSize(d, id)
  {
    var s := DataSectorOf(d, id, pos);
    assert PointerOk(d, id, pos / 512);
    DataConsistent(d, s, SectorOverlay(d[s], pos % 512, data));
    DataOthers(d, id, pos / 512, SectorOverlay(d[s], pos % 512, data));
    FieldsElsewhere(d, s, SectorOverlay(d[s], pos % 512, data), id);
    if Dense(d, id) { AfterData(d, id, pos, data); }
  }

  /** A write that stays inside the file is complete once its data is on the disk. */
  lemma InsideIsFull(d: Image, d': Image, id: nat, pos: nat, data: seq<byte>)
    requires Consistent(d) && UsedIn(d, id) && Wrote(d, d', id, pos, data, false)
    requires pos + |data| <= FileSize(d, id)
    ensures Wrote(d, d', id, pos, data, true)
  {
    if Dense(d, id) {
      assert Overlay(Content(d, id), pos, data) == Patched(Content(d, id), pos, data);
    }
  }

  /** The inode write that grows the file changes no other file. */
  lemma GrowOthers(e: Image, id: nat, size: nat)
    requires Consistent(e) && UsedIn(e, id) && size <= MAX_SIZE
    ensures Consistent(WithSize(e, id, size)) && UsedIn(WithSize(e, id, size), id)
    ensures OthersSame(e, WithSize(e, id, size), id)
  {
    SizeStep(e, id, size);
    SizeFields(e, id, size);
    InodeOthers(e, id, PutU32(e[InodeSector(id)], InodeOffset(id), size));
  }

  lemma SizeWrote(d: Image, id: nat, pos: nat, data: seq<byte>)
    requires Consistent(d) && UsedIn(d, id) && pos / 512 < NUM_DIRECT && pos % 512 + |data| <= 512
    requires Pointer(d, id, pos / 512) != 0 && DataSectorOf(d, id, pos) < |d|
    requires FileSize(d, id) < pos + |data|
    ensures UsedIn(WithData(d, id, pos, data), id)
    ensures Completed(d, WithSize(WithData(d, id, pos, data), id, pos + |data|), id, pos, data)
  {
    var e := WithData(d, id, pos, data);
    DataWrote(d, id, pos, data);
    GrowOthers(e, id, pos + |data|);
    OthersTrans(d, e, WithSize(e, id, pos + |data|), id);
    if Dense(d, id) && pos <= FileSize(d, id) {
      DataFields(d, id, pos, data);
      assert Content(e, id) == Overlay(Content(d, id), pos, data)[..FileSize(d, id)];
      AfterSize(e, id, pos, data, Content(d, id));
    }
    assert PointerOk(d, id, pos / 512);
    PlacedAt(d, d, WithSize(e, id, pos + |data|), id, pos, data);
  }

  lemma DataFields(d: Image, id: nat, pos: nat, data: seq<byte>)
    requires Consistent(d) && UsedIn(d, id) && pos / 512 < NUM_DIRECT && pos % 512 + |data| <= 512
    requires Pointer(d, id, pos / 512) != 0 && DataSectorOf(d, id, pos) < |d|
    ensures UsedIn(WithData(d, id, pos, data), id)
    ensures Pointer(WithData(d, id, pos, data), id, pos / 512) == Pointer(d, id, pos / 512)
    ensures WithData(d, id, pos, data)[DataSectorOf(d, id, pos)]
            == SectorOverlay(d[DataSectorOf(d, id, pos)], pos % 512, data)
  {
    assert PointerOk(d, id, pos / 512);
    FieldsElsewhere(d, DataSectorOf(d, id, pos), SectorOverlay(d[DataSectorOf(d, id, pos)], pos % 512, data), id);
  }

  /** Up to here the sectors of `e` outside the block bitmap and the inode are those of `d`, and slot
      `pos / 512` has a block; with the data, and a size that covers it, the write is placed. */
  lemma PlacedAt(d: Image, e: Image, f: Image, id: nat, pos: nat, data: seq<byte>)
    requires Consistent(d) && UsedIn(d, id) && Consistent(e) && UsedIn(e, id) && pos / 512 < NUM_DIRECT
    requires e == d[BLOCK_GROUP_SECTOR := e[BLOCK_GROUP_SECTOR]][InodeSector(id) := e[InodeSector(id)]]
    requires FileSize(e, id) == FileSize(d, id) && Pointer(e, id, pos / 512) != 0
    requires Pointer(d, id, pos / 512) == 0 || Pointer(d, id, pos / 512) == Pointer(e, id, pos / 512)
    requires forall v: nat {:trigger Pointer(e, id, v)} :: v < NUM_DIRECT && v != pos / 512 ==>
               Pointer(e, id, v) == Pointer(d, id, v)
    requires pos % 512 + |data| <= 512 && DataSectorOf(e, id, pos) < |e| && UsedIn(WithData(e, id, pos, data), id)
    requires f == if FileSize(e, id) < pos + |data| then WithSize(WithData(e, id, pos, data), id, pos + |data|)
                  else WithData(e, id, pos, data)
    ensures Placed(d, f, id, pos, data)
  {
    var w := pos / 512;
    var s := DataSectorOf(e, id, pos);
    assert PointerOk(e, id, w);
    DataFields(e, id, pos, data);
    FieldsElsewhere(e, s, SectorOverlay(e[s], pos % 512, data), id);
    if FileSize(e, id) < pos + |data| { SizeFields(WithData(e, id, pos, data), id, pos + |data|); }
    forall v | 0 <= v < NUM_DIRECT ensures Pointer(f, id, v) == Pointer(e, id, v) {
    }
    forall v | 0 <= v < NUM_DIRECT && v != w ensures SameSlot(d, f, id, v) {
      assert Apart(e, id, w, id, v) && PointerOk(e, id, v);
    }
  }

  /** Byte `p` was in the file of the old size, or is in data written from `pos` to the new end. */
  predicate OldOrNew(size: nat, pos: nat, p: nat) {
    p < size || pos <= p
  }

  /** What a write that grows the file leaves in it: the data, the old bytes before it, and between the
      old end and the data whatever the disk held at that place, if the file has a sector there at all. So
      every byte below the new size was in the old file or in the data exactly when the write does not
      start behind the end. */
  lemma GrownFile(d: Image, d': Image, id: nat, pos: nat, data: seq<byte>)
    requires Consistent(d) && UsedIn(d, id) && Dense(d, id) && FileSize(d, id) < pos + |data|
    requires Completed(d, d', id, pos, data)
    ensures |Content(d', id)| == pos + |data|
    ensures (forall p: nat :: p < FileSize(d', id) ==> OldOrNew(FileSize(d, id), pos, p)) <==> pos <= FileSize(d, id)
    ensures Dense(d', id) <==> forall v: nat {:trigger Pointer(d, id, v)} :: v < pos / 512 ==> Pointer(d, id, v) != 0
    ensures forall p {:trigger Content(d', id)[p]} :: 0 <= p < pos + |data| ==>
              GrownByte(d, d', id, pos, data, p, Content(d', id)[p])
  {
    var size := pos + |data|;
    assert OldOrNew(FileSize(d, id), pos, FileSize(d, id)) <==> pos <= FileSize(d, id);
    forall v | 0 <= v < NUM_DIRECT ensures v != pos / 512 ==> Pointer(d', id, v) == Pointer(d, id, v) {
      assert v != pos / 512 ==> SameSlot(d, d', id, v);
    }
    if forall v: nat {:trigger Pointer(d, id, v)} :: v < pos / 512 ==> Pointer(d, id, v) != 0 {
      forall v | 0 <= v < NUM_DIRECT ensures Backed(d', id, v) {
      }
    } else {
      var v: nat :| v < pos / 512 && Pointer(d, id, v) == 0;
      assert !Backed(d', id, v);
    }
    forall p | 0 <= p < size ensures GrownByte(d, d', id, pos, data, p, Content(d', id)[p]) {
      GrownAt(d, d', id, pos, data, p);
    }
  }

  ghost predicate GrownByte(d: Image, d': Image, id: nat, pos: nat, data: seq<byte>, p: nat, b: byte)
    requires Consistent(d) && UsedIn(d, id) && Formatted(d') && p < pos + |data| && pos + |data| <= MAX_SIZE
  {
    if pos <= p then b == data[p - pos]
    else if p < FileSize(d, id) then b == Content(d, id)[p]
    else Pointer(d', id, p / 512) != 0 && DataSector(d', id, p / 512) < |d| ==>
           b == d[DataSector(d', id, p / 512)][p % 512]
  }

  lemma GrownAt(d: Image, d': Image, id: nat, pos: nat, data: seq<byte>, p: nat)
    requires Consistent(d) && UsedIn(d, id) && Dense(d, id) && FileSize(d, id) < pos + |data|
    requires Completed(d, d', id, pos, data) && p < pos + |data|
    ensures GrownByte(d, d', id, pos, data, p, Content(d', id)[p])
  {
    var v := p / 512;
    assert v != pos / 512 ==> SameSlot(d, d', id, v);
    assert PointerOk(d, id, v) && PointerOk(d', id, v) && Backed(d, id, v);
    assert Content(d', id)[p] == ByteOf(d', id, p);
  }

  /** A write that starts behind the end of the file, in the sector where it ends, takes the byte that the
      disk holds at the old end into the file. */
  lemma GapByte(d: Image, id: nat, pos: nat, data: seq<byte>)
    requires Consistent(d) && UsedIn(d, id) && pos / 512 < NUM_DIRECT && pos % 512 + |data| <= 512
    requires FileSize(d, id) < pos && FileSize(d, id) / 512 == pos / 512
    requires Pointer(d, id, pos / 512) != 0 && DataSectorOf(d, id, pos) < |d|
    ensures UsedIn(WithData(d, id, pos, data), id)
    ensures var f := WithSize(WithData(d, id, pos, data), id, pos + |data|);
            && Consistent(f) && UsedIn(f, id) && |Content(f, id)| == pos + |data|
            && Content(f, id)[FileSize(d, id)] == d[DataSectorOf(d, id, pos)][FileSize(d, id) % 512]
  {
    var size := FileSize(d, id);
    DataFields(d, id, pos, data);
    DataWrote(d, id, pos, data);
    var g := WithData(d, id, pos, data);
    SizeStep(g, id, pos + |data|);
    var f := WithSize(g, id, pos + |data|);
    assert Pointer(f, id, pos / 512) == Pointer(g, id, pos / 512);
    assert PointerOk(d, id, pos / 512);
    assert Content(f, id)[size] == ByteOf(f, id, size);
  }

  /** That byte belongs to nobody: for every byte there is a disk on which this file, and all the others,
      are the same before the write, and which holds that byte there. */
  lemma UnwrittenShows(d: Image, id: nat, pos: nat, data: seq<byte>, b: byte)
    requires Consistent(d) && UsedIn(d, id) && Dense(d, id) && pos / 512 < NUM_DIRECT && pos % 512 + |data| <= 512
    requires FileSize(d, id) < pos && FileSize(d, id) / 512 == pos / 512
    requires Pointer(d, id, pos / 512) != 0 && DataSectorOf(d, id, pos) < |d|
    ensures var s := DataSectorOf(d, id, pos);
            var e := d[s := d[s][FileSize(d, id) % 512 := b]];
            && Consistent(e) && UsedIn(e, id) && OthersSame(d, e, id) && Content(e, id) == Content(d, id)
            && DataSectorOf(e, id, pos) == s && UsedIn(WithData(e, id, pos, data), id)
            && var f := WithSize(WithData(e, id, pos, data), id, pos + |data|);
               && Consistent(f) && UsedIn(f, id) && |Content(f, id)| == pos + |data|
               && Content(f, id)[FileSize(d, id)] == b
  {
    var s, size := DataSectorOf(d, id, pos), FileSize(d, id);
    var sec := d[s][size % 512 := b];
    var e := d[s := sec];
    DataContent(d, id, pos / 512, sec);
    DataOthers(d, id, pos / 512, sec);
    assert PointerOk(d, id, pos / 512);
    FieldsElsewhere(d, s, sec, id);
    forall p | 0 <= p < size ensures Content(e, id)[p] == Content(d, id)[p] {
      DataSectorInRange(d, id, p / 512);
      assert Content(d, id)[p] == ByteOf(d, id, p);
    }
    GapByte(e, id, pos, data);
  }
}
