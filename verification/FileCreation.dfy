/** What the two sector writes of create_file do to the disk: first the inode, then its bit. */
module FileCreation {
  import opened Bits
  import opened DiskLayout
  import opened DiskSteps
  import opened FileWrites
  import opened BlockAllocation

  /** Word `w` of the block pointers of the inode at `off` is null. */
  predicate NullWord(sec: Sector, off: nat, w: nat)
    requires off + INODE_SIZE <= 512 && w < 12
  {
    U32At(sec, off + 16 + 4 * w) == 0
  }

  /** A freshly initialised inode: size zero and no blocks, direct or indirect. */
  predicate BlankInode(sec: Sector, off: nat)
    requires off + INODE_SIZE <= 512
  {
    U32At(sec, off) == 0 && forall w {:trigger NullWord(sec, off, w)} :: 0 <= w < 12 ==> NullWord(sec, off, w)
  }

  /** A blank inode with its reserved word, its two time stamps and, when it is not too long, its name. */
  predicate NewInode(sec: Sector, off: nat, name: seq<byte>)
    requires off + INODE_SIZE <= 512
  {
    && BlankInode(sec, off)
    && U32At(sec, off + 4) == 0 && U32At(sec, off + 8) == 0 && U32At(sec, off + 12) == 0xDEADBEEF
    && (|name| <= 63 ==> sec[off + 64] == |name| && sec[off + 65..off + 65 + |name|] == name)
  }

  /** Rewriting an inode that is not in use shows in no file. */
  lemma InitStep(d: Image, id: nat, sec: Sector)
    requires Consistent(d) && id < BITMAP_BITS && !InodeUsed(d, id)
    requires OnlyInode(d[InodeSector(id)], sec, InodeOffset(id))
    ensures Consistent(d[InodeSector(id) := sec]) && OthersSame(d, d[InodeSector(id) := sec], id)
  {
    var d' := d[InodeSector(id) := sec];
    InodeOthers(d, id, sec);
    forall x | 0 <= x < BITMAP_BITS && InodeUsed(d', x) ensures SizeOk(d', x) {
      assert SizeOk(d, x);
      InodeOtherFields(d, id, sec, x);
    }
    forall x, v | 0 <= x < BITMAP_BITS && InodeUsed(d', x) && 0 <= v < NUM_DIRECT ensures PointerOk(d', x, v) {
      assert PointerOk(d, x, v);
      InodeOtherFields(d, id, sec, x);
    }
    forall x, v, x', v' | 0 <= x < BITMAP_BITS && InodeUsed(d', x) && 0 <= v < NUM_DIRECT &&
                          0 <= x' < BITMAP_BITS && InodeUsed(d', x') && 0 <= v' < NUM_DIRECT
      ensures Apart(d', x, v, x', v')
    {
      assert Apart(d, x, v, x', v');
      InodeOtherFields(d, id, sec, x);
      InodeOtherFields(d, id, sec, x');
    }
  }

  function WithUsed(d: Image, id: nat): Image
    requires Formatted(d) && id < BITMAP_BITS
  {
    d[INODE_BITMAP_SECTOR := MarkOne(d[INODE_BITMAP_SECTOR], id)]
  }

  lemma UsedFields(d: Image, id: nat, x: nat)
    requires Formatted(d) && id < BITMAP_BITS && x < BITMAP_BITS
    ensures InodeUsed(WithUsed(d, id), x) <==> x == id || InodeUsed(d, x)
    ensures FileSize(WithUsed(d, id), x) == FileSize(d, x)
    ensures forall w: nat :: w < NUM_DIRECT ==> Pointer(WithUsed(d, id), x, w) == Pointer(d, x, w)
  {
    MarkOneMarks(d[INODE_BITMAP_SECTOR], id, x);
    FieldsElsewhere(d, INODE_BITMAP_SECTOR, MarkOne(d[INODE_BITMAP_SECTOR], id), x);
  }

  lemma BlankFields(d: Image, id: nat)
    requires Formatted(d) && id < BITMAP_BITS && BlankInode(d[InodeSector(id)], InodeOffset(id))
    ensures FileSize(d, id) == 0
    ensures forall w: nat :: w < NUM_DIRECT ==> Pointer(d, id, w) == 0
  {
    forall w: nat | w < NUM_DIRECT ensures Pointer(d, id, w) == 0 {
      assert NullWord(d[InodeSector(id)], InodeOffset(id), w);
    }
  }

  /** Setting the bit of a blank inode makes it an empty file and changes no other file. */
  lemma UseStep(d: Image, id: nat)
    requires Consistent(d) && id < BITMAP_BITS && !InodeUsed(d, id)
    requires BlankInode(d[InodeSector(id)], InodeOffset(id))
    ensures Consistent(WithUsed(d, id)) && OthersSame(d, WithUsed(d, id), id)
    ensures InodeUsed(WithUsed(d, id), id) && Dense(WithUsed(d, id), id) && Content(WithUsed(d, id), id) == []
  {
    var d' := WithUsed(d, id);
    BlankFields(d, id);
    UsedFields(d, id, id);
    UseConsistent(d, id);
    forall x | 0 <= x < BITMAP_BITS && x != id && InodeUsed(d, x) ensures InodeUsed(d', x) && SameFile(d, d', x) {
      UsedFields(d, id, x);
      forall w | 0 <= w < NUM_DIRECT ensures SameSlot(d, d', x, w) {
        DataSectorInRange(d, x, w);
      }
    }
    forall w | 0 <= w < NUM_DIRECT ensures Backed(d', id, w) {
    }
  }

  lemma UseConsistent(d: Image, id: nat)
    requires Consistent(d) && id < BITMAP_BITS && !InodeUsed(d, id)
    requires FileSize(d, id) == 0 && forall w: nat :: w < NUM_DIRECT ==> Pointer(d, id, w) == 0
    ensures Consistent(WithUsed(d, id))
  {
    var d' := WithUsed(d, id);
    forall x | 0 <= x < BITMAP_BITS && InodeUsed(d', x) ensures SizeOk(d', x) {
      UsedFields(d, id, x);
      if x != id { assert SizeOk(d, x); }
    }
    forall x, v | 0 <= x < BITMAP_BITS && InodeUsed(d', x) && 0 <= v < NUM_DIRECT ensures PointerOk(d', x, v) {
      UsedFields(d, id, x);
      if x != id { assert PointerOk(d, x, v); }
    }
    forall x, v, x', v' | 0 <= x < BITMAP_BITS && InodeUsed(d', x) && 0 <= v < NUM_DIRECT &&
                          0 <= x' < BITMAP_BITS && InodeUsed(d', x') && 0 <= v' < NUM_DIRECT
      ensures Apart(d', x, v, x', v')
    {
      UsedFields(d, id, x);
      UsedFields(d, id, x');
      if x != id && x' != id { assert Apart(d, x, v, x', v'); }
    }
  }

  /** What the disk may hold at any moment of create_file: no trace of the new file, or the new file,
      empty and named. A set bit always means an initialised inode. Other files never change. */
  ghost predicate CreateOk(d: Image, d': Image, id: nat, name: seq<byte>)
    requires Consistent(d) && id < BITMAP_BITS
  {
    && Consistent(d') && OthersSame(d, d', id)
    && (d'[INODE_BITMAP_SECTOR] == d[INODE_BITMAP_SECTOR]
        || d'[INODE_BITMAP_SECTOR] == MarkOne(d[INODE_BITMAP_SECTOR], id))
    && (InodeUsed(d', id) ==>
          Dense(d', id) && Content(d', id) == [] && NewInode(d'[InodeSector(id)], InodeOffset(id), name))
  }

  ghost function CreateStates(d: Image, id: nat, name: seq<byte>): iset<Image>
    requires Consistent(d) && id < BITMAP_BITS
  {
    iset d': Image | CreateOk(d, d', id, name)
  }

  /** The first write of create_file. */
  lemma InitState(d: Image, id: nat, sec: Sector, name: seq<byte>)
    requires Consistent(d) && id < BITMAP_BITS && !InodeUsed(d, id)
    requires OnlyInode(d[InodeSector(id)], sec, InodeOffset(id))
    ensures d[InodeSector(id) := sec] in CreateStates(d, id, name)
    ensures Consistent(d[InodeSector(id) := sec]) && OthersSame(d, d[InodeSector(id) := sec], id)
  {
    InitStep(d, id, sec);
  }

  /** The second. */
  lemma UseState(d: Image, d': Image, id: nat, name: seq<byte>)
    requires Consistent(d) && Consistent(d') && id < BITMAP_BITS && !InodeUsed(d', id)
    requires NewInode(d'[InodeSector(id)], InodeOffset(id), name) && OthersSame(d, d', id)
    requires d'[INODE_BITMAP_SECTOR] == d[INODE_BITMAP_SECTOR]
    ensures WithUsed(d', id) in CreateStates(d, id, name) && InodeUsed(WithUsed(d', id), id)
  {
    UseStep(d', id);
    OthersTrans(d, d', WithUsed(d', id), id);
  }

  // ---------------------------------------------------------------- searching the inode bitmap

  /** The first clear bit; bytes that are full are skipped whole. */
  method FindClearBit(bitmap: Sector) returns (found: bool, id: nat)
    ensures found ==> id < BITMAP_BITS && !Marked(bitmap, id) && forall x :: 0 <= x < id ==> Marked(bitmap, x)
    ensures !found ==> forall x :: 0 <= x < BITMAP_BITS ==> Marked(bitmap, x)
  {
    var i: nat := 0;
    while i < 512
      invariant 0 <= i <= 512
      invariant forall x {:trigger Marked(bitmap, x)} :: 0 <= x < 8 * i ==> Marked(bitmap, x)
    {
      var b: nat := bitmap[i];
      if b == 0xFF {
        FullByte(bitmap, i);
      } else {
        var j: nat := 0;
        while j < 8
          invariant 0 <= j <= 8
          invariant forall x {:trigger Marked(bitmap, x)} :: 0 <= x < 8 * i + j ==> Marked(bitmap, x)
        {
          assert (8 * i + j) / 8 == i && (8 * i + j) % 8 == j;
          if !Bit(b, j) {
            return true, i * 8 + j;
          }
          assert Marked(bitmap, 8 * i + j);
          j := j + 1;
        }
      }
      i := i + 1;
    }
    return false, 0;
  }

  lemma FullByte(bitmap: Sector, i: nat)
    requires i < 512 && bitmap[i] == 0xFF
    ensures forall x {:trigger Marked(bitmap, x)} :: 8 * i <= x < 8 * i + 8 ==> Marked(bitmap, x)
  {
    forall x: nat | 8 * i <= x < 8 * i + 8 ensures Marked(bitmap, x) {
      assert x / 8 == i;
      ByteOnes(x % 8);
    }
  }

  // ---------------------------------------------------------------- filling in the inode

  /** set_name: a name of more than 63 bytes is refused and leaves the old one. */
  method SetName(sec: Sector, off: nat, name: seq<byte>) returns (sec': Sector, ok: bool)
    requires off + INODE_SIZE <= 512
    ensures ok <==> |name| <= 63
    ensures ok ==> sec'[off + 64] == |name| && sec'[off + 65..off + 65 + |name|] == name
    ensures !ok ==> sec' == sec
    ensures forall i :: 0 <= i < 512 && !(off + 64 <= i < off + 128) ==> sec'[i] == sec[i]
  {
    sec' := sec;
    if |name| > 63 {
      return sec', false;
    }
    sec' := sec'[off + 64 := |name|];
    var i := 0;
    while i < |name|
      invariant 0 <= i <= |name|
      invariant sec'[off + 64] == |name| && sec'[off + 65..off + 65 + i] == name[..i]
      invariant forall k :: 0 <= k < 512 && !(off + 64 <= k < off + 128) ==> sec'[k] == sec[k]
    {
      sec' := sec'[off + 65 + i := name[i]];
      assert name[..i + 1] == name[..i] + [name[i]];
      assert sec'[off + 65..off + 65 + (i + 1)] == sec'[off + 65..off + 65 + i] + [name[i]];
      i := i + 1;
    }
    return sec', true;
  }

  /** The assignments of create_file to the new inode. */
  method InitInode(sec: Sector, off: nat, name: seq<byte>) returns (sec': Sector)
    requires off + INODE_SIZE <= 512
    ensures OnlyInode(sec, sec', off) && NewInode(sec', off, name)
  {
    PutU32RoundTrip(sec, off + 8, 0);
    sec' := PutU32(sec, off + 8, 0);
    PutU32RoundTrip(sec', off, 0);
    sec' := PutU32(sec', off, 0);
    PutU32RoundTrip(sec', off + 12, 0xDEADBEEF);
    sec' := PutU32(sec', off + 12, 0xDEADBEEF);
    PutU32RoundTrip(sec', off + 4, 0);
    sec' := PutU32(sec', off + 4, 0);
    sec' := ClearWords(sec', off);
    ghost var before := sec';
    var named;
    sec', named := SetName(sec', off, name);
    forall w | 0 <= w < 12 ensures NullWord(sec', off, w) {
      assert NullWord(before, off, w);
    }
    assert U32At(sec', off) == U32At(before, off) && U32At(sec', off + 4) == U32At(before, off + 4);
    assert U32At(sec', off + 8) == U32At(before, off + 8) && U32At(sec', off + 12) == U32At(before, off + 12);
  }

  /** The nine direct blocks and the three indirect ones. */
  method ClearWords(sec: Sector, off: nat) returns (sec': Sector)
    requires off + INODE_SIZE <= 512
    ensures forall i :: 0 <= i < 512 && !(off + 16 <= i < off + 64) ==> sec'[i] == sec[i]
    ensures forall w {:trigger NullWord(sec', off, w)} :: 0 <= w < 12 ==> NullWord(sec', off, w)
  {
    sec' := sec;
    var w := 0;
    while w < 12
      invariant 0 <= w <= 12
      invariant forall i :: 0 <= i < 512 && !(off + 16 <= i < off + 64) ==> sec'[i] == sec[i]
      invariant forall v {:trigger NullWord(sec', off, v)} :: 0 <= v < w ==> NullWord(sec', off, v)
    {
      PutU32RoundTrip(sec', off + 16 + 4 * w, 0);
      ghost var before := sec';
      sec' := PutU32(sec', off + 16 + 4 * w, 0);
      forall v | 0 <= v < w ensures NullWord(sec', off, v) {
        assert NullWord(before, off, v);
      }
      w := w + 1;
    }
  }
}
