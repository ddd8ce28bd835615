/** What the sectors of a WNFS disk mean: bitmaps, inodes, and the bytes of each file. */
module DiskLayout {
  import opened Bits

  type byte = x: nat | x < 0x100
  type Sector = s: seq<byte> | |s| == 512 witness seq(512, i => 0)

  const SECTOR_SIZE: nat := 512
  const INODE_SIZE: nat := 128
  const NUM_DIRECT: nat := 9
  const BLOCK_GROUP_SECTOR: nat := 74
  const INODE_BITMAP_SECTOR: nat := 82
  const INODES_SECTOR: nat := 84
  const BLOCK_START_SECTOR: nat := 2132
  /** What one bitmap sector can name. */
  const BITMAP_BITS: nat := 4096
  const MAX_SIZE: nat := NUM_DIRECT * SECTOR_SIZE

  function InodeSector(id: nat): nat { id / 4 + INODES_SECTOR }
  function InodeOffset(id: nat): nat { (id % 4) * INODE_SIZE }

  // ---------------------------------------------------------------- words in a sector

  function U32At(s: Sector, off: nat): (v: nat)
    requires off + 4 <= 512
    ensures v < WORD
  {
    var b0: int, b1: int, b2: int, b3: int := s[off], s[off + 1], s[off + 2], s[off + 3];
    b0 + 0x100 * b1 + 0x1_0000 * b2 + 0x100_0000 * b3
  }

  function PutU32(s: Sector, off: nat, v: nat): Sector
    requires off + 4 <= 512 && v < WORD
  {
    s[off := v % 0x100][off + 1 := v / 0x100 % 0x100][off + 2 := v / 0x1_0000 % 0x100][off + 3 := v / 0x100_0000]
  }

  lemma Digits(v: nat)
    ensures v % 0x100 + 0x100 * (v / 0x100 % 0x100) + 0x1_0000 * (v / 0x1_0000 % 0x100)
            + 0x100_0000 * (v / 0x100_0000) == v
  {
    assert v / 0x1_0000 == (v / 0x100) / 0x100;
    assert v / 0x100_0000 == (v / 0x1_0000) / 0x100;
  }

  /** A stored word reads back, and storing it disturbs no byte outside it. */
  lemma PutU32RoundTrip(s: Sector, off: nat, v: nat)
    requires off + 4 <= 512 && v < WORD
    ensures U32At(PutU32(s, off, v), off) == v
    ensures forall i :: 0 <= i < 512 && !(off <= i < off + 4) ==> PutU32(s, off, v)[i] == s[i]
    ensures forall o: nat :: o + 4 <= 512 && (o + 4 <= off || off + 4 <= o) ==>
              U32At(PutU32(s, off, v), o) == U32At(s, o)
  {
    Digits(v);
  }

  // ---------------------------------------------------------------- inodes and files

  type Image = seq<Sector>

  predicate Formatted(d: Image) {
    |d| >= BLOCK_START_SECTOR + BITMAP_BITS
  }

  predicate InodeUsed(d: Image, id: nat)
    requires Formatted(d) && id < BITMAP_BITS
  {
    Bit(d[INODE_BITMAP_SECTOR][id / 8], id % 8)
  }

  /** Sector `BLOCK_START_SECTOR + s` is marked as allocated. */
  predicate Marked(bitmap: Sector, s: nat)
    requires s < BITMAP_BITS
  {
    Bit(bitmap[s / 8], s % 8)
  }

  function FileSize(d: Image, id: nat): nat
    requires Formatted(d) && id < BITMAP_BITS
  {
    U32At(d[InodeSector(id)], InodeOffset(id))
  }

  function PointerOffset(id: nat, w: nat): nat { InodeOffset(id) + 16 + 4 * w }

  function Pointer(d: Image, id: nat, w: nat): nat
    requires Formatted(d) && id < BITMAP_BITS && w < NUM_DIRECT
  {
    U32At(d[InodeSector(id)], PointerOffset(id, w))
  }

  /** A block is two sectors; slot `w` of the pointers serves the 512 bytes from `512 * w`, kept in
      the block's first or second sector by the parity of `w`. */
  function DataSector(d: Image, id: nat, w: nat): nat
    requires Formatted(d) && id < BITMAP_BITS && w < NUM_DIRECT
  {
    Pointer(d, id, w) + w % 2
  }

  /** The layout in numbers: the inode bitmap in sector 82, four inodes of 128 bytes to a sector from sector
      84 on, the size in the first little-endian word of the inode, the nine block pointers from byte 16. */
  lemma InodeWords(d: Image, id: nat)
    requires Formatted(d) && id < BITMAP_BITS
    ensures InodeUsed(d, id) <==> Bit(d[82][id / 8], id % 8)
    ensures var inode, o := d[84 + id / 4], 128 * (id % 4);
            && FileSize(d, id) ==
                 (inode[o] as int) + 0x100 * (inode[o + 1] as int) + 0x1_0000 * (inode[o + 2] as int)
                 + 0x100_0000 * (inode[o + 3] as int)
            && forall w: nat {:trigger Pointer(d, id, w)} :: w < 9 ==>
                 var p := o + 16 + 4 * w;
                 Pointer(d, id, w) ==
                   (inode[p] as int) + 0x100 * (inode[p + 1] as int) + 0x1_0000 * (inode[p + 2] as int)
                   + 0x100_0000 * (inode[p + 3] as int)
  {
  }

  /** The block bitmap is sector 74, and its bits are the sectors from 2132 on. */
  lemma BlockBits(d: Image, s: nat)
    requires Formatted(d) && 2132 <= s < 2132 + 4096
    ensures BLOCK_START_SECTOR == 2132 && BITMAP_BITS == 4096
    ensures Marked(d[BLOCK_GROUP_SECTOR], s - 2132) <==> Bit(d[74][(s - 2132) / 8], (s - 2132) % 8)
  {
  }

  // ---------------------------------------------------------------- a consistent disk

  /** A pointer is null, or names two marked sectors of the block area. */
  predicate PointerOk(d: Image, id: nat, w: nat)
    requires Formatted(d) && id < BITMAP_BITS && w < NUM_DIRECT
  {
    var p := Pointer(d, id, w);
    p == 0 || (BLOCK_START_SECTOR <= p && p + 1 < BLOCK_START_SECTOR + BITMAP_BITS &&
               Marked(d[BLOCK_GROUP_SECTOR], p - BLOCK_START_SECTOR) &&
               Marked(d[BLOCK_GROUP_SECTOR], p - BLOCK_START_SECTOR + 1))
  }

  /** Two different slots do not share a sector. */
  predicate Apart(d: Image, id: nat, w: nat, id': nat, w': nat)
    requires Formatted(d) && id < BITMAP_BITS && w < NUM_DIRECT && id' < BITMAP_BITS && w' < NUM_DIRECT
  {
    var p, p' := Pointer(d, id, w), Pointer(d, id', w');
    (id != id' || w != w') && p != 0 && p' != 0 ==> p + 2 <= p' || p' + 2 <= p
  }

  predicate SizeOk(d: Image, id: nat)
    requires Formatted(d) && id < BITMAP_BITS
  {
    FileSize(d, id) <= MAX_SIZE
  }

  ghost predicate Consistent(d: Image) {
    && Formatted(d)
    && (forall id {:trigger SizeOk(d, id)} :: 0 <= id < BITMAP_BITS && InodeUsed(d, id) ==> SizeOk(d, id))
    && (forall id, w {:trigger PointerOk(d, id, w)} ::
          0 <= id < BITMAP_BITS && InodeUsed(d, id) && 0 <= w < NUM_DIRECT ==> PointerOk(d, id, w))
    && (forall id, w, id', w' {:trigger Apart(d, id, w, id', w')} ::
          (0 <= id < BITMAP_BITS && InodeUsed(d, id) && 0 <= w < NUM_DIRECT &&
           0 <= id' < BITMAP_BITS && InodeUsed(d, id') && 0 <= w' < NUM_DIRECT) ==> Apart(d, id, w, id', w'))
  }

  /** The file has a sector for every byte below its size. */
  predicate Backed(d: Image, id: nat, w: nat)
    requires Formatted(d) && id < BITMAP_BITS && w < NUM_DIRECT
  {
    512 * w < FileSize(d, id) ==> Pointer(d, id, w) != 0
  }

  ghost predicate Dense(d: Image, id: nat)
    requires Formatted(d) && id < BITMAP_BITS
  {
    forall w {:trigger Backed(d, id, w)} :: 0 <= w < NUM_DIRECT ==> Backed(d, id, w)
  }

  lemma DataSectorInRange(d: Image, id: nat, w: nat)
    requires Consistent(d) && id < BITMAP_BITS && InodeUsed(d, id) && w < NUM_DIRECT
    ensures DataSector(d, id, w) < |d|
    ensures Pointer(d, id, w) != 0 ==> DataSector(d, id, w) >= BLOCK_START_SECTOR
  {
    assert PointerOk(d, id, w);
  }

  function ByteOf(d: Image, id: nat, p: nat): byte
    requires Formatted(d) && id < BITMAP_BITS && p < MAX_SIZE
    requires DataSector(d, id, p / 512) < |d|
  {
    d[DataSector(d, id, p / 512)][p % 512]
  }

  /** The bytes of a file. */
  ghost function Content(d: Image, id: nat): (c: seq<byte>)
    requires Consistent(d) && id < BITMAP_BITS && InodeUsed(d, id)
    ensures |c| == FileSize(d, id) <= MAX_SIZE
    ensures forall p {:trigger c[p]} :: 0 <= p < |c| ==>
              DataSector(d, id, p / 512) < |d| && c[p] == ByteOf(d, id, p)
  {
    assert SizeOk(d, id);
    forall w: nat | w < NUM_DIRECT ensures DataSector(d, id, w) < |d| { DataSectorInRange(d, id, w); }
    seq(FileSize(d, id), p requires 0 <= p < FileSize(d, id) => ByteOf(d, id, p))
  }

  /** Byte `p` of a file, in the numbers of the layout: the word of the inode for its 512 bytes names a block,
      and the byte is in the block's first or second sector. */
  lemma ContentOnDisk(d: Image, id: nat, p: nat)
    requires Consistent(d) && id < BITMAP_BITS && InodeUsed(d, id)
    ensures var inode, o := d[84 + id / 4], 128 * (id % 4);
            && |Content(d, id)| ==
                 (inode[o] as int) + 0x100 * (inode[o + 1] as int) + 0x1_0000 * (inode[o + 2] as int)
                 + 0x100_0000 * (inode[o + 3] as int)
            && (p < |Content(d, id)| ==>
                  var w := o + 16 + 4 * (p / 512);
                  w + 4 <= 512 &&
                  var q := (inode[w] as int) + 0x100 * (inode[w + 1] as int) + 0x1_0000 * (inode[w + 2] as int)
                           + 0x100_0000 * (inode[w + 3] as int);
                  q + p / 512 % 2 < |d| && Content(d, id)[p] == d[q + p / 512 % 2][p % 512])
  {
    InodeWords(d, id);
    if p < |Content(d, id)| {
      DataSectorInRange(d, id, p / 512);
      assert Content(d, id)[p] == ByteOf(d, id, p);
    }
  }

  // ---------------------------------------------------------------- what a write leaves alone

  predicate SameSlot(d: Image, d': Image, id: nat, w: nat)
    requires Formatted(d) && Formatted(d') && id < BITMAP_BITS && w < NUM_DIRECT
  {
    Pointer(d', id, w) == Pointer(d, id, w)
    && (Pointer(d, id, w) != 0 && DataSector(d, id, w) < |d| == |d'| ==>
          d'[DataSector(d, id, w)] == d[DataSector(d, id, w)])
  }

  /** The file has the same size, the same pointers, and the same bytes in its sectors. */
  ghost predicate SameFile(d: Image, d': Image, id: nat)
    requires Formatted(d) && Formatted(d') && id < BITMAP_BITS
  {
    |d'| == |d| && FileSize(d', id) == FileSize(d, id)
    && forall w {:trigger SameSlot(d, d', id, w)} :: 0 <= w < NUM_DIRECT ==> SameSlot(d, d', id, w)
  }

  lemma SameFileContent(d: Image, d': Image, id: nat)
    requires Consistent(d) && Consistent(d') && id < BITMAP_BITS && InodeUsed(d, id) && InodeUsed(d', id)
    requires SameFile(d, d', id) && Dense(d, id)
    ensures Dense(d', id) && Content(d', id) == Content(d, id)
  {
    forall w | 0 <= w < NUM_DIRECT ensures Backed(d', id, w) {
      assert SameSlot(d, d', id, w) && Backed(d, id, w);
    }
    var c, c' := Content(d, id), Content(d', id);
    forall p | 0 <= p < |c| ensures c'[p] == c[p] {
      var w := p / 512;
      assert SameSlot(d, d', id, w) && Backed(d, id, w) && PointerOk(d, id, w);
    }
  }

  /** Every used inode but `id` is the same file. */
  ghost predicate OthersSame(d: Image, d': Image, id: nat)
    requires Formatted(d) && Formatted(d')
  {
    forall x {:trigger SameFile(d, d', x)} :: 0 <= x < BITMAP_BITS && x != id && InodeUsed(d, x) ==>
      InodeUsed(d', x) && SameFile(d, d', x)
  }
}
