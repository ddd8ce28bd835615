/** A disk that refuses writes and a cache that forgets. After a refused write the cache may show
    sectors that the disk never got, until it evicts them. What holds all the same: every mixture of
    what the disk has and what readers see is a consistent disk. */
module Refusals {
  import opened Bits
  import opened DiskLayout
  import opened DiskSteps
  import opened FileWrites
  import opened FileCreation
  import opened WriteStages
  import opened BlockAllocation
  import opened BufferCache

  /** The sectors of `d`, but for those in `s`, which are as in `v`. */
  function Mix(d: Image, v: Image, s: set<nat>): (m: Image)
    requires |v| == |d|
    ensures |m| == |d| && forall i {:trigger m[i]} :: 0 <= i < |d| ==> m[i] == if i in s then v[i] else d[i]
  {
    seq(|d|, i requires 0 <= i < |d| => if i in s then v[i] else d[i])
  }

  ghost function Mixtures(d: Image, v: Image): iset<Image>
    requires |v| == |d|
  {
    iset s: set<nat> {:trigger Mix(d, v, s)} | true :: Mix(d, v, s)
  }

  ghost function ConsistentImages(): iset<Image> {
    iset d: Image | Consistent(d)
  }

  /** The inodes whose bit is set. */
  function UsedBits(bitmap: Sector): set<nat> {
    set id: nat | id < BITMAP_BITS && Marked(bitmap, id)
  }

  /** The disk `d` and what readers see, `v`: every mixture is consistent. The block bitmap is not cached;
      an inode bit may be set for readers only, but not on the disk only. */
  ghost predicate Sound(d: Image, v: Image) {
    && |v| == |d| && Formatted(d)
    && v[BLOCK_GROUP_SECTOR] == d[BLOCK_GROUP_SECTOR]
    && UsedBits(d[INODE_BITMAP_SECTOR]) <= UsedBits(v[INODE_BITMAP_SECTOR])
    && Mixtures(d, v) <= ConsistentImages()
  }

  lemma SoundMixes(d: Image, v: Image)
    requires Sound(d, v)
    ensures forall s {:trigger Mix(d, v, s)} :: Consistent(Mix(d, v, s))
    ensures MoreMarked(d[INODE_BITMAP_SECTOR], v[INODE_BITMAP_SECTOR])
  {
    forall s ensures Consistent(Mix(d, v, s)) {
      assert Mix(d, v, s) in Mixtures(d, v);
    }
    forall t: nat | t < BITMAP_BITS && Marked(d[INODE_BITMAP_SECTOR], t) ensures Marked(v[INODE_BITMAP_SECTOR], t) {
      assert t in UsedBits(d[INODE_BITMAP_SECTOR]);
    }
  }

  lemma MixesSound(d: Image, v: Image)
    requires |v| == |d| && Formatted(d) && v[BLOCK_GROUP_SECTOR] == d[BLOCK_GROUP_SECTOR]
    requires MoreMarked(d[INODE_BITMAP_SECTOR], v[INODE_BITMAP_SECTOR])
    requires forall s {:trigger Mix(d, v, s)} :: Consistent(Mix(d, v, s))
    ensures Sound(d, v)
  {
  }

  /** The disk itself is one of the mixtures, and what readers see is another. */
  lemma SoundBoth(d: Image, v: Image)
    requires Sound(d, v)
    ensures Consistent(d) && Consistent(v)
  {
    SoundMixes(d, v);
    assert Mix(d, v, {}) == d;
    var changed := set i: nat | i < |d| && v[i] != d[i];
    assert Mix(d, v, changed) == v;
  }

  lemma SoundSame(d: Image)
    requires Consistent(d)
    ensures Sound(d, d)
  {
    forall s ensures Consistent(Mix(d, d, s)) {
      assert Mix(d, d, s) == d;
    }
    MixesSound(d, d);
  }

  /** What is used on the disk is used in every mixture. */
  lemma UsedInMix(d: Image, v: Image, s: set<nat>, id: nat)
    requires Sound(d, v) && UsedIn(d, id)
    ensures UsedIn(Mix(d, v, s), id) && UsedIn(v, id)
  {
    SoundMixes(d, v);
    assert Marked(v[INODE_BITMAP_SECTOR], id);
  }

  // ---------------------------------------------------------------- what the cache does by itself

  /** Evicting buffers. */
  lemma EvictSound(d: Image, v: Image, v': Image)
    requires Sound(d, v) && SameOrEvicted(v, v', d)
    ensures Sound(d, v')
  {
    SoundMixes(d, v);
    forall s ensures Consistent(Mix(d, v', s)) {
      var kept := set i | i in s && i < |v| && v'[i] == v[i];
      assert Mix(d, v', s) == Mix(d, v, kept);
    }
    MixesSound(d, v');
  }

  /** Writing a buffer to the disk. */
  lemma FlushSound(d: Image, v: Image, b: nat)
    requires Sound(d, v) && b < |d|
    ensures Sound(d[b := v[b]], v)
  {
    SoundMixes(d, v);
    var d' := d[b := v[b]];
    forall s ensures Consistent(Mix(d', v, s)) {
      assert Mix(d', v, s) == Mix(d, v, s + {b});
    }
    MixesSound(d', v);
  }

  /** Storing into a buffer. */
  lemma StoreSound(d: Image, v: Image, b: nat, x: Sector)
    requires Sound(d, v) && b < |d| && b != BLOCK_GROUP_SECTOR
    requires b == INODE_BITMAP_SECTOR ==> MoreMarked(d[b], x)
    requires forall s {:trigger Mix(d, v, s)} :: b in s ==> Consistent(Mix(d, v, s)[b := x])
    ensures Sound(d, v[b := x])
  {
    SoundMixes(d, v);
    var v' := v[b := x];
    forall s ensures Consistent(Mix(d, v', s)) {
      if b in s {
        assert Mix(d, v', s) == Mix(d, v, s)[b := x];
      } else {
        assert Mix(d, v', s) == Mix(d, v, s);
      }
    }
    MixesSound(d, v');
  }

  // ---------------------------------------------------------------- what the file system does

  lemma DataSound(d: Image, v: Image, b: nat, x: Sector)
    requires Sound(d, v) && BLOCK_START_SECTOR <= b < |d|
    ensures Sound(d, v[b := x])
  {
    SoundMixes(d, v);
    forall s ensures b in s ==> Consistent(Mix(d, v, s)[b := x]) {
      DataConsistent(Mix(d, v, s), b, x);
    }
    StoreSound(d, v, b, x);
  }

  lemma SizeSound(d: Image, v: Image, id: nat, size: nat)
    requires Sound(d, v) && UsedIn(d, id) && size <= MAX_SIZE
    ensures Sound(d, v[InodeSector(id) := PutU32(v[InodeSector(id)], InodeOffset(id), size)])
  {
    SoundMixes(d, v);
    var b := InodeSector(id);
    var x := PutU32(v[b], InodeOffset(id), size);
    forall s ensures b in s ==> Consistent(Mix(d, v, s)[b := x]) {
      UsedInMix(d, v, s, id);
      SizeStep(Mix(d, v, s), id, size);
    }
    StoreSound(d, v, b, x);
  }

  lemma MarkSound(d: Image, v: Image, bitmap: Sector)
    requires Sound(d, v) && MoreMarked(d[BLOCK_GROUP_SECTOR], bitmap)
    ensures Sound(d[BLOCK_GROUP_SECTOR := bitmap], v[BLOCK_GROUP_SECTOR := bitmap])
  {
    var d', v' := d[BLOCK_GROUP_SECTOR := bitmap], v[BLOCK_GROUP_SECTOR := bitmap];
    SoundMixes(d, v);
    forall s ensures Consistent(Mix(d', v', s)) {
      MarkStep(Mix(d, v, s), bitmap);
      assert Mix(d', v', s) == Mix(d, v, s)[BLOCK_GROUP_SECTOR := bitmap];
    }
    MixesSound(d', v');
  }

  /** A free run, marked on the disk, and then attached to a slot that readers see as null. */
  lemma AttachSound(d: Image, v: Image, id: nat, w: nat, r: nat)
    requires Sound(d, v) && UsedIn(d, id) && w < NUM_DIRECT && Pointer(v, id, w) == 0
    requires RunFree(d[BLOCK_GROUP_SECTOR], r, 2)
    ensures var bitmap := MarkRun(d[BLOCK_GROUP_SECTOR], r, 2);
            var d', v' := d[BLOCK_GROUP_SECTOR := bitmap], v[BLOCK_GROUP_SECTOR := bitmap];
            && Sound(d', v')
            && Sound(d', v'[InodeSector(id) :=
                              PutU32(v'[InodeSector(id)], PointerOffset(id, w), r + BLOCK_START_SECTOR)])
  {
    SoundMixes(d, v);
    var bitmap := MarkRun(d[BLOCK_GROUP_SECTOR], r, 2);
    forall t: nat | t < BITMAP_BITS
      ensures Marked(bitmap, t) <==> r <= t < r + 2 || Marked(d[BLOCK_GROUP_SECTOR], t)
    {
      MarkRunMarks(d[BLOCK_GROUP_SECTOR], r, 2, t);
    }
    MarkSound(d, v, bitmap);
    SoundMixes(d[BLOCK_GROUP_SECTOR := bitmap], v[BLOCK_GROUP_SECTOR := bitmap]);
    var d', v' := d[BLOCK_GROUP_SECTOR := bitmap], v[BLOCK_GROUP_SECTOR := bitmap];
    var b, p := InodeSector(id), r + BLOCK_START_SECTOR;
    var x := PutU32(v'[b], PointerOffset(id, w), p);
    forall s ensures b in s ==> Consistent(Mix(d', v', s)[b := x]) {
      if b in s {
        var m := Mix(d, v, s);
        assert Mix(d', v', s) == m[BLOCK_GROUP_SECTOR := bitmap];
        assert !Marked(m[BLOCK_GROUP_SECTOR], r) && !Marked(m[BLOCK_GROUP_SECTOR], r + 1);
        UnmarkedUnowned(m, r);
        StillUnowned(m, bitmap, p);
        UsedInMix(d', v', s, id);
        PointStep(Mix(d', v', s), id, w, p);
      }
    }
    StoreSound(d', v', b, x);
  }

  lemma InitSound(d: Image, v: Image, id: nat, x: Sector)
    requires Sound(d, v) && id < BITMAP_BITS && !InodeUsed(v, id)
    requires OnlyInode(v[InodeSector(id)], x, InodeOffset(id))
    ensures Sound(d, v[InodeSector(id) := x])
  {
    SoundMixes(d, v);
    var b := InodeSector(id);
    assert !Marked(v[INODE_BITMAP_SECTOR], id);
    forall s ensures b in s ==> Consistent(Mix(d, v, s)[b := x]) {
      assert !InodeUsed(Mix(d, v, s), id);
      if b in s { InitStep(Mix(d, v, s), id, x); }
    }
    StoreSound(d, v, b, x);
  }

  /** The bit is set for readers once the disk has the blank inode. */
  lemma UseSound(d: Image, v: Image, id: nat)
    requires Sound(d, v) && id < BITMAP_BITS && !InodeUsed(v, id)
    requires BlankInode(v[InodeSector(id)], InodeOffset(id)) && v[InodeSector(id)] == d[InodeSector(id)]
    ensures Sound(d, v[INODE_BITMAP_SECTOR := MarkOne(v[INODE_BITMAP_SECTOR], id)])
  {
    SoundMixes(d, v);
    var b := INODE_BITMAP_SECTOR;
    var x := MarkOne(v[b], id);
    forall t: nat | t < BITMAP_BITS ensures Marked(x, t) <==> t == id || Marked(v[b], t) {
      MarkOneMarks(v[b], id, t);
    }
    forall s ensures b in s ==> Consistent(Mix(d, v, s)[b := x]) {
      if b in s {
        var m := Mix(d, v, s);
        assert m[InodeSector(id)] == d[InodeSector(id)];
        BlankFields(m, id);
        UseConsistent(m, id);
      }
    }
    StoreSound(d, v, b, x);
  }
}
