/** The write-back sector cache in front of the disk. */
module BufferCache {
  import opened Bits
  import opened DiskLayout

  const NUM_BUFS: nat := 8
  /** The mark of a buffer that holds no sector. */
  const NO_SECTOR: nat := 0xFFFF_FFFF

  /** A disk that may refuse a transfer; a transfer happens whole or not at all. `faults` scripts the
      refusals. `history` is the contents after each write, for reasoning about crashes. */
  class Disk {
    var sectors: Image
    var faults: seq<bool>
    ghost var history: seq<Image>
    var lost: bool

    method NextFault() returns (fault: bool)
      modifies this`faults
      ensures old(faults) == [] ==> !fault && faults == []
    {
      if faults == [] { return false; }
      fault := faults[0];
      faults := faults[1..];
    }

    method Read(sector: nat) returns (ok: bool, data: Sector)
      modifies this`faults
      ensures ok ==> sector < |sectors| && data == sectors[sector]
      ensures old(faults) == [] ==> faults == [] && (sector < |sectors| ==> ok)
    {
      data := seq(512, i => 0);
      var fault := NextFault();
      if fault || sector >= |sectors| { return false, data; }
      return true, sectors[sector];
    }

    method Write(sector: nat, data: Sector) returns (ok: bool)
      modifies this
      ensures ok ==> sector < |old(sectors)| && sectors == old(sectors)[sector := data]
      ensures ok ==> history == old(history) + [sectors] && lost == old(lost)
      ensures !ok ==> sectors == old(sectors) && history == old(history) && lost
      ensures old(faults) == [] ==> faults == [] && (sector < |old(sectors)| ==> ok)
    {
      var fault := NextFault();
      if fault || sector >= |sectors| {
        lost := true;
        return false;
      }
      sectors := sectors[sector := data];
      history := history + [sectors];
      return true;
    }
  }

  // ---------------------------------------------------------------- one-byte masks

  function SetBit(mask: nat, b: nat): (r: nat)
    ensures forall i: nat :: Bit(r, i) <==> i == b || Bit(mask, i)
  {
    forall i: nat ensures Bit(Or(mask, Pow2(b)), i) <==> i == b || Bit(mask, i) {
      OrBit(mask, Pow2(b), i);
      ShiftBit(b, i);
    }
    Or(mask, Pow2(b))
  }

  function ClearBit(mask: nat, b: nat): (r: nat)
    ensures forall i: nat :: Bit(r, i) <==> i != b && Bit(mask, i)
  {
    forall i: nat ensures Bit(AndNot(mask, Pow2(b)), i) <==> i != b && Bit(mask, i) {
      AndNotBit(mask, Pow2(b), i);
      ShiftBit(b, i);
    }
    AndNot(mask, Pow2(b))
  }

  /** What release_buffer does to the free mask: it flips. A buffer becomes free exactly when it was
      held; releasing one that is already free would hold it for ever. */
  function FlipBit(mask: nat, b: nat): (r: nat)
    ensures forall i: nat :: i != b ==> (Bit(r, i) <==> Bit(mask, i))
    ensures Bit(r, b) <==> !Bit(mask, b)
  {
    forall i: nat ensures Bit(Xor(mask, Pow2(b)), i) <==> Bit(mask, i) != (i == b) {
      XorBit(mask, Pow2(b), i);
      ShiftBit(b, i);
    }
    Xor(mask, Pow2(b))
  }

  /** Grabbing a free buffer and releasing it restores the mask. */
  lemma GrabRelease(mask: nat, b: nat)
    requires Bit(mask, b)
    ensures FlipBit(ClearBit(mask, b), b) == mask
  {
    var r := FlipBit(ClearBit(mask, b), b);
    forall i: nat ensures Bit(r, i) == Bit(mask, i) {
    }
    BitsDetermine(r, mask);
  }

  /** With two references to one buffer the first release frees it under the second, and the second
      leaves it held for ever. That is why no operation may hold a buffer twice. */
  lemma GrabTwice(mask: nat, b: nat)
    requires Bit(mask, b)
    ensures var twice := ClearBit(ClearBit(mask, b), b);
            Bit(FlipBit(twice, b), b) && FlipBit(FlipBit(twice, b), b) == ClearBit(mask, b)
  {
    var twice := ClearBit(ClearBit(mask, b), b);
    var r := FlipBit(FlipBit(twice, b), b);
    forall i: nat ensures Bit(r, i) == Bit(ClearBit(mask, b), i) {
    }
    BitsDetermine(r, ClearBit(mask, b));
  }

  /** Every sector is as before in what readers see, or as on the disk. */
  predicate SameOrEvicted(before: Image, after: Image, disk: Image) {
    |before| == |after| == |disk| &&
    forall s {:trigger after[s]} :: 0 <= s < |after| ==> after[s] == before[s] || after[s] == disk[s]
  }

  // ---------------------------------------------------------------- the cache

  class BufCache {
    const disk: Disk
    const bufSectors: array<nat>
    const buffer: array<Sector>
    var dirtyMask: nat
    var freeMask: nat
    /** What a reader of each sector sees: the buffer that has it, held or free, or else the disk. */
    ghost var seen: Image

    predicate Held(b: nat)
      reads this`freeMask
    {
      !Bit(freeMask, b)
    }

    predicate Dirty(b: nat)
      reads this`dirtyMask
    {
      Bit(dirtyMask, b)
    }

    /** A tagged buffer names a sector of the disk; a clean one equals it, unless the disk has refused
        a write; a dirty one is held. */
    ghost predicate BufOk(b: nat)
      requires b < NUM_BUFS == bufSectors.Length == buffer.Length
      reads this, bufSectors, buffer, disk
    {
      && (bufSectors[b] == NO_SECTOR || bufSectors[b] < |disk.sectors|)
      && (Dirty(b) ==> Held(b))
      && (Held(b) ==> bufSectors[b] != NO_SECTOR)
      && (bufSectors[b] != NO_SECTOR && !Dirty(b) && !disk.lost ==> buffer[b] == disk.sectors[bufSectors[b]])
      && (bufSectors[b] != NO_SECTOR && |seen| == |disk.sectors| ==> seen[bufSectors[b]] == buffer[b])
    }

    /** No buffer has the sector. */
    ghost predicate Uncached(s: nat)
      requires bufSectors.Length == NUM_BUFS
      reads bufSectors
    {
      forall b: nat {:trigger bufSectors[b]} :: b < NUM_BUFS ==> bufSectors[b] != s
    }

    /** A sector that no buffer has is seen as it is on the disk. */
    ghost predicate SeenOk(s: nat)
      requires bufSectors.Length == NUM_BUFS && s < |disk.sectors| == |seen|
      reads this`seen, bufSectors, disk
    {
      Uncached(s) ==> seen[s] == disk.sectors[s]
    }

    ghost predicate Valid()
      reads this, bufSectors, buffer, disk
    {
      && bufSectors.Length == NUM_BUFS && buffer.Length == NUM_BUFS
      && |disk.sectors| < NO_SECTOR
      && (forall b: nat {:trigger BufOk(b)} :: b < NUM_BUFS ==> BufOk(b))
      && |seen| == |disk.sectors| && (forall s: nat {:trigger SeenOk(s)} :: s < |seen| ==> SeenOk(s))
      && (forall i, j :: 0 <= i < j < NUM_BUFS && bufSectors[i] == bufSectors[j] ==> bufSectors[i] == NO_SECTOR)
    }

    /** Exactly the buffers `bs` are held. */
    ghost predicate HeldExactly(bs: set<nat>)
      reads this`freeMask
    {
      forall b: nat {:trigger Held(b)} :: b < NUM_BUFS ==> (Held(b) <==> b in bs)
    }

    /** While the disk has refused no write and no buffer is held, readers see the disk. */
    lemma SeenIsDisk()
      requires Valid() && !disk.lost && HeldExactly({})
      ensures seen == disk.sectors
    {
      forall s: nat | s < |seen| ensures seen[s] == disk.sectors[s] {
        assert SeenOk(s);
        if !Uncached(s) {
          var b: nat :| b < NUM_BUFS && bufSectors[b] == s;
          assert BufOk(b) && !Held(b);
        }
      }
    }

    constructor (disk: Disk)
      requires |disk.sectors| < NO_SECTOR
      ensures Valid() && HeldExactly({}) && this.disk == disk && fresh(bufSectors) && fresh(buffer)
      ensures seen == disk.sectors
      ensures forall b: nat :: b < NUM_BUFS ==> bufSectors[b] == NO_SECTOR
      ensures bufSectors.Length == buffer.Length == 8 && dirtyMask == 0 && freeMask == 0xFF
      ensures forall b :: 0 <= b < 8 ==> bufSectors[b] == 0xFFFF_FFFF
    {
      this.disk := disk;
      bufSectors := new nat[NUM_BUFS](i => NO_SECTOR);
      buffer := new Sector[NUM_BUFS](i => seq(512, k => 0));
      dirtyMask := 0;
      freeMask := 0xFF;
      seen := disk.sectors;
      new;
      forall b: nat ensures !Dirty(b) && (b < NUM_BUFS ==> !Held(b)) {
        ZeroBit(b);
        if b < NUM_BUFS { ByteOnes(b); }
      }
      assert forall b: nat :: b < NUM_BUFS ==> bufSectors[b] == NO_SECTOR;
    }

    /** buf_with_sector: the first buffer tagged with the sector, or 255. */
    method BufWithSector(sector: nat) returns (b: nat)
      requires bufSectors.Length == NUM_BUFS
      ensures b < NUM_BUFS ==> bufSectors[b] == sector
      ensures b >= NUM_BUFS ==> b == 0xFF && forall i :: 0 <= i < NUM_BUFS ==> bufSectors[i] != sector
    {
      b := 0;
      while b < NUM_BUFS
        invariant 0 <= b <= NUM_BUFS
        invariant forall i :: 0 <= i < b ==> bufSectors[i] != sector
      {
        if bufSectors[b] == sector { return; }
        b := b + 1;
      }
      b := 0xFF;
    }

    /** The constructor of BufCacheRef. */
    method Grab(b: nat, sector: nat)
      requires b < NUM_BUFS == bufSectors.Length
      modifies this`freeMask, bufSectors
      ensures bufSectors[..] == old(bufSectors[..])[b := sector]
      ensures forall i: nat :: Bit(freeMask, i) <==> i != b && Bit(old(freeMask), i)
    {
      bufSectors[b] := sector;
      freeMask := ClearBit(freeMask, b);
    }

    /** read_buf_sector: a held reference to the sector, from a buffer that already has it or from the
        first free one. A reader sees what was seen before, or, once the disk has refused a write, what
        the disk has. It fails only if the disk refuses the read, the sector does not exist, or every
        buffer is held. */
    method ReadBufSector(sector: nat) returns (ok: bool, b: nat)
      requires Valid() && sector != NO_SECTOR
      modifies this`freeMask, this`seen, bufSectors, buffer, disk`faults
      ensures Valid()
      ensures ok ==> b < NUM_BUFS && bufSectors[b] == sector < |disk.sectors| && Held(b)
      ensures ok ==> forall i: nat {:trigger bufSectors[i]} :: i < NUM_BUFS && i != b ==>
                bufSectors[i] == old(bufSectors[i]) && buffer[i] == old(buffer[i])
      ensures ok ==> forall i: nat {:trigger Held(i)} :: i < NUM_BUFS && i != b ==> Held(i) == old(Held(i))
      ensures ok ==> (old(Held(b)) ==> old(bufSectors[b]) == sector && buffer[b] == old(buffer[b]))
      ensures ok && !old(Held(b)) ==> !Dirty(b)
      ensures SameOrEvicted(old(seen), seen, disk.sectors)
      ensures !disk.lost ==> seen == old(seen)
      ensures !ok ==>
                bufSectors[..] == old(bufSectors[..]) && buffer[..] == old(buffer[..]) && freeMask == old(freeMask)
      ensures old(disk.faults) == [] ==> disk.faults == []
      ensures old(disk.faults) == [] && sector < |disk.sectors| && (exists i: nat :: i < NUM_BUFS && !old(Held(i))) ==>
                ok
    {
      b := BufWithSector(sector);
      if b < NUM_BUFS {
        assert BufOk(b);
        assert !Held(b) ==> !Dirty(b);
        Grab(b, sector);
        forall i: nat | i < NUM_BUFS ensures BufOk(i) { assert old(BufOk(i)); }
        assert bufSectors[..] == old(bufSectors[..]);
        forall s: nat | s < |seen| ensures SeenOk(s) { assert old(SeenOk(s)); }
        return true, b;
      }
      b := FirstFree();
      if b == NUM_BUFS {
        forall q: nat | q < NUM_BUFS ensures old(Held(q)) { assert Held(q); }
        return false, b;
      }
      ok := Load(sector, b);
    }

    /** A buffer that is free takes a sector in; its old contents are dropped. */
    method Load(sector: nat, b: nat) returns (ok: bool)
      requires Valid() && sector != NO_SECTOR && b < NUM_BUFS && !Held(b)
      requires forall i :: 0 <= i < NUM_BUFS ==> bufSectors[i] != sector
      modifies this`freeMask, this`seen, bufSectors, buffer, disk`faults
      ensures Valid() && !Dirty(b)
      ensures ok ==> bufSectors[..] == old(bufSectors[..])[b := sector] && sector < |disk.sectors|
      ensures ok ==> buffer[..] == old(buffer[..])[b := disk.sectors[sector]]
      ensures ok ==> forall i: nat :: Held(i) <==> i == b || old(Held(i))
      ensures SameOrEvicted(old(seen), seen, disk.sectors)
      ensures !disk.lost ==> seen == old(seen)
      ensures !ok ==>
                bufSectors[..] == old(bufSectors[..]) && buffer[..] == old(buffer[..]) && freeMask == old(freeMask)
      ensures old(disk.faults) == [] ==> disk.faults == [] && (sector < |disk.sectors| ==> ok)
    {
      assert BufOk(b);
      assert sector < |seen| ==> SeenOk(sector);
      ghost var evicted := bufSectors[b];
      var data;
      ok, data := disk.Read(sector);
      if ok {
        if evicted != NO_SECTOR { seen := seen[evicted := disk.sectors[evicted]]; }
        buffer[b] := data;
        Grab(b, sector);
      }
      forall q: nat | q < NUM_BUFS ensures BufOk(q) { assert old(BufOk(q)); }
      forall s: nat | s < |seen| ensures SeenOk(s) {
        assert old(SeenOk(s));
        if Uncached(s) && s != evicted {
          forall q: nat | q < NUM_BUFS ensures old(bufSectors[q]) != s {
            assert bufSectors[q] != s;
          }
        }
      }
    }

    /** The loop of read_buf_sector over the free mask. */
    method FirstFree() returns (i: nat)
      ensures i <= NUM_BUFS && (i < NUM_BUFS ==> !Held(i))
      ensures forall q: nat :: q < i ==> Held(q)
    {
      i := 0;
      while i < NUM_BUFS && !Bit(freeMask, i)
        invariant 0 <= i <= NUM_BUFS
        invariant forall q: nat :: q < i ==> Held(q)
      {
        i := i + 1;
      }
    }

    /** get_val: a writable view of a held buffer marks it dirty. */
    method MarkDirty(b: nat)
      requires Valid() && b < NUM_BUFS && Held(b)
      modifies this`dirtyMask
      ensures Valid() && Dirty(b)
      ensures forall i: nat :: i != b ==> (Dirty(i) <==> old(Dirty(i)))
    {
      assert BufOk(b);
      dirtyMask := SetBit(dirtyMask, b);
      forall q: nat | q < NUM_BUFS ensures BufOk(q) { assert old(BufOk(q)); }
      forall s: nat | s < |seen| ensures SeenOk(s) { assert old(SeenOk(s)); }
    }

    /** Store through such a view. */
    method Store(b: nat, data: Sector)
      requires Valid() && b < NUM_BUFS && Dirty(b)
      modifies this`seen, buffer
      ensures Valid() && buffer[..] == old(buffer[..])[b := data]
      ensures bufSectors[b] < |disk.sectors| == |old(seen)| && seen == old(seen)[bufSectors[b] := data]
    {
      assert BufOk(b);
      buffer[b] := data;
      seen := seen[bufSectors[b] := data];
      forall q: nat | q < NUM_BUFS ensures BufOk(q) { assert old(BufOk(q)); }
      forall s: nat | s < |seen| ensures SeenOk(s) { assert old(SeenOk(s)); }
    }

    /** flush: write a held buffer through. The dirty bit goes even when the disk refuses. */
    method Flush(b: nat) returns (ok: bool)
      requires Valid() && b < NUM_BUFS && Held(b)
      modifies this`dirtyMask, disk
      ensures Valid() && !Dirty(b)
      ensures forall i: nat :: i != b ==> (Dirty(i) <==> old(Dirty(i)))
      ensures bufSectors[b] < |old(disk.sectors)|
      ensures ok ==> disk.sectors == old(disk.sectors)[bufSectors[b] := buffer[b]]
      ensures ok ==> disk.history == old(disk.history) + [disk.sectors] && disk.lost == old(disk.lost)
      ensures !ok ==> disk.sectors == old(disk.sectors) && disk.history == old(disk.history) && disk.lost
      ensures old(disk.faults) == [] ==> disk.faults == [] && ok
    {
      assert BufOk(b);
      dirtyMask := ClearBit(SetBit(dirtyMask, b), b);
      ok := disk.Write(bufSectors[b], buffer[b]);
      forall q: nat | q < NUM_BUFS ensures BufOk(q) { assert old(BufOk(q)); }
      forall s: nat | s < |seen| ensures SeenOk(s) { assert old(SeenOk(s)); }
    }

    /** release_buffer, the destructor of BufCacheRef: the mask bit is flipped, and a dirty buffer is
        flushed with the outcome ignored. A held buffer becomes free. */
    method ReleaseBuffer(b: nat)
      requires Valid() && b < NUM_BUFS && Held(b)
      modifies this`dirtyMask, this`freeMask, disk
      ensures Valid() && !Held(b)
      ensures forall i: nat :: i != b ==> (Held(i) <==> old(Held(i))) && (Dirty(i) <==> old(Dirty(i)))
      ensures bufSectors[b] < |old(disk.sectors)|
      ensures !old(Dirty(b)) ==> unchanged(disk)
      ensures old(Dirty(b)) && !disk.lost ==>
                disk.sectors == old(disk.sectors)[bufSectors[b] := buffer[b]] &&
                disk.history == old(disk.history) + [disk.sectors]
      ensures old(Dirty(b)) && disk.lost ==>
                (disk.sectors == old(disk.sectors) && disk.history == old(disk.history)) ||
                (disk.sectors == old(disk.sectors)[bufSectors[b] := buffer[b]] &&
                 disk.history == old(disk.history) + [disk.sectors])
      ensures old(disk.lost) ==> disk.lost
      ensures old(disk.faults) == [] ==> disk.faults == [] && disk.lost == old(disk.lost)
    {
      assert BufOk(b);
      freeMask := FlipBit(freeMask, b);
      if Dirty(b) {
        dirtyMask := ClearBit(SetBit(dirtyMask, b), b);
        var _ := disk.Write(bufSectors[b], buffer[b]);
      }
      forall q: nat | q < NUM_BUFS ensures BufOk(q) { assert old(BufOk(q)); }
      forall s: nat | s < |seen| ensures SeenOk(s) { assert old(SeenOk(s)); }
    }
  }
}
