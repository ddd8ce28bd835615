/** The search of allocate_sectors as written: for which requests it is right, and when it finds
    anything. */
module BlockSearch {
  import opened Bits
  import opened DiskLayout
  import opened BlockAllocation

  datatype Scan = Scan(count: nat, pos: nat, bit: nat)

  /** The loop as written, from byte `i` on. */
  function ScanAsWritten(bitmap: Sector, sectors: nat, i: nat, s: Scan): Scan
    requires i <= 512
    decreases 512 - i
  {
    if i == 512 || s.count >= sectors then s else
      ScanAsWritten(bitmap, sectors, i + 1, ScanByteAsWritten(bitmap, i, s))
  }

  function ScanByteAsWritten(bitmap: Sector, i: nat, s: Scan): Scan
    requires i < 512
  {
    if bitmap[i] == 0xFF then s.(count := 0)
    else if s.count > 0 then
      var tz := if bitmap[i] == 0 then 16 else LowFree(bitmap, i);
      if tz == 0 then s.(count := 0) else s.(count := s.count + tz)
    else
      var lz := TopFree(bitmap, i);
      if lz == 0 then s else Scan(lz, i, 8 - lz)
  }

  function Search(bitmap: Sector, n: nat): Scan {
    ScanAsWritten(bitmap, n, 0, Scan(0, 0, 0))
  }

  // ---------------------------------------------------------------- two sectors

  /** For two sectors the search as written and the repaired one end at the same place. */
  lemma {:induction false} ScanOfTwo(bitmap: Sector, i: nat, s: Scan)
    requires i <= 512 && Searched(bitmap, i, s.count, 8 * s.pos + s.bit)
    requires s.count == 1 ==> 8 * s.pos + s.bit + 1 == 8 * i
    ensures var r := ScanAsWritten(bitmap, 2, i, s);
            && (r.count >= 2 <==> FirstHit(bitmap, 0) < 512)
            && (r.count >= 2 ==> 8 * r.pos + r.bit == HitPlace(bitmap, FirstHit(bitmap, 0)))
    decreases 512 - i
  {
    if i == 512 || s.count >= 2 {
      FirstHitIs(bitmap, if s.count >= 2 then i - 1 else i);
    } else {
      ByteOfTwo(bitmap, i, s);
      ScanOfTwo(bitmap, i + 1, ScanByteAsWritten(bitmap, i, s));
    }
  }

  lemma ByteOfTwo(bitmap: Sector, i: nat, s: Scan)
    requires i < 512 && s.count < 2 && Searched(bitmap, i, s.count, 8 * s.pos + s.bit)
    requires s.count == 1 ==> 8 * s.pos + s.bit + 1 == 8 * i
    ensures var s' := ScanByteAsWritten(bitmap, i, s);
            && Searched(bitmap, i + 1, s'.count, 8 * s'.pos + s'.bit)
            && (s'.count == 1 ==> 8 * s'.pos + s'.bit + 1 == 8 * (i + 1))
  {
    var s' := ScanByteAsWritten(bitmap, i, s);
    NextBefore(bitmap, i);
    if bitmap[i] == 0xFF { OnesTaken(bitmap, i); }
    if s.count == 1 { AfterOne(bitmap, i, s); } else { AfterNone(bitmap, i, s); }
    forall q | 0 <= q < i ensures !Hit(bitmap, q) {
    }
  }

  lemma NextBefore(bitmap: Sector, i: nat)
    requires i < 512
    ensures Before(bitmap, i + 1) % 2 == if TopFree(bitmap, i) == 1 then 1 - Before(bitmap, i) % 2 else 0
  {
  }

  lemma AfterOne(bitmap: Sector, i: nat, s: Scan)
    requires i < 512 && s.count == 1 == Before(bitmap, i) % 2 && 8 * s.pos + s.bit + 1 == 8 * i
    requires bitmap[i] == 0xFF ==> TopFree(bitmap, i) == LowFree(bitmap, i) == 0
    ensures var s' := ScanByteAsWritten(bitmap, i, s);
            && (s'.count >= 2 <==> Hit(bitmap, i)) && (s'.count >= 2 ==> 8 * s'.pos + s'.bit == HitPlace(bitmap, i))
            && (s'.count < 2 ==> s'.count == 0)
  {
  }

  lemma AfterNone(bitmap: Sector, i: nat, s: Scan)
    requires i < 512 && s.count == 0 == Before(bitmap, i) % 2
    requires bitmap[i] == 0xFF ==> TopFree(bitmap, i) == LowFree(bitmap, i) == 0
    ensures var s' := ScanByteAsWritten(bitmap, i, s);
            && (s'.count >= 2 <==> Hit(bitmap, i)) && (s'.count >= 2 ==> 8 * s'.pos + s'.bit == HitPlace(bitmap, i))
            && (s'.count < 2 ==> s'.count == if TopFree(bitmap, i) == 1 then 1 else 0)
            && (s'.count == 1 ==> 8 * s'.pos + s'.bit + 1 == 8 * (i + 1))
  {
  }

  /** The search for two sectors, the only request the kernel makes, succeeds if and only if there is a
      hit, and returns the place of the first. */
  lemma SearchOfTwo(bitmap: Sector)
    ensures var r := Search(bitmap, 2);
            && (r.count >= 2 <==> FirstHit(bitmap, 0) < 512)
            && (r.count >= 2 ==> 8 * r.pos + r.bit == HitPlace(bitmap, FirstHit(bitmap, 0)))
  {
    ScanOfTwo(bitmap, 0, Scan(0, 0, 0));
  }

  /** A hit is the place of two free sectors. */
  lemma HitIsFree(bitmap: Sector, i: nat)
    requires i < 512 && Hit(bitmap, i)
    ensures HitPlace(bitmap, i) >= 0 && RunFree(bitmap, HitPlace(bitmap, i), 2)
  {
    if Before(bitmap, i) % 2 == 0 {
      TopRun(bitmap, i);
    } else {
      TopRun(bitmap, i - 1);
      LowRun(bitmap, i);
      JoinRuns(bitmap, 8 * i - 1, 1, 1);
    }
  }

  /** A free run the search misses: bit 7 is free, bit 8 is not, and bits 9 to 15 are. Byte 1 is looked
      at only as the continuation of byte 0. */
  lemma MissedRun(bitmap: Sector)
    requires bitmap[0] == 0x7F && bitmap[1] == 0x01 && forall i :: 2 <= i < 512 ==> bitmap[i] == 0xFF
    ensures RunFree(bitmap, 9, 7) && Search(bitmap, 2).count < 2
  {
    assert Bit(0x7F, 6) && !Bit(0x7F, 7);
    assert TopFree(bitmap, 0) == 1 && Before(bitmap, 1) == 1;
    assert LowFree(bitmap, 1) == 0;
    forall j: nat | 1 <= j < 8 ensures !Bit(1, j) { ZeroBit(j - 1); }
    ByteRun(bitmap, 1, 1, 8);
    TopRun(bitmap, 1);
    assert TopFree(bitmap, 1) == 7;
    SearchOfTwo(bitmap);
    NoLaterHit(bitmap, 512);
    FirstHitIs(bitmap, 512);
  }

  lemma {:induction false} NoLaterHit(bitmap: Sector, i: nat)
    requires 2 <= i <= 512 && TopFree(bitmap, 1) > 1 && forall k :: 2 <= k < 512 ==> bitmap[k] == 0xFF
    ensures Before(bitmap, i) == 0 && forall q :: 2 <= q < i ==> !Hit(bitmap, q)
  {
    if i > 2 {
      NoLaterHit(bitmap, i - 1);
      OnesTaken(bitmap, i - 1);
    }
  }

  // ---------------------------------------------------------------- any number of sectors

  /** A run that the search returns for this bitmap is free. */
  predicate FoundIsFree(bitmap: Sector, n: nat) {
    var r := Search(bitmap, n);
    r.count >= n ==> RunFree(bitmap, 8 * r.pos + r.bit, n)
  }

  /** The count the search can reach: eight for the first byte, sixteen for each of the others. */
  const MAX_COUNT: nat := 8 + 511 * 16

  /** What the search returns is free on every bitmap if and only if at most two sectors are asked for,
      or more than it can ever count. */
  lemma SearchSafeExactly(n: nat)
    ensures (forall bitmap: Sector :: FoundIsFree(bitmap, n)) <==> n <= 2 || n > 8184
  {
    if n <= 2 || n > MAX_COUNT {
      forall bitmap: Sector ensures FoundIsFree(bitmap, n) {
        if n == 2 {
          SearchOfTwo(bitmap);
          if FirstHit(bitmap, 0) < 512 { HitIsFree(bitmap, FirstHit(bitmap, 0)); }
        } else if n == 1 {
          ScanOfOne(bitmap, 0, Scan(0, 0, 0));
        } else if n > MAX_COUNT {
          CountBound(bitmap, n, 0, Scan(0, 0, 0));
        }
      }
    } else if n <= BITMAP_BITS {
      BrokenRun(n);
      assert !FoundIsFree(Broken(), n);
    } else {
      TooLong(n);
      assert !FoundIsFree(Zeros(), n);
    }
  }

  lemma {:induction false} ScanOfOne(bitmap: Sector, i: nat, s: Scan)
    requires i <= 512 && (s.count > 0 ==> s.pos < 512 && s.bit < 8 && RunFree(bitmap, 8 * s.pos + s.bit, 1))
    ensures var r := ScanAsWritten(bitmap, 1, i, s);
            r.count > 0 ==> RunFree(bitmap, 8 * r.pos + r.bit, 1)
    decreases 512 - i
  {
    if i < 512 && s.count == 0 {
      TopRun(bitmap, i);
      ScanOfOne(bitmap, i + 1, ScanByteAsWritten(bitmap, i, s));
    }
  }

  lemma {:induction false} CountBound(bitmap: Sector, n: nat, i: nat, s: Scan)
    requires i <= 512 && (s.count > 0 ==> s.count + 8 <= 16 * i)
    ensures ScanAsWritten(bitmap, n, i, s).count <= MAX_COUNT
    decreases 512 - i
  {
    if i < 512 && s.count < n { CountBound(bitmap, n, i + 1, ScanByteAsWritten(bitmap, i, s)); }
  }

  /** Over zero bytes a count that has begun grows by sixteen for each, and the place stays. */
  lemma {:induction false} ScanOfZeros(bitmap: Sector, n: nat, i: nat, s: Scan)
    requires i <= 512 && s.count > 0 && forall k :: i <= k < 512 ==> bitmap[k] == 0
    ensures var r := ScanAsWritten(bitmap, n, i, s);
            r.pos == s.pos && r.bit == s.bit && (s.count + 16 * (512 - i) >= n ==> r.count >= n)
    decreases 512 - i
  {
    if i < 512 && s.count < n { ScanOfZeros(bitmap, n, i + 1, ScanByteAsWritten(bitmap, i, s)); }
  }

  function Zeros(): Sector { seq(512, i => 0) }

  /** Bit 7 is free, bit 8 is free, bit 9 is not, and all from bit 16 on are free. */
  function Broken(): Sector { seq(512, i => if i == 0 then 0x7F else if i == 1 then 0x02 else 0) }

  /** Of three sectors or more, the third is taken. */
  lemma BrokenRun(n: nat)
    requires 3 <= n <= BITMAP_BITS
    ensures !FoundIsFree(Broken(), n)
  {
    var b := Broken();
    assert Bit(0x7F, 6) && !Bit(0x7F, 7);
    assert TopFree(b, 0) == 1 && LowFree(b, 1) == 1;
    ScanOfZeros(b, n, 2, Scan(2, 0, 7));
    assert ScanByteAsWritten(b, 0, Scan(0, 0, 0)) == Scan(1, 0, 7);
    assert ScanByteAsWritten(b, 1, Scan(1, 0, 7)) == Scan(2, 0, 7);
    assert Search(b, n) == ScanAsWritten(b, n, 1, Scan(1, 0, 7)) == ScanAsWritten(b, n, 2, Scan(2, 0, 7));
    assert Marked(b, 9);
  }

  /** An empty bitmap yields a run that is longer than the bitmap. */
  lemma TooLong(n: nat)
    requires BITMAP_BITS < n <= MAX_COUNT
    ensures !FoundIsFree(Zeros(), n)
  {
    var z := Zeros();
    ScanOfZeros(z, n, 1, Scan(8, 0, 0));
    assert ScanByteAsWritten(z, 0, Scan(0, 0, 0)) == Scan(8, 0, 0);
    assert Search(z, n) == ScanAsWritten(z, n, 1, Scan(8, 0, 0));
  }

  // ---------------------------------------------------------------- filling an empty disk

  /** The bitmap after `k` blocks were handed out from an empty one, two sectors each. */
  function Filled(k: nat): Sector
    requires k <= 2048
  {
    if k == 0 then Zeros() else MarkRun(Filled(k - 1), 2 * (k - 1), 2)
  }

  /** Exactly the first `n` sectors are taken. */
  predicate FirstTaken(bitmap: Sector, n: nat) {
    forall t {:trigger Marked(bitmap, t)} :: 0 <= t < BITMAP_BITS ==> (Marked(bitmap, t) <==> t < n)
  }

  lemma {:induction false} FilledTaken(k: nat)
    requires k <= 2048
    ensures FirstTaken(Filled(k), 2 * k)
  {
    if k == 0 {
      forall t: nat | t < BITMAP_BITS ensures !Marked(Zeros(), t) { ZeroBit(t % 8); }
    } else {
      FilledTaken(k - 1);
      forall t: nat | t < BITMAP_BITS ensures Marked(Filled(k), t) <==> t < 2 * k {
        MarkRunMarks(Filled(k - 1), 2 * (k - 1), 2, t);
      }
    }
  }

  lemma {:induction false} TopFreeIs(x: nat, w: nat, n: nat)
    requires n <= w && (forall j :: w - n <= j < w ==> !Bit(x, j)) && (n < w ==> Bit(x, w - n - 1))
    ensures LeadingZeros(x, w) == n
  {
    if n > 0 { TopFreeIs(x, w - 1, n - 1); }
  }

  lemma TakenByte(bitmap: Sector, n: nat, i: nat)
    requires FirstTaken(bitmap, n) && i < 512
    ensures TopFree(bitmap, i) == if 8 * i + 8 <= n then 0 else if n <= 8 * i then 8 else 8 * i + 8 - n
  {
    var f := if 8 * i + 8 <= n then 0 else if n <= 8 * i then 8 else 8 * i + 8 - n;
    forall j: nat | j < 8 ensures Bit(bitmap[i], j) <==> 8 * i + j < n {
      assert Marked(bitmap, 8 * i + j) <==> 8 * i + j < n;
      assert (8 * i + j) / 8 == i && (8 * i + j) % 8 == j;
    }
    TopFreeIs(bitmap[i], 8, f);
  }

  lemma {:induction false} NothingBefore(bitmap: Sector, n: nat, i: nat)
    requires FirstTaken(bitmap, n) && 8 * i <= n <= BITMAP_BITS
    ensures i <= 512 && Before(bitmap, i) == 0 && forall q :: 0 <= q < i ==> !Hit(bitmap, q)
  {
    if i > 0 {
      NothingBefore(bitmap, n, i - 1);
      TakenByte(bitmap, n, i - 1);
    }
  }

  /** From an empty bitmap every block is found, one behind the other, until all 2048 are used; only
      then the search for a block fails. */
  lemma EmptyDiskFills(k: nat)
    requires k <= 2048
    ensures FirstHit(Filled(k), 0) < 512 <==> k < 2048
    ensures k < 2048 ==> HitPlace(Filled(k), FirstHit(Filled(k), 0)) == 2 * k
    ensures k == 2048 ==> forall t :: 0 <= t < BITMAP_BITS ==> Marked(Filled(k), t)
  {
    FilledTaken(k);
    var i := k / 4;
    NothingBefore(Filled(k), 2 * k, i);
    if k < 2048 { TakenByte(Filled(k), 2 * k, i); }
    FirstHitIs(Filled(k), i);
  }

  /** The consequence of MarkAsWritten on a bitmap whose first block is taken: the search returns the
      next block, the marking changes nothing, and the same block is returned again. */
  lemma SameBlockTwice(bitmap: Sector)
    requires bitmap[0] == 0x03
    ensures Search(bitmap, 2) == Scan(6, 0, 2)
    ensures MarkRun(bitmap, 0, 2) == bitmap
  {
    LeadingOfThree();
    assert ScanAsWritten(bitmap, 2, 0, Scan(0, 0, 0)) == ScanAsWritten(bitmap, 2, 1, Scan(6, 0, 2));
    OrOfThree();
    assert MarkRun(bitmap, 0, 1) == bitmap;
  }

  lemma LeadingOfThree()
    ensures LeadingZeros(3, 8) == 6
  {
    assert Bit(3, 1);
    forall j: nat | 2 <= j < 8 ensures !Bit(3, j) { ZeroBit(j - 2); }
    TopFreeIs(3, 8, 6);
  }

  lemma OrOfThree()
    ensures Or(3, 1) == 3 && Or(3, 2) == 3
  {
    assert Or(1, 0) == 1;
    assert Or(1, 1) == 1;
  }
}
