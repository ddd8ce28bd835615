/** Finding and marking a run of free sectors in the block bitmap. */
module BlockAllocation {
  import opened Bits
  import opened DiskLayout

  /** lzcnt on a byte: the clear bits above the highest set bit among the low `w`. */
  function LeadingZeros(x: nat, w: nat): (n: nat)
    ensures n <= w && (n < w ==> Bit(x, w - n - 1))
    ensures forall j :: w - n <= j < w ==> !Bit(x, j)
    ensures x == 0 ==> n == w
  {
    ZeroBit(w);
    if w == 0 || Bit(x, w - 1) then 0 else 1 + LeadingZeros(x, w - 1)
  }

  /** tzcnt: the clear bits below the lowest set bit, `w` if there is none. */
  function TrailingZeros(x: nat, w: nat): (n: nat)
    ensures n <= w && (n < w ==> Bit(x, n))
    ensures forall j :: 0 <= j < n ==> !Bit(x, j)
    ensures x == 0 ==> n == w
  {
    if w == 0 || x % 2 == 1 then 0 else
      var n := 1 + TrailingZeros(x / 2, w - 1);
      assert forall j :: 0 < j < n ==> Bit(x, j) == Bit(x / 2, j - 1);
      n
  }

  /** The `n` sectors from bit `s` are all free. */
  predicate RunFree(bitmap: Sector, s: nat, n: nat) {
    s + n <= BITMAP_BITS && forall t {:trigger Marked(bitmap, t)} :: s <= t < s + n ==> !Marked(bitmap, t)
  }

  lemma ByteRun(bitmap: Sector, i: nat, lo: nat, hi: nat)
    requires i < 512 && lo <= hi <= 8
    requires forall j :: lo <= j < hi ==> !Bit(bitmap[i], j)
    ensures RunFree(bitmap, 8 * i + lo, hi - lo)
  {
    forall t: nat | 8 * i + lo <= t < 8 * i + hi ensures !Marked(bitmap, t) {
      assert t / 8 == i && t % 8 == t - 8 * i;
    }
  }

  lemma JoinRuns(bitmap: Sector, s: nat, n: nat, n': nat)
    requires RunFree(bitmap, s, n) && RunFree(bitmap, s + n, n')
    ensures RunFree(bitmap, s, n + n')
  {
  }

  /** No eight sectors that share a byte of the bitmap are all free. */
  predicate Crowded(bitmap: Sector) {
    forall i :: 0 <= i < 512 ==> bitmap[i] != 0
  }

  /** `count` free sectors from bit `bit` of byte `pos`; while too few, they reach up to byte `i`. */
  predicate RunSoFar(bitmap: Sector, i: nat, sectors: nat, count: nat, pos: nat, bit: nat) {
    && pos < 512 && bit < 8 && RunFree(bitmap, 8 * pos + bit, count)
    && (0 < count < sectors ==> 8 * pos + bit + count == 8 * i)
  }

  /** lzcnt and tzcnt of byte `i` of the bitmap. */
  function TopFree(bitmap: Sector, i: nat): (n: nat)
    requires i < 512
    ensures n <= 8 && (bitmap[i] == 0 ==> n == 8)
  {
    LeadingZeros(bitmap[i], 8)
  }

  function LowFree(bitmap: Sector, i: nat): (n: nat)
    requires i < 512
    ensures n <= 8 && (bitmap[i] == 0 ==> n == 8)
  {
    TrailingZeros(bitmap[i], 8)
  }

  lemma TopRun(bitmap: Sector, i: nat)
    requires i < 512
    ensures RunFree(bitmap, 8 * i + (8 - TopFree(bitmap, i)), TopFree(bitmap, i))
  {
    ByteRun(bitmap, i, 8 - TopFree(bitmap, i), 8);
  }

  lemma LowRun(bitmap: Sector, i: nat)
    requires i < 512
    ensures RunFree(bitmap, 8 * i, LowFree(bitmap, i))
  {
    ByteRun(bitmap, i, 0, LowFree(bitmap, i));
  }

  /** A byte of ones has no free bit at either end. */
  lemma OnesTaken(bitmap: Sector, i: nat)
    requires i < 512 && bitmap[i] == 0xFF
    ensures TopFree(bitmap, i) == 0 && LowFree(bitmap, i) == 0
  {
    ByteOnes(7);
  }

  // ---------------------------------------------------------------- where a search for two ends

  /** The bytes directly before byte `i` that have exactly one free bit at the top. */
  function Before(bitmap: Sector, i: nat): nat
    requires i <= 512
  {
    if i == 0 || TopFree(bitmap, i - 1) != 1 then 0 else 1 + Before(bitmap, i - 1)
  }

  /** The search for two sectors ends at byte `i`. Of a row of bytes with one free bit at the top it
      tries every other one; the byte behind one that is tried only counts if its lowest bit is free. */
  predicate Hit(bitmap: Sector, i: nat)
    requires i < 512
  {
    if Before(bitmap, i) % 2 == 0 then TopFree(bitmap, i) >= 2 else LowFree(bitmap, i) >= 1
  }

  /** The first bit of the run found at byte `i`. */
  function HitPlace(bitmap: Sector, i: nat): int
    requires i < 512
  {
    if Before(bitmap, i) % 2 == 0 then 8 * i + (8 - TopFree(bitmap, i)) else 8 * i - 1
  }

  /** The first byte at or behind `i` where a search for two ends, or 512. */
  function FirstHit(bitmap: Sector, i: nat): (r: nat)
    requires i <= 512
    ensures i <= r <= 512 && (r < 512 ==> Hit(bitmap, r))
    ensures forall q :: i <= q < r ==> !Hit(bitmap, q)
    decreases 512 - i
  {
    if i == 512 || Hit(bitmap, i) then i else FirstHit(bitmap, i + 1)
  }

  lemma FirstHitIs(bitmap: Sector, i: nat)
    requires i <= 512 && (i < 512 ==> Hit(bitmap, i)) && forall q :: 0 <= q < i ==> !Hit(bitmap, q)
    ensures FirstHit(bitmap, 0) == i
  {
  }

  // ---------------------------------------------------------------- the search

  /** A byte behind a run that has begun: its free low bits, if they continue the run. */
  method ContinueRun(bitmap: Sector, i: nat, sectors: nat, count: nat, pos: nat, bit: nat) returns (count': nat)
    requires i < 512 && 0 < count < sectors && RunSoFar(bitmap, i, sectors, count, pos, bit)
    ensures RunSoFar(bitmap, i + 1, sectors, count', pos, bit)
    ensures bitmap[i] == 0 ==> count' == count + 8
    ensures sectors == 2 ==> count' == if LowFree(bitmap, i) == 0 then 0 else 1 + LowFree(bitmap, i)
  {
    // Repaired: the file counts 16 for a zero byte.
    var tz := LowFree(bitmap, i);
    if tz == 0 {
      return 0;
    } else if tz < 8 && count + tz < sectors {
      // Repaired: the file carries the broken run on.
      return 0;
    }
    LowRun(bitmap, i);
    JoinRuns(bitmap, 8 * pos + bit, count, tz);
    return count + tz;
  }

  /** The loop body of the search. */
  method ScanByte(bitmap: Sector, i: nat, sectors: nat, count: nat, pos: nat, bit: nat)
    returns (count': nat, pos': nat, bit': nat)
    requires i < 512 && count < sectors && RunSoFar(bitmap, i, sectors, count, pos, bit)
    ensures RunSoFar(bitmap, i + 1, sectors, count', pos', bit')
    ensures bitmap[i] == 0 && sectors <= 8 ==> count' >= sectors
    ensures sectors == 2 && count == Before(bitmap, i) % 2 ==>
              && (count' >= 2 <==> Hit(bitmap, i))
              && (count' >= 2 ==> 8 * pos' + bit' == HitPlace(bitmap, i))
              && (count' < 2 ==> count' == Before(bitmap, i + 1) % 2)
  {
    count', pos', bit' := count, pos, bit;
    if bitmap[i] == 0xFF {
      OnesTaken(bitmap, i);
      count' := 0;
    } else if count > 0 {
      count' := ContinueRun(bitmap, i, sectors, count, pos, bit);
    } else {
      var lz := TopFree(bitmap, i);
      if lz > 0 {
        TopRun(bitmap, i);
        count', pos', bit' := lz, i, 8 - lz;
      }
    }
  }

  /** The search of allocate_sectors. A run it finds is free. It may miss a free run (see MissedRun),
      but not while some byte of the bitmap is empty and the run asked for would fit into it; for the
      two sectors of a block it finds the run of the first hit, and none if and only if there is no hit. */
  method FindRun(bitmap: Sector, sectors: nat) returns (found: bool, pos: nat, bit: nat)
    ensures found ==> pos < 512 && bit < 8 && RunFree(bitmap, 8 * pos + bit, sectors)
    ensures !found && sectors <= 8 ==> Crowded(bitmap)
    ensures sectors == 2 ==> (found <==> FirstHit(bitmap, 0) < 512)
    ensures sectors == 2 && found ==> 8 * pos + bit == HitPlace(bitmap, FirstHit(bitmap, 0))
  {
    pos, bit := 0, 0;
    var count: nat := 0;
    var i: nat := 0;
    while i < 512 && count < sectors
      invariant 0 <= i <= 512 && RunSoFar(bitmap, i, sectors, count, pos, bit)
      invariant count < sectors <= 8 ==> forall q :: 0 <= q < i ==> bitmap[q] != 0
      invariant sectors == 2 ==> Searched(bitmap, i, count, 8 * pos + bit)
    {
      count, pos, bit := ScanByte(bitmap, i, sectors, count, pos, bit);
      i := i + 1;
    }
    found := count >= sectors;
    if sectors == 2 {
      FirstHitIs(bitmap, if found then i - 1 else i);
    }
  }

  /** The state of a search for two before byte `i`: no hit yet, or a hit at the last byte. */
  ghost predicate Searched(bitmap: Sector, i: nat, count: nat, place: nat)
    requires i <= 512
  {
    if count < 2 then
      count == Before(bitmap, i) % 2 && forall q :: 0 <= q < i ==> !Hit(bitmap, q)
    else
      i > 0 && Hit(bitmap, i - 1) && place == HitPlace(bitmap, i - 1) && forall q :: 0 <= q < i - 1 ==> !Hit(bitmap, q)
  }

  // ---------------------------------------------------------------- marking

  function MarkOne(bitmap: Sector, s: nat): Sector
    requires s < BITMAP_BITS
  {
    BitInByte(bitmap[s / 8], s % 8);
    bitmap[s / 8 := Or(bitmap[s / 8], Pow2(s % 8))]
  }

  lemma BitInByte(x: nat, j: nat)
    requires x < 0x100 && j < 8
    ensures Or(x, Pow2(j)) < 0x100
  {
    Pow2Monotone(j + 1, 8);
    assert Pow2(8) == 0x100 by { assert Pow2(4) == 16; Pow2Sum(4, 4); }
    OrBound(x, Pow2(j), 8);
  }

  function MarkRun(bitmap: Sector, s: nat, n: nat): Sector
    requires s + n <= BITMAP_BITS
  {
    if n == 0 then bitmap else MarkOne(MarkRun(bitmap, s, n - 1), s + n - 1)
  }

  lemma MarkOneMarks(bitmap: Sector, s: nat, t: nat)
    requires s < BITMAP_BITS && t < BITMAP_BITS
    ensures Marked(MarkOne(bitmap, s), t) <==> t == s || Marked(bitmap, t)
  {
    OrBit(bitmap[s / 8], Pow2(s % 8), t % 8);
    ShiftBit(s % 8, t % 8);
  }

  /** Marking a run sets exactly its bits. */
  lemma {:induction false} MarkRunMarks(bitmap: Sector, s: nat, n: nat, t: nat)
    requires s + n <= BITMAP_BITS && t < BITMAP_BITS
    ensures Marked(MarkRun(bitmap, s, n), t) <==> s <= t < s + n || Marked(bitmap, t)
  {
    if n > 0 {
      MarkRunMarks(bitmap, s, n - 1, t);
      MarkOneMarks(MarkRun(bitmap, s, n - 1), s + n - 1, t);
    }
  }

  method MarkSectors(bitmap: Sector, s: nat, sectors: nat) returns (bitmap': Sector)
    requires s + sectors <= BITMAP_BITS
    ensures bitmap' == MarkRun(bitmap, s, sectors)
  {
    bitmap' := bitmap;
    var count := 0;
    while count < sectors
      invariant 0 <= count <= sectors && bitmap' == MarkRun(bitmap, s, count)
    {
      bitmap' := MarkOne(bitmap', s + count);
      count := count + 1;
    }
  }

  /** Runs handed out one after the other, whatever their lengths, never overlap. */
  lemma {:induction false} RunsDisjoint(bitmaps: seq<Sector>, first: seq<nat>, length: seq<nat>, i: nat, j: nat)
    requires |bitmaps| == |first| + 1 && |length| == |first| && i < j < |first|
    requires forall k :: 0 <= k < |first| ==>
               RunFree(bitmaps[k], first[k], length[k]) && bitmaps[k + 1] == MarkRun(bitmaps[k], first[k], length[k])
    ensures first[i] + length[i] <= first[j] || first[j] + length[j] <= first[i] || length[i] == 0 || length[j] == 0
  {
    if length[i] > 0 && length[j] > 0 {
      var t := if first[i] <= first[j] then first[j] else first[i];
      if t < first[i] + length[i] && t < first[j] + length[j] {
        StaysMarked(bitmaps, first, length, i, j, t);
        assert false;
      }
    }
  }

  lemma {:induction false} StaysMarked(bitmaps: seq<Sector>, first: seq<nat>, length: seq<nat>, i: nat, j: nat, t: nat)
    requires |bitmaps| == |first| + 1 && |length| == |first| && i < j < |first|
    requires forall k :: 0 <= k < |first| ==>
               RunFree(bitmaps[k], first[k], length[k]) && bitmaps[k + 1] == MarkRun(bitmaps[k], first[k], length[k])
    requires first[i] <= t < first[i] + length[i]
    ensures t < BITMAP_BITS && Marked(bitmaps[j], t)
    decreases j
  {
    if j == i + 1 {
      MarkRunMarks(bitmaps[i], first[i], length[i], t);
    } else {
      StaysMarked(bitmaps, first, length, i, j - 1, t);
      MarkRunMarks(bitmaps[j - 1], first[j - 1], length[j - 1], t);
    }
  }

  // ---------------------------------------------------------------- as written

  /** As written, allocate_sectors marks from bit 0 of the byte where the run starts, not from the
      run's first bit. The run it returns is marked exactly when it starts at bit 0. */
  lemma MarkAsWritten(bitmap: Sector, pos: nat, bit: nat, sectors: nat)
    requires pos < 512 && bit < 8 && sectors > 0 && RunFree(bitmap, 8 * pos + bit, sectors)
    ensures (forall t: nat {:trigger Marked(MarkRun(bitmap, 8 * pos, sectors), t)} ::
               8 * pos + bit <= t < 8 * pos + bit + sectors ==> Marked(MarkRun(bitmap, 8 * pos, sectors), t))
            <==> bit == 0
  {
    forall t: nat | t < BITMAP_BITS
      ensures Marked(MarkRun(bitmap, 8 * pos, sectors), t) <==> 8 * pos <= t < 8 * pos + sectors || Marked(bitmap, t)
    {
      MarkRunMarks(bitmap, 8 * pos, sectors, t);
    }
    var last := 8 * pos + bit + sectors - 1;
    assert !Marked(bitmap, last);
    if bit > 0 {
      assert !Marked(MarkRun(bitmap, 8 * pos, sectors), last);
    } else {
      assert forall t: nat {:trigger Marked(MarkRun(bitmap, 8 * pos, sectors), t)} ::
          8 * pos <= t < 8 * pos + sectors ==> t < BITMAP_BITS && Marked(MarkRun(bitmap, 8 * pos, sectors), t);
    }
  }
}
