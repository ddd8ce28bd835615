/** Theorems about every run of the buddy allocator. */
module BuddyTheorems {
  import opened Bits
  import opened BuddyArena

  // ---------------------------------------------------------------- tiling

  function Owner(a: Arena, p: nat): (h: nat)
    requires a.Tiled() && p < a.Pages()
    ensures a.Owns(h, p)
  {
    if p in a.tiles then p else
      var h := Owner(a, p - 1);
      assert Followed(a.Pages(), a.tiles, h);
      h
  }

  /** Every page of the region lies in exactly one block. */
  lemma EveryPageOwnedOnce(a: Arena, p: nat)
    requires a.Tiled() && p < a.Pages()
    ensures exists h :: a.Owns(h, p)
    ensures forall g, h :: a.Owns(g, p) && a.Owns(h, p) ==> g == h
  {
    var h := Owner(a, p);
    forall g, h | a.Owns(g, p) && a.Owns(h, p) ensures g == h {
      assert Apart(a.tiles, g, h) && Apart(a.tiles, h, g);
    }
  }

  /** The pages of the block at `h` that lie inside a region of `pages` pages. */
  function Extent(pages: nat, h: nat, k: nat): set<nat> {
    Range(h, Min(h + Pow2(k), pages))
  }

  ghost function FreePages(a: Arena): set<nat> {
    set p | p in Range(0, a.Pages()) && exists h :: a.Owns(h, p) && a.IsFree(h)
  }

  /** In a tiled region the buddy of a block is cut at the block's order or finer: its first page
      starts a block, never the middle of a larger one. */
  lemma BuddyStartsBlock(n: nat, tiles: map<nat, nat>, h: nat)
    requires Tiling(n, tiles) && h in tiles && Fits(n, tiles, h)
    requires Buddy(h, tiles[h]) < n
    ensures Buddy(h, tiles[h]) in tiles
    ensures tiles[Buddy(h, tiles[h])] <= tiles[h]
  {
    var k := tiles[h];
    var b := Buddy(h, k);
    BuddyPair(h, k);
    if h < b {
      assert Followed(n, tiles, h) && Fits(n, tiles, b);
      if tiles[b] > k {
        AlignedBelow(b, tiles[b], k + 1);
        AlignedShift(h, k);
        assert false;
      }
    } else {
      LowerBuddyStartsBlock(n, tiles, h, b);
    }
  }

  lemma {:induction false} TilingOwner(n: nat, tiles: map<nat, nat>, p: nat) returns (h: nat)
    requires Tiling(n, tiles) && p < n
    ensures h in tiles && h <= p < h + Pow2(tiles[h])
  {
    if p in tiles { return p; }
    h := TilingOwner(n, tiles, p - 1);
    assert Followed(n, tiles, h);
  }

  lemma LowerBuddyStartsBlock(n: nat, tiles: map<nat, nat>, h: nat, b: nat)
    requires Tiling(n, tiles) && h in tiles && b + Pow2(tiles[h]) == h
    requires Aligned(b, tiles[h] + 1)
    ensures b in tiles && tiles[b] <= tiles[h]
  {
    var k := tiles[h];
    assert Fits(n, tiles, h);
    var g := TilingOwner(n, tiles, b);
    var kg := tiles[g];
    assert Fits(n, tiles, g) && Apart(tiles, g, h);
    if kg > k {
      AlignedBelow(g, kg, k + 1);
      AlignedShift(g, kg);
      AlignedBelow(g + Pow2(kg), kg, k + 1);
      AlignedGap(b, g + Pow2(kg), k + 1);
      assert false;
    }
    AlignedBelow(b, k + 1, kg);
    AlignedGap(g, b, kg);
  }

  // ---------------------------------------------------------------- splitting

  /** The state between two steps of an operation: well formed, with the block at `h`, of order
      `k`, in nobody's list. */
  ghost predicate Holding(a: Arena, h: nat, k: nat) {
    a.Inv() && h in a.tiles && a.tiles[h] == k && !a.IsFree(h)
  }

  function SplitOnce(a: Arena, h: nat, j: nat): Arena
    requires 0 < j <= |a.lists|
  {
    var mid := h + Pow2(j - 1);
    if mid < a.Pages() then Push(a.(tiles := a.tiles[h := j - 1][mid := j - 1]), j - 1, mid)
    else a.(tiles := a.tiles[h := j - 1])
  }

  /** Replacing a block of order `k + 1` by its two halves keeps the tiling. */
  lemma HalveTiling(n: nat, tiles: map<nat, nat>, h: nat, k: nat)
    requires Tiling(n, tiles) && h in tiles && tiles[h] == k + 1
    ensures h + Pow2(k) !in tiles
    ensures h + Pow2(k) < n ==> Tiling(n, tiles[h := k][h + Pow2(k) := k])
    ensures h + Pow2(k) >= n ==> Tiling(n, tiles[h := k])
  {
    var mid := h + Pow2(k);
    assert Fits(n, tiles, h) && Followed(n, tiles, h);
    assert mid in tiles ==> Apart(tiles, h, mid);
    AlignedBelow(h, k + 1, k);
    AlignedShift(h, k);
    var t := if mid < n then tiles[h := k][mid := k] else tiles[h := k];
    forall g | g in t ensures Fits(n, t, g) && Followed(n, t, g) {
      if g != h && g != mid { assert Fits(n, tiles, g) && Followed(n, tiles, g); }
    }
    forall g, x | g in t && x in t ensures Apart(t, g, x) {
      if x != mid {
        assert Apart(tiles, if g == mid then h else g, x);
      } else if g != h && g != mid {
        assert Apart(tiles, g, h) && Apart(tiles, h, g);
      }
    }
  }

  lemma SplitListed(a: Arena, h: nat, j: nat)
    requires Holding(a, h, j) && j > 0
    ensures SplitOnce(a, h, j).Listed()
    ensures forall g: nat :: SplitOnce(a, h, j).IsFree(g) <==>
              a.IsFree(g) || (g == h + Pow2(j - 1) && g < a.Pages())
  {
    HalveTiling(a.Pages(), a.tiles, h, j - 1);
    var a' := SplitOnce(a, h, j);
    var mid := h + Pow2(j - 1);
    assert mid !in a.tiles;
    forall g: nat ensures a'.IsFree(g) <==> a.IsFree(g) || (g == mid && g < a.Pages()) {
      if mid < a.Pages() {
        assert a'.lists[j - 1][0] == mid;
      }
    }
  }

  lemma SplitCoalesced(a: Arena, h: nat, j: nat)
    requires Holding(a, h, j) && j > 0
    ensures SplitOnce(a, h, j).Coalesced()
  {
    HalveTiling(a.Pages(), a.tiles, h, j - 1);
    SplitListed(a, h, j);
    var a' := SplitOnce(a, h, j);
    var mid := h + Pow2(j - 1);
    assert Fits(a.Pages(), a.tiles, h);
    AlignedBelow(h, j, j - 1);
    BuddyPair(h, j - 1);
    assert mid < a.Pages() ==> Buddy(mid, j - 1) == h;
    forall g | g in a'.tiles && Aligned(g, a'.tiles[g]) && a'.IsFree(g) ensures !a'.BuddyFree(g) {
      BuddyPair(g, a'.tiles[g]);
      if g != mid { assert !a.BuddyFree(g); }
    }
  }

  lemma SplitPage(a: Arena, h: nat, j: nat, p: nat)
    requires Holding(a, h, j) && j > 0 && p < a.Pages()
    ensures p in FreePages(SplitOnce(a, h, j)) <==>
            p in FreePages(a) || h + Pow2(j - 1) <= p < h + Pow2(j)
  {
    HalveTiling(a.Pages(), a.tiles, h, j - 1);
    SplitListed(a, h, j);
    var a' := SplitOnce(a, h, j);
    SplitOwner(a, h, j, p);
    FreeByOwner(a, Owner(a, p), p);
    FreeByOwner(a', Owner(a', p), p);
  }

  lemma SplitFreePages(a: Arena, h: nat, j: nat)
    requires Holding(a, h, j) && j > 0
    ensures FreePages(SplitOnce(a, h, j)) ==
            FreePages(a) + (Extent(a.Pages(), h, j) - Extent(a.Pages(), h, j - 1))
  {
    forall p: nat | p < a.Pages()
      ensures p in FreePages(SplitOnce(a, h, j)) <==>
              p in FreePages(a) || h + Pow2(j - 1) <= p < h + Pow2(j)
    {
      SplitPage(a, h, j, p);
    }
    ExtentPages(a, h, j);
    ExtentPages(a, h, j - 1);
  }

  lemma FreeByOwner(a: Arena, h: nat, p: nat)
    requires a.Tiled() && p < a.Pages() && a.Owns(h, p)
    ensures p in FreePages(a) <==> a.IsFree(h)
  {
    EveryPageOwnedOnce(a, p);
    assert AtOrAbove(p, 0);
  }

  lemma SplitOwner(a: Arena, h: nat, j: nat, p: nat)
    requires Holding(a, h, j) && j > 0 && SplitOnce(a, h, j).Tiled() && p < a.Pages()
    ensures Owner(SplitOnce(a, h, j), p) ==
            if h + Pow2(j - 1) <= p < h + Pow2(j) then h + Pow2(j - 1) else Owner(a, p)
  {
    var a' := SplitOnce(a, h, j);
    var g := Owner(a, p);
    var mid := h + Pow2(j - 1);
    EveryPageOwnedOnce(a', p);
    EveryPageOwnedOnce(a, p);
    HalveTiling(a.Pages(), a.tiles, h, j - 1);
    assert a'.Owns(if mid <= p < h + Pow2(j) then mid else g, p);
  }

  lemma SplitHolding(a: Arena, h: nat, j: nat)
    requires Holding(a, h, j) && j > 0
    ensures Holding(SplitOnce(a, h, j), h, j - 1)
    ensures SplitOnce(a, h, j).Live() == a.Live()[h := j - 1]
  {
    HalveTiling(a.Pages(), a.tiles, h, j - 1);
    SplitListed(a, h, j);
    SplitCoalesced(a, h, j);
  }

  lemma {:induction false} SplitToHolding(a: Arena, h: nat, j: nat, k: nat)
    requires Holding(a, h, j) && k <= j
    ensures Holding(SplitTo(a, h, j, k), h, k)
    ensures SplitTo(a, h, j, k).m == a.m && |SplitTo(a, h, j, k).lists| == |a.lists|
    ensures SplitTo(a, h, j, k).Live() == a.Live()[h := k]
    decreases j
  {
    if k < j {
      var a' := SplitOnce(a, h, j);
      SplitHolding(a, h, j);
      SplitToHolding(a', h, j - 1, k);
      assert SplitTo(a, h, j, k) == SplitTo(a', h, j - 1, k);
    }
  }

  lemma {:induction false} SplitToFreePages(a: Arena, h: nat, j: nat, k: nat)
    requires Holding(a, h, j) && k <= j
    ensures FreePages(SplitTo(a, h, j, k)) ==
            FreePages(a) + (Extent(a.Pages(), h, j) - Extent(a.Pages(), h, k))
    decreases j
  {
    if k < j {
      var a' := SplitOnce(a, h, j);
      SplitHolding(a, h, j);
      SplitFreePages(a, h, j);
      SplitToFreePages(a', h, j - 1, k);
      assert SplitTo(a, h, j, k) == SplitTo(a', h, j - 1, k);
      Telescope(FreePages(a), a.Pages(), h, j, k);
    }
  }

  lemma Telescope(f: set<nat>, n: nat, h: nat, j: nat, k: nat)
    requires k < j
    ensures f + (Extent(n, h, j) - Extent(n, h, j - 1)) + (Extent(n, h, j - 1) - Extent(n, h, k))
            == f + (Extent(n, h, j) - Extent(n, h, k))
  {
    ExtentShrinks(n, h, j, j - 1);
    ExtentShrinks(n, h, j - 1, k);
  }

  lemma ExtentShrinks(n: nat, h: nat, j: nat, k: nat)
    requires k <= j
    ensures Extent(n, h, k) <= Extent(n, h, j)
  {
    Pow2Monotone(k, j);
  }

  // ---------------------------------------------------------------- kalloc

  lemma PopHolding(a: Arena, i: nat)
    requires a.Inv() && i < |a.lists| && a.lists[i] != []
    ensures Holding(Pop(a, i), a.lists[i][0], i)
    ensures a.lists[i][0] !in a.Live()
    ensures Pop(a, i).Live() == a.Live()[a.lists[i][0] := i]
    ensures forall g :: Pop(a, i).IsFree(g) <==> a.IsFree(g) && g != a.lists[i][0]
  {
    var a' := Pop(a, i);
    var h := a.lists[i][0];
    assert a.lists[i] == [h] + a'.lists[i];
    forall g ensures a'.IsFree(g) <==> a.IsFree(g) && g != h {
    }
    forall g | g in a'.tiles && Aligned(g, a'.tiles[g]) && a'.IsFree(g) ensures !a'.BuddyFree(g) {
      assert !a.BuddyFree(g);
    }
  }

  /** Taking the block at `h` out of the lists takes exactly its pages out of the free pages. */
  lemma UnlistedPages(a: Arena, a': Arena, h: nat)
    requires a.Inv() && a'.Inv() && a'.m == a.m && a'.tiles == a.tiles && a.IsFree(h)
    requires forall g :: a'.IsFree(g) <==> a.IsFree(g) && g != h
    ensures Extent(a.Pages(), h, a.tiles[h]) <= FreePages(a)
    ensures FreePages(a') == FreePages(a) - Extent(a.Pages(), h, a.tiles[h])
  {
    forall p: nat | p < a.Pages()
      ensures p in Extent(a.Pages(), h, a.tiles[h]) <==> Owner(a, p) == h
      ensures p in FreePages(a) <==> a.IsFree(Owner(a, p))
      ensures p in FreePages(a') <==> a'.IsFree(Owner(a, p))
    {
      EveryPageOwnedOnce(a, p);
      assert a.Owns(h, p) <==> h <= p < h + Pow2(a.tiles[h]);
      assert AtOrAbove(p, h) <==> h <= p;
      FreeByOwner(a, Owner(a, p), p);
      FreeByOwner(a', Owner(a, p), p);
    }
  }

  /** kalloc fails exactly when no free block is large enough. Otherwise it hands out a block of
      the requested order, aligned to its size, whose pages inside the region were free; the other
      live blocks are untouched and the free pages drop by exactly those. Whether the whole block
      lies in the region is another matter: see AllocateInside. */
  lemma AllocateCorrect(a: Arena, k: nat)
    requires a.Inv()
    ensures Allocate(a, k).Nothing? <==> forall h :: a.IsFree(h) ==> a.tiles[h] < k
    ensures var r := Allocate(a, k);
            r.Block? ==>
              && r.arena.Inv() && r.arena.m == a.m && |r.arena.lists| == |a.lists|
              && k < |a.lists|
              && r.head < a.Pages() && Aligned(r.head, k)
              && r.head !in a.Live() && r.arena.Live() == a.Live()[r.head := k]
              && Extent(a.Pages(), r.head, k) <= FreePages(a)
              && FreePages(r.arena) == FreePages(a) - Extent(a.Pages(), r.head, k)
  {
    if k < |a.lists| {
      var i := FirstNonEmpty(a.lists, k);
      if i < |a.lists| {
        var h := a.lists[i][0];
        assert a.IsFree(h) && a.tiles[h] == i;
        PopHolding(a, i);
        UnlistedPages(a, Pop(a, i), h);
        SplitToHolding(Pop(a, i), h, i, k);
        SplitToFreePages(Pop(a, i), h, i, k);
        ExtentShrinks(a.Pages(), h, i, k);
        var a' := SplitTo(Pop(a, i), h, i, k);
        assert Fits(a'.Pages(), a'.tiles, h);
      }
    }
  }

  /** The block handed out lies inside the region, and was wholly free, exactly when its order is no
      larger than the region's. With more lists than the region needs, as in the code, a larger
      request can succeed and then reaches past the last page. */
  lemma AllocateInside(a: Arena, k: nat)
    requires a.Inv() && Allocate(a, k).Block?
    ensures var h := Allocate(a, k).head;
            && (h + Pow2(k) <= a.Pages() <==> k <= a.m)
            && (PagesOf(h, k) <= FreePages(a) <==> k <= a.m)
  {
    AllocateCorrect(a, k);
    var h := Allocate(a, k).head;
    AlignedInRegion(h, k, a.m);
    if k <= a.m {
      assert PagesOf(h, k) == Extent(a.Pages(), h, k);
    } else {
      Pow2Monotone(a.m, k);
      assert AtOrAbove(h + Pow2(k) - 1, h);
      assert h + Pow2(k) - 1 in PagesOf(h, k);
    }
  }

  /** On the kernel's 64 pages and nine lists, a fresh allocator gives 128 pages away. */
  lemma AllocatePastRegion()
    ensures Initial(6, 9).Inv() && Allocate(Initial(6, 9), 7).Block?
    ensures Allocate(Initial(6, 9), 7).head == 0 && !(PagesOf(0, 7) <= FreePages(Initial(6, 9)))
  {
    var a := Initial(6, 9);
    InitialInv(6, 9);
    assert a.lists[8] == [0];
    AllocateFrom(a, 7, 8);
    AllocateInside(a, 7);
  }

  /** The free pages drop by exactly `2^k`, or to none when the block is larger than the region. */
  lemma AllocateCount(a: Arena, k: nat)
    requires a.Inv() && Allocate(a, k).Block?
    ensures |FreePages(Allocate(a, k).arena)| == |FreePages(a)| - Min(Pow2(k), a.Pages())
  {
    AllocateCorrect(a, k);
    ExtentSize(a, Allocate(a, k).head, k);
    RemoveCount(FreePages(a), Extent(a.Pages(), Allocate(a, k).head, k));
  }

  lemma ExtentSize(a: Arena, h: nat, k: nat)
    requires h < a.Pages() && Aligned(h, k)
    ensures |Extent(a.Pages(), h, k)| == Min(Pow2(k), a.Pages())
  {
    AlignedInRegion(h, k, a.m);
    if k <= a.m { Pow2Monotone(k, a.m); } else { Pow2Monotone(a.m, k); }
    RangeSize(h, Min(h + Pow2(k), a.Pages()));
  }

  lemma RemoveCount(s: set<nat>, t: set<nat>)
    requires t <= s
    ensures |s - t| == |s| - |t|
  {
    assert s == (s - t) + t;
  }

  // ---------------------------------------------------------------- kfree

  lemma {:induction false} WithoutMembers(s: seq<nat>, h: nat)
    requires NoRepeats(s) && h in s
    ensures NoRepeats(Without(s, h))
    ensures forall x :: x in Without(s, h) <==> x in s && x != h
  {
    assert s == [s[0]] + s[1..];
    if s[0] != h {
      WithoutMembers(s[1..], h);
      var r := Without(s[1..], h);
      assert s[0] !in s[1..];
      forall x ensures x in Without(s, h) <==> x in s && x != h {
        assert x in [s[0]] + r <==> x == s[0] || x in r;
      }
    }
  }

  lemma JoinTiling(n: nat, tiles: map<nat, nat>, lo: nat, k: nat)
    requires Tiling(n, tiles) && lo in tiles && lo + Pow2(k) in tiles
    requires tiles[lo] == k && tiles[lo + Pow2(k)] == k && Aligned(lo, k + 1)
    ensures Tiling(n, Joined(tiles, lo, k))
  {
    var t := Joined(tiles, lo, k);
    forall g | g in t ensures Fits(n, t, g) && Followed(n, t, g) {
      JoinedOne(n, tiles, lo, k, g);
    }
    forall g, x | g in t && x in t ensures Apart(t, g, x) {
      JoinedApart(n, tiles, lo, k, g, x);
    }
  }

  function Joined(tiles: map<nat, nat>, lo: nat, k: nat): map<nat, nat> {
    (tiles - {lo + Pow2(k)})[lo := k + 1]
  }

  lemma JoinedOne(n: nat, tiles: map<nat, nat>, lo: nat, k: nat, g: nat)
    requires Tiling(n, tiles) && lo in tiles && lo + Pow2(k) in tiles && g in Joined(tiles, lo, k)
    requires tiles[lo] == k && tiles[lo + Pow2(k)] == k && Aligned(lo, k + 1)
    ensures Fits(n, Joined(tiles, lo, k), g) && Followed(n, Joined(tiles, lo, k), g)
  {
    assert Fits(n, tiles, lo) && Fits(n, tiles, g);
    assert Followed(n, tiles, g) && Followed(n, tiles, lo + Pow2(k));
    assert Apart(tiles, g, lo) && Apart(tiles, lo, g);
  }

  lemma JoinedApart(n: nat, tiles: map<nat, nat>, lo: nat, k: nat, g: nat, x: nat)
    requires Tiling(n, tiles) && lo in tiles && lo + Pow2(k) in tiles
    requires tiles[lo] == k && tiles[lo + Pow2(k)] == k
    requires g in Joined(tiles, lo, k) && x in Joined(tiles, lo, k)
    ensures Apart(Joined(tiles, lo, k), g, x)
  {
    assert Apart(tiles, g, x) && Apart(tiles, lo + Pow2(k), x);
  }

  lemma MergeTiled(a: Arena, h: nat, k: nat)
    requires Holding(a, h, k) && Aligned(h, k) && a.BuddyFree(h)
    ensures k + 1 < |a.lists| && Merge(a, h, k).Tiled()
    ensures NoRepeats(Without(a.lists[k], Buddy(h, k)))
    ensures forall x :: x in Without(a.lists[k], Buddy(h, k)) <==> x in a.lists[k] && x != Buddy(h, k)
  {
    var b := Buddy(h, k);
    BuddyPair(h, k);
    assert Fits(a.Pages(), a.tiles, h) && Fits(a.Pages(), a.tiles, b);
    BuddyInRegion(h, k, a.m);
    JoinTiling(a.Pages(), a.tiles, Min(h, b), k);
    WithoutMembers(a.lists[k], b);
  }

  lemma MergeListed(a: Arena, h: nat, k: nat)
    requires Holding(a, h, k) && Aligned(h, k) && a.BuddyFree(h)
    ensures Merge(a, h, k).Tiled() && k + 1 < |a.lists|
    ensures Merge(a, h, k).Listed()
    ensures forall g :: Merge(a, h, k).IsFree(g) <==> a.IsFree(g) && g != Buddy(h, k)
  {
    var a', b := Merge(a, h, k), Buddy(h, k);
    var lo := Min(h, b);
    MergeTiled(a, h, k);
    forall q, i | 0 <= q < |a'.lists| && 0 <= i < |a'.lists[q]|
      ensures a'.lists[q][i] in a'.tiles && a'.tiles[a'.lists[q][i]] == q
    {
      var x := a'.lists[q][i];
      assert x in a'.lists[q];
      assert x in a.lists[q] && a.IsFree(x);
    }
    forall g ensures a'.IsFree(g) <==> a.IsFree(g) && g != b {
      if a'.IsFree(g) { assert g in a.lists[a'.tiles[g]]; }
    }
  }

  /** Joining the held block with its free buddy leaves a held block of the next order. */
  lemma MergeHolding(a: Arena, h: nat, k: nat)
    requires Holding(a, h, k) && Aligned(h, k) && a.BuddyFree(h)
    ensures k + 1 < |a.lists|
    ensures Holding(Merge(a, h, k), Min(h, Buddy(h, k)), k + 1)
    ensures Merge(a, h, k).Live() - {Min(h, Buddy(h, k))} == a.Live() - {h}
  {
    var a', b := Merge(a, h, k), Buddy(h, k);
    MergeListed(a, h, k);
    forall g | g in a'.tiles && Aligned(g, a'.tiles[g]) && a'.IsFree(g) ensures !a'.BuddyFree(g) {
      assert !a.BuddyFree(g);
    }
  }

  lemma MergePage(a: Arena, h: nat, k: nat, p: nat)
    requires Holding(a, h, k) && Aligned(h, k) && a.BuddyFree(h) && p < a.Pages()
    ensures p in FreePages(Merge(a, h, k)) <==>
            p in FreePages(a) && !(Buddy(h, k) <= p < Buddy(h, k) + Pow2(k))
  {
    var a', b := Merge(a, h, k), Buddy(h, k);
    MergeListed(a, h, k);
    BuddyPair(h, k);
    var g := Owner(a, p);
    EveryPageOwnedOnce(a, p);
    FreeByOwner(a, g, p);
    assert a.Owns(b, p) <==> b <= p < b + Pow2(k);
    if g == h || g == b {
      assert a'.Owns(Min(h, b), p) by { assert Pow2(k + 1) == 2 * Pow2(k); }
      FreeByOwner(a', Min(h, b), p);
    } else {
      assert a'.Owns(g, p);
      FreeByOwner(a', g, p);
    }
  }

  lemma MergeFreePages(a: Arena, h: nat, k: nat)
    requires Holding(a, h, k) && Aligned(h, k) && a.BuddyFree(h)
    ensures FreePages(Merge(a, h, k)) + Extent(a.Pages(), Min(h, Buddy(h, k)), k + 1) ==
            FreePages(a) + Extent(a.Pages(), h, k)
  {
    var b := Buddy(h, k);
    forall p: nat | p < a.Pages()
      ensures p in FreePages(Merge(a, h, k)) <==> p in FreePages(a) && !(b <= p < b + Pow2(k))
      ensures b <= p < b + Pow2(k) ==> p in FreePages(a)
    {
      MergePage(a, h, k, p);
      if b <= p < b + Pow2(k) { FreeByOwner(a, b, p); }
    }
    BuddyPair(h, k);
    assert Pow2(k + 1) == 2 * Pow2(k);
    ExtentPages(a, Min(h, b), k + 1);
    ExtentPages(a, h, k);
  }

  lemma ExtentPages(a: Arena, h: nat, k: nat)
    ensures forall p: nat :: p in Extent(a.Pages(), h, k) <==> h <= p < h + Pow2(k) && p < a.Pages()
  {
    forall p: nat ensures p in Extent(a.Pages(), h, k) <==> h <= p < h + Pow2(k) && p < a.Pages() {
      assert AtOrAbove(p, h) <==> h <= p;
    }
  }

  lemma PushCorrect(a: Arena, h: nat, k: nat)
    requires Holding(a, h, k) && Aligned(h, k) && !a.BuddyFree(h)
    ensures Push(a, k, h).Inv()
    ensures Push(a, k, h).Live() == a.Live() - {h}
    ensures forall g :: Push(a, k, h).IsFree(g) <==> a.IsFree(g) || g == h
  {
    var a' := Push(a, k, h);
    assert a'.lists[k][0] == h;
    forall g ensures a'.IsFree(g) <==> a.IsFree(g) || g == h {
      if g != h && a'.IsFree(g) { assert g in a.lists[a.tiles[g]]; }
    }
    forall g | g in a'.tiles && Aligned(g, a'.tiles[g]) && a'.IsFree(g) ensures !a'.BuddyFree(g) {
      BuddyPair(g, a'.tiles[g]);
      if g != h { assert !a.BuddyFree(g); }
    }
  }

  lemma PushFreePages(a: Arena, h: nat, k: nat)
    requires Holding(a, h, k) && Aligned(h, k) && !a.BuddyFree(h)
    ensures FreePages(Push(a, k, h)) == FreePages(a) + Extent(a.Pages(), h, k)
    ensures FreePages(a) !! Extent(a.Pages(), h, k)
  {
    PushCorrect(a, h, k);
    assert forall g :: a.IsFree(g) <==> Push(a, k, h).IsFree(g) && g != h;
    UnlistedPages(Push(a, k, h), a, h);
  }

  lemma {:induction false} ReleaseHeld(a: Arena, h: nat, k: nat)
    requires Holding(a, h, k) && Aligned(h, k)
    ensures Release(a, h, k).Inv()
    ensures Release(a, h, k).m == a.m && |Release(a, h, k).lists| == |a.lists|
    ensures Release(a, h, k).Live() == a.Live() - {h}
    ensures FreePages(Release(a, h, k)) == FreePages(a) + Extent(a.Pages(), h, k)
    decreases |a.lists| - k
  {
    if a.BuddyFree(h) {
      MergeHolding(a, h, k);
      MergeFreePages(a, h, k);
      LowerHalfAligned(h, k);
      var lo := Min(h, Buddy(h, k));
      ReleaseHeld(Merge(a, h, k), lo, k + 1);
    } else {
      PushCorrect(a, h, k);
      PushFreePages(a, h, k);
    }
  }

  /** kfree gives back exactly the block, leaves every other live block alone, and never leaves
      two free buddies of one order side by side. */
  lemma ReleaseCorrect(a: Arena, h: nat)
    requires a.Inv() && a.IsLive(h)
    ensures Fits(a.Pages(), a.tiles, h)
    ensures var a' := Release(a, h, a.tiles[h]);
            && a'.Inv() && a'.m == a.m && |a'.lists| == |a.lists|
            && a'.Live() == a.Live() - {h}
            && Extent(a.Pages(), h, a.tiles[h]) !! FreePages(a)
            && FreePages(a') == FreePages(a) + Extent(a.Pages(), h, a.tiles[h])
  {
    assert Fits(a.Pages(), a.tiles, h);
    ReleaseHeld(a, h, a.tiles[h]);
    forall p | p in Extent(a.Pages(), h, a.tiles[h]) ensures p !in FreePages(a) {
      assert AtOrAbove(p, h);
      FreeByOwner(a, h, p);
    }
  }

  lemma MergeHeads(a: Arena, h: nat, k: nat)
    requires Holding(a, h, k) && Aligned(h, k) && a.BuddyFree(h)
    ensures k < |a.lists| && Merge(a, h, k).tiles.Keys == a.tiles.Keys - {Max(h, Buddy(h, k))}
  {
    BuddyPair(h, k);
  }

  /** Where the block at `h` ends up: the first page of the block it is merged into. */
  function MergedHead(a: Arena, h: nat, k: nat): nat
    requires k < |a.lists| && Aligned(h, k)
    decreases |a.lists| - k
  {
    var b := Buddy(h, k);
    if a.IsFree(b) && a.tiles[b] == k && k + 1 < |a.lists| then
      LowerHalfAligned(h, k);
      MergedHead(Merge(a, h, k), Min(h, b), k + 1)
    else h
  }

  lemma {:induction false} MergedHeadStays(a: Arena, h: nat, k: nat)
    requires Holding(a, h, k) && Aligned(h, k)
    ensures MergedHead(a, h, k) in Release(a, h, k).tiles && Release(a, h, k).tiles.Keys <= a.tiles.Keys
    ensures h in Release(a, h, k).tiles <==> MergedHead(a, h, k) == h
    decreases |a.lists| - k
  {
    if a.BuddyFree(h) {
      MergeHolding(a, h, k);
      LowerHalfAligned(h, k);
      BuddyPair(h, k);
      MergedHeadStays(Merge(a, h, k), Min(h, Buddy(h, k)), k + 1);
    }
  }

  /** A second free right after the first is no free of a live block. It names the first page of a
      block, whose record says that it is free, exactly when the block starts the one it was merged
      into; otherwise the page lies inside that block. */
  lemma SecondFree(a: Arena, h: nat)
    requires a.Inv() && a.IsLive(h)
    ensures Aligned(h, a.tiles[h])
    ensures var a' := Release(a, h, a.tiles[h]);
            && !a'.IsLive(h)
            && (a'.IsFree(h) <==> MergedHead(a, h, a.tiles[h]) == h)
            && (h in a'.tiles <==> MergedHead(a, h, a.tiles[h]) == h)
  {
    ReleaseCorrect(a, h);
    MergedHeadStays(a, h, a.tiles[h]);
    assert h !in Release(a, h, a.tiles[h]).Live();
  }

  // ---------------------------------------------------------------- whole runs

  datatype Request = Alloc(order: nat) | Free(head: nat)

  /** The callers' part: only live blocks are freed. */
  predicate Allowed(a: Arena, r: Request) {
    r.Free? ==> a.IsLive(r.head)
  }

  /** One call. */
  ghost function Step(a: Arena, r: Request): (a': Arena)
    requires a.Inv() && Allowed(a, r)
    ensures a'.Inv() && a'.m == a.m && |a'.lists| == |a.lists|
  {
    match r
    case Alloc(k) =>
      AllocateCorrect(a, k);
      var res := Allocate(a, k);
      if res.Nothing? then a else res.arena
    case Free(h) =>
      ReleaseCorrect(a, h);
      Release(a, h, a.tiles[h])
  }

  /** Each free of `rs` names a block that is live when its turn comes. */
  ghost predicate Legal(a: Arena, rs: seq<Request>)
    requires a.Inv()
    decreases |rs|
  {
    rs == [] || (Allowed(a, rs[0]) && Legal(Step(a, rs[0]), rs[1..]))
  }

  ghost function Run(a: Arena, rs: seq<Request>): (a': Arena)
    requires a.Inv() && Legal(a, rs)
    ensures a'.Inv() && a'.m == a.m && |a'.lists| == |a.lists|
    decreases |rs|
  {
    if rs == [] then a else Run(Step(a, rs[0]), rs[1..])
  }

  lemma InitialInv(m: nat, numLists: nat)
    requires m < numLists
    ensures Initial(m, numLists).Inv()
    ensures Initial(m, numLists).Live() == map[]
  {
    var a := Initial(m, numLists);
    ZeroAligned(numLists - 1);
    Pow2Monotone(m, numLists - 1);
    assert a.lists[numLists - 1] == [0];
    ZeroAligned(numLists);
  }

  /** After any calls that free only live blocks, from the state the constructor leaves: the live and the
      free blocks tile the region, each page belongs to exactly one, no two free buddies lie side by side,
      and a page is free exactly when its block is listed. */
  lemma EveryRun(m: nat, numLists: nat, rs: seq<Request>, p: nat)
    requires m < numLists && p < Pow2(m)
    requires Initial(m, numLists).Inv() ==> Legal(Initial(m, numLists), rs)
    ensures Initial(m, numLists).Inv()
    ensures var a := Run(Initial(m, numLists), rs);
            && a.Inv() && a.m == m && |a.lists| == numLists
            && (exists h :: a.Owns(h, p) && (p in FreePages(a) <==> a.IsFree(h)))
            && (forall g, h :: a.Owns(g, p) && a.Owns(h, p) ==> g == h)
  {
    InitialInv(m, numLists);
    var a := Run(Initial(m, numLists), rs);
    EveryPageOwnedOnce(a, p);
    FreeByOwner(a, Owner(a, p), p);
  }

  /** With nothing live no block smaller than the region is left. */
  lemma {:induction false} NoSmallBlock(a: Arena, h: nat)
    requires a.Inv() && a.Live() == map[] && h in a.tiles
    ensures a.tiles[h] >= a.m
    decreases a.tiles[h]
  {
    var k := a.tiles[h];
    if k < a.m {
      assert h !in a.Live();
      assert Fits(a.Pages(), a.tiles, h) && !a.BuddyFree(h);
      BuddyInRegion(h, k, a.m);
      BuddyStartsBlock(a.Pages(), a.tiles, h);
      var b := Buddy(h, k);
      assert b !in a.Live();
      NoSmallBlock(a, b);
    }
  }

  /** With nothing live the region is one free block. */
  lemma NothingLive(a: Arena)
    requires a.Inv() && a.Live() == map[]
    ensures a.tiles.Keys == {0} && a.tiles[0] >= a.m && a.IsFree(0)
    ensures FreePages(a) == Range(0, a.Pages())
  {
    assert 0 !in a.Live();
    forall h | h in a.tiles ensures h == 0 && a.tiles[h] >= a.m {
      NoSmallBlock(a, h);
      assert Fits(a.Pages(), a.tiles, h);
      AlignedInRegion(h, a.tiles[h], a.m);
    }
    forall p | p in Range(0, a.Pages()) ensures p in FreePages(a) {
      EveryPageOwnedOnce(a, p);
    }
  }

  function Frees(hs: seq<nat>): seq<Request> {
    if hs == [] then [] else [Free(hs[0])] + Frees(hs[1..])
  }

  /** Freeing every live block, in any order, restores one block that covers the region. */
  lemma {:induction false} FreeingAllRestores(a: Arena, hs: seq<nat>)
    requires a.Inv() && NoRepeats(hs) && (forall h :: h in hs <==> h in a.Live())
    ensures Legal(a, Frees(hs))
    ensures var a' := Run(a, Frees(hs));
            a'.tiles.Keys == {0} && a'.tiles[0] >= a.m && a'.IsFree(0)
    decreases |hs|
  {
    if hs == [] {
      assert a.Live() == map[];
      NothingLive(a);
    } else {
      var h, rest := hs[0], hs[1..];
      assert hs == [h] + rest;
      assert h in a.Live();
      ReleaseCorrect(a, h);
      assert Allowed(a, Free(h));
      var a' := Step(a, Free(h));
      assert Frees(hs) == [Free(h)] + Frees(rest);
      assert forall x :: x in rest <==> x in hs && x != h;
      FreeingAllRestores(a', rest);
    }
  }

  /** A block that stays live is the same block after any calls that do not free it. */
  lemma {:induction false} LiveBlocksPersist(a: Arena, rs: seq<Request>, h: nat)
    requires a.Inv() && Legal(a, rs) && h in a.Live() && Free(h) !in rs
    ensures h in Run(a, rs).Live() && Run(a, rs).Live()[h] == a.Live()[h]
    decreases |rs|
  {
    if rs != [] {
      assert rs[0] in rs;
      match rs[0] {
        case Alloc(k) => AllocateCorrect(a, k);
        case Free(g) => ReleaseCorrect(a, g);
      }
      LiveBlocksPersist(Step(a, rs[0]), rs[1..], h);
    }
  }
}
