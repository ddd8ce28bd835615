/** What the buddy allocator means: a managed region of `2^m` pages cut into power-of-two blocks,
    some live and some listed as free. `Allocate` and `Release` describe what kalloc and kfree do
    to it; the theorems about every run of the allocator are proved here, on values. */
module BuddyArena {
  import opened Bits

  /** `tiles` maps the first page of every block to the block's order; `lists[k]` holds, in list
      order, the first pages of the free blocks of order `k`. There may be more lists than the
      region needs: a block of order above `m` is cut off at the end of the region. */
  datatype Arena = Arena(m: nat, tiles: map<nat, nat>, lists: seq<seq<nat>>) {

    function Pages(): nat { Pow2(m) }

    predicate IsFree(h: nat) {
      h in tiles && tiles[h] < |lists| && h in lists[tiles[h]]
    }

    predicate IsLive(h: nat) {
      h in tiles && !IsFree(h)
    }

    function Live(): map<nat, nat> {
      map h | h in tiles && !IsFree(h) :: tiles[h]
    }

    /** Page `p` belongs to the block that starts at page `h`. */
    predicate Owns(h: nat, p: nat) {
      h in tiles && h <= p < h + Pow2(tiles[h])
    }

    ghost predicate Tiled() {
      Tiling(Pages(), tiles)
    }

    /** Every listed page heads a block of exactly that list's order, and is listed once. */
    ghost predicate Listed() {
      && (forall h :: h in tiles ==> tiles[h] < |lists|)
      && (forall k, j :: 0 <= k < |lists| && 0 <= j < |lists[k]| ==>
            lists[k][j] in tiles && tiles[lists[k][j]] == k)
      && (forall k :: 0 <= k < |lists| ==> NoRepeats(lists[k]))
    }

    /** The buddy of the block at `h` is a free block of the same order. */
    predicate BuddyFree(h: nat)
      requires h in tiles && Aligned(h, tiles[h])
    {
      var b := Buddy(h, tiles[h]);
      IsFree(b) && tiles[b] == tiles[h]
    }

    ghost predicate Coalesced() {
      forall h {:trigger BuddyFree(h)} ::
        h in tiles && Aligned(h, tiles[h]) && IsFree(h) ==> !BuddyFree(h)
    }

    ghost predicate Inv() {
      m < |lists| && Tiled() && Listed() && Coalesced()
    }
  }

  /** The block at `h` starts inside the region, at a multiple of its size. */
  predicate Fits(pages: nat, tiles: map<nat, nat>, h: nat)
    requires h in tiles
  {
    h < pages && Aligned(h, tiles[h])
  }

  /** Where the block at `h` stops, another starts or the region ends. */
  predicate Followed(pages: nat, tiles: map<nat, nat>, h: nat)
    requires h in tiles
  {
    h + Pow2(tiles[h]) >= pages || h + Pow2(tiles[h]) in tiles
  }

  /** The block at `h` does not start inside the block at `g`. */
  predicate Apart(tiles: map<nat, nat>, g: nat, h: nat)
    requires g in tiles && h in tiles
  {
    g < h ==> g + Pow2(tiles[g]) <= h
  }

  /** The blocks cover the region edge to edge: the first starts at page 0, each is aligned to
      its own size, none starts inside another, and behind each comes another or the end. */
  ghost predicate Tiling(pages: nat, tiles: map<nat, nat>) {
    && 0 in tiles
    && (forall h {:trigger Fits(pages, tiles, h)} :: h in tiles ==> Fits(pages, tiles, h))
    && (forall h {:trigger Followed(pages, tiles, h)} :: h in tiles ==> Followed(pages, tiles, h))
    && (forall g, h {:trigger Apart(tiles, g, h)} :: g in tiles && h in tiles ==> Apart(tiles, g, h))
  }

  /** `h` is a multiple of `2^k`; see AlignedIsModulus. */
  predicate Aligned(h: nat, k: nat) {
    k == 0 || (h % 2 == 0 && Aligned(h / 2, k - 1))
  }

  predicate NoRepeats(s: seq<nat>) {
    forall i, j :: 0 <= i < j < |s| ==> s[i] != s[j]
  }

  function Buddy(h: nat, k: nat): nat
    requires Aligned(h, k)
  {
    HalfOfParent(h, k);
    if Aligned(h, k + 1) then h + Pow2(k) else h - Pow2(k)
  }

  /** The pages a block of order `k` at `h` spans. */
  function PagesOf(h: nat, k: nat): set<nat> {
    Range(h, h + Pow2(k))
  }

  predicate AtOrAbove(p: nat, lo: nat) { lo <= p }

  function Range(lo: nat, hi: nat): set<nat> {
    set p: nat | p < hi && AtOrAbove(p, lo)
  }

  lemma {:induction false} RangeSize(lo: nat, hi: nat)
    requires lo <= hi
    ensures |Range(lo, hi)| == hi - lo
  {
    if lo < hi {
      RangeSize(lo, hi - 1);
      assert Range(lo, hi) == Range(lo, hi - 1) + {hi - 1} by {
        assert AtOrAbove(hi - 1, lo);
      }
    }
  }

  /** The allocator as constructed: block 0 in the last list, whatever the region's size. */
  function Initial(m: nat, numLists: nat): Arena
    requires m < numLists
  {
    Arena(m, map[0 := numLists - 1], seq(numLists, k => if k == numLists - 1 then [0] else []))
  }

  // ---------------------------------------------------------------- the operations

  /** The first list at or above `k` that is not empty, or the number of lists. */
  function FirstNonEmpty(lists: seq<seq<nat>>, k: nat): (i: nat)
    requires k <= |lists|
    ensures k <= i <= |lists|
    ensures i < |lists| ==> lists[i] != []
    ensures forall j :: k <= j < i ==> lists[j] == []
    decreases |lists| - k
  {
    if k == |lists| || lists[k] != [] then k else FirstNonEmpty(lists, k + 1)
  }

  function Pop(a: Arena, i: nat): Arena
    requires i < |a.lists| && a.lists[i] != []
  {
    a.(lists := a.lists[i := a.lists[i][1..]])
  }

  function Push(a: Arena, k: nat, h: nat): Arena
    requires k < |a.lists|
  {
    a.(lists := a.lists[k := [h] + a.lists[k]])
  }

  /** Halve the block at `h` from order `j` down to order `k`, listing every upper half that
      lies inside the region. */
  function SplitTo(a: Arena, h: nat, j: nat, k: nat): Arena
    requires k <= j <= |a.lists|
    decreases j
  {
    if j == k then a else
      var mid := h + Pow2(j - 1);
      if mid < a.Pages() then
        SplitTo(Push(a.(tiles := a.tiles[h := j - 1][mid := j - 1]), j - 1, mid), h, j - 1, k)
      else
        SplitTo(a.(tiles := a.tiles[h := j - 1]), h, j - 1, k)
  }

  datatype Allocation = Nothing | Block(head: nat, arena: Arena)

  function Allocate(a: Arena, k: nat): Allocation {
    if k >= |a.lists| then Nothing else
      var i := FirstNonEmpty(a.lists, k);
      if i == |a.lists| then Nothing
      else Block(a.lists[i][0], SplitTo(Pop(a, i), a.lists[i][0], i, k))
  }

  /** The search of kalloc: the first list that is not empty decides. */
  lemma AllocateFrom(a: Arena, k: nat, i: nat)
    requires k <= i <= |a.lists| && k < |a.lists|
    requires forall q :: k <= q < i ==> a.lists[q] == []
    requires i < |a.lists| ==> a.lists[i] != []
    ensures i < |a.lists| ==>
              Allocate(a, k) == Block(a.lists[i][0], SplitTo(Pop(a, i), a.lists[i][0], i, k))
    ensures i == |a.lists| ==> Allocate(a, k) == Nothing
  {
    var f := FirstNonEmpty(a.lists, k);
    assert f == i;
  }

  function Without(s: seq<nat>, h: nat): (r: seq<nat>) {
    if s == [] then [] else if s[0] == h then s[1..] else [s[0]] + Without(s[1..], h)
  }

  /** Join the block at `h` of order `k` with its free buddy. */
  function Merge(a: Arena, h: nat, k: nat): Arena
    requires k < |a.lists| && Aligned(h, k)
  {
    var b := Buddy(h, k);
    a.(tiles := (a.tiles - {Max(h, b)})[Min(h, b) := k + 1],
       lists := a.lists[k := Without(a.lists[k], b)])
  }

  /** Merge while the buddy is a free block of the same order, then list the result. */
  function Release(a: Arena, h: nat, k: nat): Arena
    requires k < |a.lists| && Aligned(h, k)
    decreases |a.lists| - k
  {
    var b := Buddy(h, k);
    if a.IsFree(b) && a.tiles[b] == k && k + 1 < |a.lists| then
      LowerHalfAligned(h, k);
      Release(Merge(a, h, k), Min(h, b), k + 1)
    else
      Push(a, k, h)
  }

  // ---------------------------------------------------------------- alignment

  lemma {:induction false} AlignedIsModulus(h: nat, k: nat)
    ensures Aligned(h, k) <==> h % Pow2(k) == 0
  {
    if k > 0 {
      HalfOfMod(h, k);
      AlignedIsModulus(h / 2, k - 1);
    }
  }

  /** A block of order `k` is the lower or the upper half of a block of order `k + 1`. */
  lemma {:induction false} HalfOfParent(h: nat, k: nat)
    requires Aligned(h, k)
    ensures !Aligned(h, k + 1) ==> h >= Pow2(k) && Aligned(h - Pow2(k), k + 1)
  {
    if k == 0 {
      assert Aligned(h / 2, 0);
      if !Aligned(h, 1) { assert Aligned((h - 1) / 2, 0) && Aligned(h - 1, 1); }
    } else {
      HalfOfParent(h / 2, k - 1);
      if !Aligned(h, k + 1) {
        var g := h - 2 * Pow2(k - 1);
        assert g % 2 == 0 && g / 2 == h / 2 - Pow2(k - 1);
        assert Aligned(g, k + 1);
      }
    }
  }

  lemma {:induction false} AlignedBelow(h: nat, j: nat, k: nat)
    requires Aligned(h, j) && k <= j
    ensures Aligned(h, k)
  {
    if k > 0 { AlignedBelow(h / 2, j - 1, k - 1); }
  }

  lemma {:induction false} AlignedShift(h: nat, k: nat)
    requires Aligned(h, k)
    ensures Aligned(h + Pow2(k), k)
    ensures Aligned(h, k + 1) ==> !Aligned(h + Pow2(k), k + 1)
  {
    if k > 0 {
      AlignedShift(h / 2, k - 1);
      assert (h + Pow2(k)) / 2 == h / 2 + Pow2(k - 1);
    }
  }

  lemma {:induction false} AlignedGap(x: nat, y: nat, k: nat)
    requires Aligned(x, k) && Aligned(y, k)
    ensures x < y ==> x + Pow2(k) <= y
  {
    if k > 0 { AlignedGap(x / 2, y / 2, k - 1); }
  }

  lemma {:induction false} ZeroAligned(k: nat)
    ensures Aligned(0, k)
  {
    if k > 0 { ZeroAligned(k - 1); }
  }

  /** Inside a region of `2^m` pages an aligned block fits, unless it is larger than the region;
      then it starts at page 0. */
  lemma {:induction false} AlignedInRegion(h: nat, k: nat, m: nat)
    requires Aligned(h, k) && h < Pow2(m)
    ensures k <= m ==> h + Pow2(k) <= Pow2(m)
    ensures m <= k ==> h == 0
  {
    if k > 0 && m > 0 { AlignedInRegion(h / 2, k - 1, m - 1); }
  }

  /** The buddy relation is an involution; the smaller of the two is aligned to the next order
      and the larger is its upper half. */
  lemma BuddyPair(h: nat, k: nat)
    requires Aligned(h, k)
    ensures Aligned(Buddy(h, k), k)
    ensures Buddy(h, k) != h && Buddy(Buddy(h, k), k) == h
    ensures Aligned(Min(h, Buddy(h, k)), k + 1)
    ensures Max(h, Buddy(h, k)) == Min(h, Buddy(h, k)) + Pow2(k)
  {
    HalfOfParent(h, k);
    AlignedShift(h, k);
    if !Aligned(h, k + 1) { AlignedBelow(h - Pow2(k), k + 1, k); }
  }

  lemma LowerHalfAligned(h: nat, k: nat)
    requires Aligned(h, k)
    ensures Aligned(Min(h, Buddy(h, k)), k + 1)
  {
    BuddyPair(h, k);
  }

  /** Two buddies are disjoint and together are exactly their parent block. */
  lemma BuddyPages(h: nat, k: nat)
    requires Aligned(h, k)
    ensures PagesOf(Min(h, Buddy(h, k)), k + 1) == PagesOf(h, k) + PagesOf(Buddy(h, k), k)
    ensures PagesOf(h, k) !! PagesOf(Buddy(h, k), k)
  {
    BuddyPair(h, k);
    var b := Buddy(h, k);
    var lo, p := Min(h, b), Pow2(k);
    RangeSplit(lo, p, p);
    assert PagesOf(lo, k + 1) == Range(lo, lo + p + p);
  }

  lemma RangeSplit(lo: nat, n: nat, n': nat)
    ensures Range(lo, lo + n + n') == Range(lo, lo + n) + Range(lo + n, lo + n + n')
    ensures Range(lo, lo + n) !! Range(lo + n, lo + n + n')
  {
  }

  /** A block in the lower half has its buddy inside the region when the parent is no larger
      than the region. */
  lemma BuddyInRegion(h: nat, k: nat, m: nat)
    requires Aligned(h, k) && h < Pow2(m)
    ensures Buddy(h, k) < Pow2(m) <==> k < m
  {
    BuddyPair(h, k);
    if k < m {
      HalfOfParent(h, k);
      if Aligned(h, k + 1) { AlignedInRegion(h, k + 1, m); }
    } else {
      AlignedInRegion(h, k, m);
      ZeroAligned(k + 1);
      Pow2Monotone(m, k);
    }
  }
}
