/** How the stored page records represent an arena, and that every step of kalloc and kfree on the
    records is the corresponding step on the arena. */
module BuddyRefinement {
  import opened Bits
  import opened BuddyArena
  import opened BuddyCells
  import opened BuddyTheorems

  /** The record of the block at `h` carries its free flag and its order. Block 0 starts out in the
      last list with stored order 0; nothing reads that order before the block is popped. */
  predicate TagOk(pages: seq<Page>, a: Arena, h: nat)
    requires h in a.tiles
  {
    && h < |pages|
    && (pages[h].IsFree() <==> a.IsFree(h))
    && (pages[h].Order() == a.tiles[h] || (h == 0 && a.tiles[0] >= a.m && a.IsFree(0)))
  }

  /** The records represent the arena, except for the tag of the block being worked on. Records of
      pages inside a block are unconstrained: their flags are left over from earlier blocks. */
  ghost predicate Represents(c: Cells, a: Arena, except: int) {
    && Linked(c, a.lists)
    && |c.pages| == a.Pages() && |a.lists| <= 18
    && forall h {:trigger TagOk(c.pages, a, h)} :: h in a.tiles && h != except ==> TagOk(c.pages, a, h)
  }

  lemma ListedSeparate(a: Arena)
    requires a.Listed()
    ensures Separate(a.lists)
  {
  }

  lemma HeldNotListed(a: Arena, h: nat)
    requires a.Listed() && !a.IsFree(h)
    ensures forall k :: 0 <= k < |a.lists| ==> h !in a.lists[k]
  {
  }

  lemma PopRepresents(c: Cells, a: Arena, i: nat)
    requires Represents(c, a, -1) && a.Inv() && i < |a.lists| && a.lists[i] != []
    ensures c.first[i] == a.lists[i][0] < |c.pages|
    ensures Represents(PopCells(c, i), Pop(a, i), -1)
  {
    ListedSeparate(a);
    PopLinked(c, a.lists, i);
    PopHolding(a, i);
    var c', a' := PopCells(c, i), Pop(a, i);
    var h := a.lists[i][0];
    forall g | g in a'.tiles ensures TagOk(c'.pages, a', g) {
      assert TagOk(c.pages, a, g);
      PackingLaws(c'.pages[h], i);
      PopTags(c, i, g);
    }
  }

  /** Popping rewrites the tag of the popped page and of no other. */
  lemma PopTags(c: Cells, i: nat, g: nat)
    requires i < |c.first| && i < 0x80 && c.first[i] < |c.pages| && g < |c.pages|
    ensures g != c.first[i] ==> PopCells(c, i).pages[g].orderAndFree == c.pages[g].orderAndFree
    ensures g == c.first[i] ==>
              PopCells(c, i).pages[g].Order() == i && !PopCells(c, i).pages[g].IsFree()
  {
    var h := c.first[i];
    var next := c.pages[h].next;
    var pages := if next < |c.pages| then c.pages[next := c.pages[next].(prev := NULL_BLOCK)] else c.pages;
    var p := pages[h].(next := NULL_BLOCK, prev := NULL_BLOCK);
    PackingLaws(p, i);
    PackingLaws(p.ClearFree(), i);
  }

  lemma PushTags(c: Cells, i: nat, b: nat, g: nat)
    requires i < |c.first| && i < 0x80 && b < |c.pages| && g < |c.pages|
    requires c.first[i] == NULL_BLOCK || c.first[i] < |c.pages|
    ensures g != b ==> PushCells(c, i, b).pages[g].orderAndFree == c.pages[g].orderAndFree
    ensures g == b ==> PushCells(c, i, b).pages[g].Order() == i && PushCells(c, i, b).pages[g].IsFree()
  {
    PackingLaws(c.pages[b], i);
    PackingLaws(c.pages[b].SetFree(), i);
  }

  /** The tags after pushing the upper half. */
  lemma SplitTag(c: Cells, a: Arena, h: nat, j: nat, g: nat)
    requires Represents(c, a, h) && Holding(a, h, j) && j > 0 && h + Pow2(j - 1) < a.Pages()
    requires c.first[j - 1] == NULL_BLOCK || c.first[j - 1] < |c.pages|
    requires g in SplitOnce(a, h, j).tiles && g != h
    ensures TagOk(PushCells(c, j - 1, h + Pow2(j - 1)).pages, SplitOnce(a, h, j), g)
  {
    var mid := h + Pow2(j - 1);
    SplitListed(a, h, j);
    if g != mid { assert TagOk(c.pages, a, g); }
    PushTags(c, j - 1, mid, g);
  }

  /** One halving step of kalloc: the upper half, when inside the region, is pushed. */
  lemma SplitRepresents(c: Cells, a: Arena, h: nat, j: nat)
    requires Represents(c, a, h) && Holding(a, h, j) && j > 0 && h + Pow2(j - 1) < a.Pages()
    ensures c.first[j - 1] == NULL_BLOCK || c.first[j - 1] < |c.pages|
    ensures Represents(PushCells(c, j - 1, h + Pow2(j - 1)), SplitOnce(a, h, j), h)
  {
    var mid := h + Pow2(j - 1);
    HalveTiling(a.Pages(), a.tiles, h, j - 1);
    ListedSeparate(a);
    HeldNotListed(a, mid);
    PushLinked(c, a.lists, j - 1, mid);
    forall g | g in SplitOnce(a, h, j).tiles && g != h
      ensures TagOk(PushCells(c, j - 1, mid).pages, SplitOnce(a, h, j), g)
    {
      SplitTag(c, a, h, j, g);
    }
  }

  /** An upper half beyond the region is dropped. */
  lemma DropRepresents(c: Cells, a: Arena, h: nat, j: nat)
    requires Represents(c, a, h) && Holding(a, h, j) && j > 0 && h + Pow2(j - 1) >= a.Pages()
    ensures Represents(c, SplitOnce(a, h, j), h)
  {
    var a' := SplitOnce(a, h, j);
    SplitListed(a, h, j);
    forall g | g in a'.tiles && g != h ensures TagOk(c.pages, a', g) {
      assert TagOk(c.pages, a, g);
    }
  }

  /** Writing the final order and clearing the flag makes the split block's tag right. */
  lemma FinishRepresents(c: Cells, a: Arena, h: nat, k: nat)
    requires Represents(c, a, h) && Holding(a, h, k)
    ensures h < |c.pages|
    ensures Represents(c.(pages := c.pages[h := c.pages[h].SetOrder(k).ClearFree()]), a, -1)
  {
    assert Fits(a.Pages(), a.tiles, h);
    PackingLaws(c.pages[h], k);
    PackingLaws(c.pages[h].SetOrder(k), k);
    var c' := c.(pages := c.pages[h := c.pages[h].SetOrder(k).ClearFree()]);
    SameLinks(c, c', a.lists);
    forall g | g in a.tiles ensures TagOk(c'.pages, a, g) {
      if g != h { assert TagOk(c.pages, a, g); }
    }
  }

  /** The lists depend only on the link fields. */
  lemma SameLinks(c: Cells, c': Cells, lists: seq<seq<nat>>)
    requires Linked(c, lists) && c'.first == c.first && |c'.pages| == |c.pages|
    requires forall q :: 0 <= q < |c.pages| ==>
               c'.pages[q].next == c.pages[q].next && c'.pages[q].prev == c.pages[q].prev
    ensures Linked(c', lists)
  {
    forall k | 0 <= k < |lists| ensures Chain(c'.first[k], c'.pages, lists[k]) {
      assert Chain(c.first[k], c.pages, lists[k]);
      forall j | 0 <= j < |lists[k]| ensures Node(c'.pages, lists[k], j) {
        assert Node(c.pages, lists[k], j);
      }
    }
  }

  /** The repaired test in buddy_is_free, flag and order, decides whether the buddy is a free
      block of the same order, although flags inside blocks are stale. */
  lemma BuddyTest(c: Cells, a: Arena, h: nat, k: nat)
    requires Represents(c, a, h) && Holding(a, h, k) && Aligned(h, k) && Buddy(h, k) < a.Pages()
    ensures Buddy(h, k) in a.tiles && Buddy(h, k) < |c.pages|
    ensures c.pages[Buddy(h, k)].IsFree() && c.pages[Buddy(h, k)].Order() == k <==> a.BuddyFree(h)
  {
    assert Fits(a.Pages(), a.tiles, h);
    BuddyPair(h, k);
    BuddyInRegion(h, k, a.m);
    BuddyStartsBlock(a.Pages(), a.tiles, h);
    assert TagOk(c.pages, a, Buddy(h, k));
  }

  lemma {:induction false} WithoutIsCut(s: seq<nat>, i: nat)
    requires NoRepeats(s) && i < |s|
    ensures Without(s, s[i]) == Cut(s, i)
  {
    if i > 0 {
      assert s[0] != s[i];
      WithoutIsCut(s[1..], i - 1);
    }
  }

  /** One coalescing step of kfree: the buddy leaves its list and the lower half of the pair takes
      the next order. */
  function MergeCells(c: Cells, b: nat, lo: nat, k: nat): Cells
    requires b < |c.pages| && lo < |c.pages| && c.pages[b].Order() < |c.first|
  {
    var r := RemoveCells(c, b);
    r.(pages := r.pages[lo := r.pages[lo].SetOrder(k + 1)])
  }

  /** It changes no free flag. */
  lemma MergeFlags(c: Cells, b: nat, lo: nat, k: nat, i: nat)
    requires b < |c.pages| && lo < |c.pages| && c.pages[b].Order() < |c.first| && k + 1 < 0x80 && i < |c.pages|
    ensures MergeCells(c, b, lo, k).pages[i].IsFree() == c.pages[i].IsFree()
  {
    PackingLaws(RemoveCells(c, b).pages[lo], k + 1);
  }

  lemma MergeTargets(c: Cells, a: Arena, h: nat, k: nat)
    requires Represents(c, a, h) && Holding(a, h, k) && Aligned(h, k) && a.BuddyFree(h)
    ensures Buddy(h, k) < |c.pages| && h < |c.pages|
    ensures c.pages[Buddy(h, k)].Order() == k < |c.first|
  {
    assert Fits(a.Pages(), a.tiles, h) && Fits(a.Pages(), a.tiles, Buddy(h, k));
    BuddyPair(h, k);
    BuddyInRegion(h, k, a.m);
    assert TagOk(c.pages, a, Buddy(h, k));
  }

  lemma MergeLinks(c: Cells, a: Arena, h: nat, k: nat)
    requires Represents(c, a, h) && Holding(a, h, k) && Aligned(h, k) && a.BuddyFree(h)
    requires Buddy(h, k) < |c.pages| && h < |c.pages| && c.pages[Buddy(h, k)].Order() == k < |c.first|
    ensures Linked(MergeCells(c, Buddy(h, k), Min(h, Buddy(h, k)), k), Merge(a, h, k).lists)
  {
    var b: nat := Buddy(h, k);
    ListedSeparate(a);
    var i :| 0 <= i < |a.lists[k]| && a.lists[k][i] == b;
    WithoutIsCut(a.lists[k], i);
    RemoveLinked(c, a.lists, k, i);
    SameLinks(RemoveCells(c, b), MergeCells(c, b, Min(h, b), k), Merge(a, h, k).lists);
  }

  lemma MergeRepresents(c: Cells, a: Arena, h: nat, k: nat)
    requires Represents(c, a, h) && Holding(a, h, k) && Aligned(h, k) && a.BuddyFree(h)
    ensures Buddy(h, k) < |c.pages| && h < |c.pages|
    ensures c.pages[Buddy(h, k)].Order() == k < |c.first|
    ensures Represents(MergeCells(c, Buddy(h, k), Min(h, Buddy(h, k)), k), Merge(a, h, k), Min(h, Buddy(h, k)))
  {
    var b: nat := Buddy(h, k);
    var lo: nat := Min(h, b);
    MergeTargets(c, a, h, k);
    MergeLinks(c, a, h, k);
    MergeListed(a, h, k);
    BuddyPair(h, k);
    var c', a' := MergeCells(c, b, lo, k), Merge(a, h, k);
    forall g | g in a'.tiles && g != lo ensures TagOk(c'.pages, a', g) {
      assert TagOk(c.pages, a, g);
    }
  }

  /** The last step of kfree. */
  lemma PushRepresents(c: Cells, a: Arena, h: nat, k: nat)
    requires Represents(c, a, h) && Holding(a, h, k) && Aligned(h, k) && !a.BuddyFree(h)
    ensures k < |c.first| && h < |c.pages|
    ensures c.first[k] == NULL_BLOCK || c.first[k] < |c.pages|
    ensures Represents(PushCells(c, k, h), Push(a, k, h), -1)
  {
    assert Fits(a.Pages(), a.tiles, h);
    ListedSeparate(a);
    HeldNotListed(a, h);
    PushLinked(c, a.lists, k, h);
    PushCorrect(a, h, k);
    var c', a' := PushCells(c, k, h), Push(a, k, h);
    forall g | g in a'.tiles ensures TagOk(c'.pages, a', g) {
      if g != h { assert TagOk(c.pages, a, g); }
      PushTags(c, k, h, g);
    }
  }

  // ---------------------------------------------------------------- the merge guard as written

  /** As written, buddy_is_free looks at the flag alone and merges whatever free block starts at
      the buddy's first page. The region stays tiled exactly when the orders are equal. */
  lemma MergeAsWritten(a: Arena, h: nat)
    requires a.Inv() && a.IsLive(h) && Aligned(h, a.tiles[h]) && Buddy(h, a.tiles[h]) < a.Pages()
    requires a.IsFree(Buddy(h, a.tiles[h]))
    ensures Tiling(a.Pages(), Merge(a, h, a.tiles[h]).tiles)
            <==> a.tiles[Buddy(h, a.tiles[h])] == a.tiles[h]
  {
    var k := a.tiles[h];
    BuddyPair(h, k);
    assert Fits(a.Pages(), a.tiles, h);
    if a.tiles[Buddy(h, k)] == k {
      JoinTiling(a.Pages(), a.tiles, Min(h, Buddy(h, k)), k);
    } else {
      MergeUnequal(a, h);
    }
  }

  lemma MergeUnequal(a: Arena, h: nat)
    requires a.Inv() && h in a.tiles && a.tiles[h] < |a.lists| && Aligned(h, a.tiles[h])
    requires Buddy(h, a.tiles[h]) < a.Pages() && Buddy(h, a.tiles[h]) in a.tiles
    requires a.tiles[Buddy(h, a.tiles[h])] != a.tiles[h]
    ensures !Tiling(a.Pages(), Merge(a, h, a.tiles[h]).tiles)
  {
    var n, k := a.Pages(), a.tiles[h];
    var b: nat := Buddy(h, k);
    var t := Merge(a, h, k).tiles;
    BuddyPair(h, k);
    assert Fits(n, a.tiles, h);
    BuddyStartsBlock(n, a.tiles, h);
    var x: nat := b + Pow2(a.tiles[b]);
    Pow2Monotone(a.tiles[b], k);
    assert Followed(n, a.tiles, b);
    BuddyInRegion(h, k, a.m);
    AlignedInRegion(Min(h, b), k + 1, a.m);
    assert x in t && !Apart(t, Min(h, b), x);
  }

  /** Four pages: a live block of two, a free page, and a live page. */
  function Fragmented(): Arena {
    Arena(2, map[0 := 1, 2 := 0, 3 := 0], [[2], [], []])
  }

  /** A short run leads there. */
  lemma FragmentedReachable()
    ensures Initial(2, 3).Inv()
    ensures Legal(Initial(2, 3), [Alloc(1), Alloc(0), Alloc(0), Free(2)])
    ensures Run(Initial(2, 3), [Alloc(1), Alloc(0), Alloc(0), Free(2)]) == Fragmented()
  {
    InitialInv(2, 3);
    var a0 := Initial(2, 3);
    var a1 := Arena(2, map[0 := 1, 2 := 1], [[], [2], []]);
    var a2 := Arena(2, map[0 := 1, 2 := 0, 3 := 0], [[3], [], []]);
    var a3 := Arena(2, map[0 := 1, 2 := 0, 3 := 0], [[], [], []]);
    FragmentedSteps(a0, a1, a2, a3);
    assert Step(a0, Alloc(1)) == a1;
    assert Step(a1, Alloc(0)) == a2;
    assert Step(a2, Alloc(0)) == a3;
    assert Step(a3, Free(2)) == Fragmented();
    RunFour(a0, a1, a2, a3, Alloc(1), Alloc(0), Alloc(0), Free(2));
  }

  lemma FragmentedSteps(a0: Arena, a1: Arena, a2: Arena, a3: Arena)
    requires a0 == Initial(2, 3)
    requires a1 == Arena(2, map[0 := 1, 2 := 1], [[], [2], []])
    requires a2 == Arena(2, map[0 := 1, 2 := 0, 3 := 0], [[3], [], []])
    requires a3 == Arena(2, map[0 := 1, 2 := 0, 3 := 0], [[], [], []])
    ensures Allocate(a0, 1) == Block(0, a1)
    ensures Allocate(a1, 0) == Block(2, a2)
    ensures Allocate(a2, 0) == Block(3, a3)
    ensures a3.IsLive(2) && Aligned(2, 0) && Release(a3, 2, 0) == Fragmented()
  {
    FirstSplit(a0, a1);
    SecondSplit(a1, a2);
    AllocateFrom(a2, 0, 0);
    assert Aligned(2, 0) && !Aligned(3, 1) && Aligned(2, 1);
    assert Buddy(2, 0) == 3;
  }

  lemma FirstSplit(a0: Arena, a1: Arena)
    requires a0 == Initial(2, 3)
    requires a1 == Arena(2, map[0 := 1, 2 := 1], [[], [2], []])
    ensures Allocate(a0, 1) == Block(0, a1)
  {
    assert a0.lists == [[], [], [0]];
    AllocateFrom(a0, 1, 2);
    var p := Pop(a0, 2);
    assert a0.lists[2][1..] == [];
    assert p.lists == [[], [], []];
    assert p.tiles[0 := 1][2 := 1] == a1.tiles;
    assert Push(p, 1, 2).lists == a1.lists by { assert [2] + [] == [2]; }
    assert SplitTo(p, 0, 2, 1) == Push(p.(tiles := p.tiles[0 := 1][2 := 1]), 1, 2);
  }

  lemma SecondSplit(a1: Arena, a2: Arena)
    requires a1 == Arena(2, map[0 := 1, 2 := 1], [[], [2], []])
    requires a2 == Arena(2, map[0 := 1, 2 := 0, 3 := 0], [[3], [], []])
    ensures Allocate(a1, 0) == Block(2, a2)
  {
    AllocateFrom(a1, 0, 1);
    var p := Pop(a1, 1);
    assert a1.lists[1][1..] == [];
    assert p.lists == [[], [], []];
    assert p.tiles[2 := 0][3 := 0] == a2.tiles;
    assert Push(p, 0, 3).lists == a2.lists by { assert [3] + [] == [3]; }
    assert SplitTo(p, 2, 1, 0) == Push(p.(tiles := p.tiles[2 := 0][3 := 0]), 0, 3);
  }

  lemma RunFour(a0: Arena, a1: Arena, a2: Arena, a3: Arena, q: Request, r: Request, s: Request, t: Request)
    requires a0.Inv() && a1.Inv() && a2.Inv() && a3.Inv()
    requires Allowed(a0, q) && Allowed(a1, r) && Allowed(a2, s) && Allowed(a3, t)
    requires Step(a0, q) == a1 && Step(a1, r) == a2 && Step(a2, s) == a3
    ensures Legal(a0, [q, r, s, t]) && Run(a0, [q, r, s, t]) == Step(a3, t)
  {
    Prepended(q, r, s, t);
    RunOne(a3, t, []);
    RunOne(a2, s, [t]);
    RunOne(a1, r, [s, t]);
    RunOne(a0, q, [r, s, t]);
  }

  lemma Prepended(q: Request, r: Request, s: Request, t: Request)
    ensures [q] + [r, s, t] == [q, r, s, t] && [r] + [s, t] == [r, s, t] && [s] + [t] == [s, t] && [t] + [] == [t]
  {
  }

  lemma RunOne(a: Arena, r: Request, rest: seq<Request>)
    requires a.Inv() && Allowed(a, r) && Legal(Step(a, r), rest)
    ensures Legal(a, [r] + rest) && Run(a, [r] + rest) == Run(Step(a, r), rest)
  {
    assert ([r] + rest)[1..] == rest;
  }

  /** There, freeing block 0 as written hands page 3 to two blocks: the merged one, and the live one
      that was never freed. */
  lemma MergeAsWrittenOverlaps()
    ensures var a := Fragmented();
            && a.IsLive(0) && a.IsLive(3) && Aligned(0, 1) && Buddy(0, 1) == 2
            && a.IsFree(2)
            && Merge(a, 0, 1).Owns(0, 3) && Merge(a, 0, 1).Owns(3, 3)
  {
    ZeroAligned(1);
    ZeroAligned(2);
    assert Pow2(2) == 4;
  }
}
