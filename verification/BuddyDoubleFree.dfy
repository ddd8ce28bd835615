/** A double free that the assertions of kfree let through. Two pages are handed out and freed, the
    lower one first; the upper one is merged into it, and its own record keeps a clear free flag. */
module BuddyDoubleFree {
  import opened Bits
  import opened Sizes
  import opened BuddyArena
  import opened BuddyTheorems
  import opened BuddyRefinement
  import opened BuddyAllocator

  /** Two pages in two blocks, with the free ones in `listed`. */
  function TwoPages(listed: seq<nat>): Arena {
    Arena(1, map[0 := 0, 1 := 0], [listed, []])
  }

  function OneBlock(): Arena {
    Arena(1, map[0 := 1], [[], [0]])
  }

  lemma TakeFirst()
    ensures Initial(1, 2) == OneBlock()
    ensures Allocate(OneBlock(), 0) == Block(0, TwoPages([1]))
  {
    var a := OneBlock();
    assert Initial(1, 2).lists == a.lists;
    AllocateFrom(a, 0, 1);
    var p := Pop(a, 1);
    assert a.lists[1][1..] == [];
    assert p.lists == [[], []];
    assert p.tiles[0 := 0][1 := 0] == TwoPages([1]).tiles;
    assert Push(p, 0, 1).lists == [[1], []] by { assert [1] + [] == [1]; }
    assert SplitTo(p, 0, 1, 0) == Push(p.(tiles := p.tiles[0 := 0][1 := 0]), 0, 1);
  }

  lemma TakeSecond()
    ensures Allocate(TwoPages([1]), 0) == Block(1, TwoPages([]))
  {
    AllocateFrom(TwoPages([1]), 0, 0);
    assert [1][1..] == [];
  }

  lemma GiveFirst()
    ensures Aligned(0, 0) && TwoPages([]).IsLive(0) && Release(TwoPages([]), 0, 0) == TwoPages([0])
  {
    assert [0] + [] == [0];
  }

  lemma GiveSecond()
    ensures Aligned(1, 0) && TwoPages([0]).IsLive(1) && Release(TwoPages([0]), 1, 0) == OneBlock()
  {
    var a := TwoPages([0]);
    assert !Aligned(1, 1) && Buddy(1, 0) == 0;
    var m := Merge(a, 1, 0);
    assert Without([0], 0) == [];
    assert m == Arena(1, map[0 := 1], [[], []]);
    assert Aligned(0, 1) && Aligned(0, 2) && Buddy(0, 1) == 2;
    assert [0] + [] == [0];
    assert Push(m, 1, 0) == OneBlock();
  }

  /** On the arena: after the four calls page 1 starts no block. Listing it a second time breaks the
      lists, and from there both pages are given away as one block, or page 1 as a block of its own. */
  lemma ListedTwice()
    ensures Initial(1, 2).Inv() && Legal(Initial(1, 2), [Alloc(0), Alloc(0), Free(0), Free(1)])
    ensures Run(Initial(1, 2), [Alloc(0), Alloc(0), Free(0), Free(1)]) == OneBlock()
    ensures 1 !in OneBlock().tiles && OneBlock().Owns(0, 1) && OneBlock().IsFree(0)
    ensures var a := Push(OneBlock(), 0, 1);
            && !a.Listed()
            && Allocate(a, 1).Block? && Allocate(a, 1).head == 0 && 1 in PagesOf(0, 1)
            && Allocate(a, 0).Block? && Allocate(a, 0).head == 1
  {
    InitialInv(1, 2);
    TakeFirst();
    TakeSecond();
    GiveFirst();
    GiveSecond();
    assert Step(OneBlock(), Alloc(0)) == TwoPages([1]);
    assert Step(TwoPages([1]), Alloc(0)) == TwoPages([]);
    assert Step(TwoPages([]), Free(0)) == TwoPages([0]);
    RunFour(OneBlock(), TwoPages([1]), TwoPages([]), TwoPages([0]), Alloc(0), Alloc(0), Free(0), Free(1));
    PushedAgain();
  }

  lemma PushedAgain()
    ensures var a := Push(OneBlock(), 0, 1);
            && !a.Listed()
            && Allocate(a, 1).Block? && Allocate(a, 1).head == 0 && 1 in PagesOf(0, 1)
            && Allocate(a, 0).Block? && Allocate(a, 0).head == 1
  {
    var a := Push(OneBlock(), 0, 1);
    assert a.lists[0][0] == 1;
    AllocateFrom(a, 0, 0);
    AllocateFrom(a, 1, 1);
    assert AtOrAbove(1, 0);
  }

  method TakeBoth() returns (al: Allocator, first: nat, second: nat)
    ensures al.Valid() && al.arena == TwoPages([]) && fresh(al) && fresh(al.freeLists) && fresh(al.blocks)
    ensures first == IndexToAddr(0) && second == IndexToAddr(1)
  {
    al := new Allocator(1, 2);
    TakeFirst();
    TakeSecond();
    OnePage();
    first := al.Kalloc(0x1000);
    second := al.Kalloc(0x1000);
  }

  /** Freeing the live block at page `h`. */
  method GiveBack(al: Allocator, h: nat)
    requires al.Valid() && al.arena.IsLive(h) && Aligned(h, al.arena.tiles[h])
    modifies al`arena, al.freeLists, al.blocks
    ensures al.Valid() && al.arena == Release(old(al.arena), h, old(al.arena).tiles[h])
    ensures h < al.blocks.Length && (al.Refused(IndexToAddr(h)) <==> h in al.arena.tiles)
  {
    assert TagOk(al.blocks[..], al.arena, h);
    AddressRoundTrip(h, 0, al.blocks.Length);
    var halted := al.Kfree(IndexToAddr(h));
  }

  /** On the arrays: after the same four calls the second free of page 1 passes every assertion. */
  method FreedTwice() returns (al: Allocator, second: nat)
    ensures al.Valid() && second == IndexToAddr(1) && 1 < al.blocks.Length
    ensures al.arena == OneBlock() && !al.arena.IsLive(1) && !al.Refused(second)
    ensures second == 0x21000 && al.blocks[1].orderAndFree % 2 == 0 && 1 !in al.arena.tiles
  {
    var first;
    al, first, second := TakeBoth();
    GiveFirst();
    GiveBack(al, 0);
    GiveSecond();
    GiveBack(al, 1);
  }

  lemma OnePage()
    ensures ListIndex(0x1000) == 0
  {
    ListIndexLeast(0x1000, 0);
  }
}
