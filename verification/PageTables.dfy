/** The page directory over physical memory, with its tables taken from the buddy allocator. */
module PageTables {
  import opened Bits
  import opened Options
  import opened Sizes
  import opened BuddyArena
  import opened BuddyTheorems
  import opened BuddyAllocator
  import opened PageEntries
  import opened PageMap

  /** Physical memory, as far as page tables are kept in it: the 1024 words of each frame. */
  class Memory {
    var frames: Frames
  }

  /** A frame in the allocator's region is the start of a live block. */
  predicate TakenFrame(a: Arena, t: nat) {
    BLOCK_OFFSET <= t < BLOCK_OFFSET + a.Pages() * PAGE_SIZE ==> (t - BLOCK_OFFSET) / PAGE_SIZE in a.Live()
  }

  lemma FreshFrame(a: Arena, page: nat)
    requires a.Inv() && Allocate(a, 0).Block? && page == IndexToAddr(Allocate(a, 0).head)
    ensures page % PAGE_SIZE == 0 && page >= BLOCK_OFFSET && Allocate(a, 0).head < a.Pages()
    ensures !TakenFrame(a, page) && TakenFrame(Allocate(a, 0).arena, page)
  {
    AllocateCorrect(a, 0);
  }

  lemma StillTaken(a: Arena, t: nat)
    requires a.Inv() && Allocate(a, 0).Block? && TakenFrame(a, t)
    ensures TakenFrame(Allocate(a, 0).arena, t)
  {
    AllocateCorrect(a, 0);
  }

  /** A page is the smallest block. */
  lemma PageIsSmallest()
    ensures ListIndex(PAGE_SIZE) == 0
  {
    Pow2OfPage();
    WidthUnique(0xFFF, 12);
  }

  class PageDirectory {
    const entries: array<nat>
    const memory: Memory
    const allocator: Allocator

    ghost function TheTables(): Tables
      reads entries, memory
    {
      Tables(entries[..], memory.frames)
    }

    /** No table of the directory is a frame the allocator could hand out. */
    ghost predicate AllTaken(t: Tables, a: Arena)
      requires |t.entries| == ENTRIES
    {
      forall i: nat {:trigger TableOf(t, i)} :: i < ENTRIES && TableOf(t, i) != 0 ==> TakenFrame(a, TableOf(t, i))
    }

    ghost predicate Valid()
      reads entries, memory, allocator, allocator.freeLists, allocator.blocks
    {
      && entries != allocator.freeLists && allocator.Valid()
      && TablesOk(TheTables()) && AllTaken(TheTables(), allocator.arena)
      && (forall p: nat {:trigger IndexToAddr(p)} :: p < allocator.arena.Pages() ==>
            IndexToAddr(p) in memory.frames && |memory.frames[IndexToAddr(p)]| == ENTRIES)
    }

    /** A directory without tables. */
    constructor (memory: Memory, allocator: Allocator)
      requires allocator.Valid()
      requires forall p: nat {:trigger IndexToAddr(p)} :: p < allocator.arena.Pages() ==>
                 IndexToAddr(p) in memory.frames && |memory.frames[IndexToAddr(p)]| == ENTRIES
      ensures Valid() && this.memory == memory && this.allocator == allocator && fresh(entries)
      ensures forall i: nat {:trigger TableOf(TheTables(), i)} :: i < ENTRIES ==> TableOf(TheTables(), i) == 0
    {
      this.memory := memory;
      this.allocator := allocator;
      entries := new nat[ENTRIES](i => 0);
    }

    /** PageDirectoryEntry::add_pt, through add_pagetable: the slot takes the table if it has none. The
        permission argument is not used. */
    method AddPageTable(i: nat, table: nat) returns (ok: bool)
      requires i < ENTRIES == entries.Length
      modifies entries
      ensures ok <==> old(entries[i]) < 0x100
      ensures ok ==> forall j: nat :: Bit(entries[i], j) <==> Bit(table, j) || j < 2
      ensures entries[..] == if ok then SetWord(old(entries[..]), i, Entry(table, PTE_PW)) else old(entries[..])
    {
      if Address(entries[i]) != 0 {
        return false;
      }
      entries[i] := Entry(table, PTE_PW);
      EntryBits(table, PTE_PW);
      PermBits();
      return true;
    }

    /** PageDirectoryEntry::try_map and map: write the entry in the slot's table, if there is one. */
    method EntryTryMap(va: nat, pa: nat, perm: nat) returns (ok: bool)
      requires TablesOk(TheTables()) && va < WORD && pa < WORD && perm < 0x100
      modifies memory
      ensures ok <==> TableOf(old(TheTables()), DirIndex(va)) != 0
      ensures ok ==> SlotOk(old(TheTables()), DirIndex(va))
                     && TheTables() == WithWord(old(TheTables()), va, Entry(pa, perm))
      ensures !ok ==> TheTables() == old(TheTables())
    {
      var t := Address(entries[DirIndex(va)]);
      if t == 0 {
        return false;
      }
      assert SlotOk(TheTables(), DirIndex(va));
      memory.frames := memory.frames[t := SetWord(memory.frames[t], TableIndex(va), Entry(pa, perm))];
      return true;
    }

    /** PageDirectory::va_to_pa. */
    method Lookup(va: nat) returns (pa: Option<nat>)
      requires TablesOk(TheTables()) && va < WORD
      ensures pa == VaToPa(TheTables(), va)
      ensures var dir := entries[va / 0x40_0000];
              && (pa.None? <==> dir < 0x100)
              && (pa.Some? ==>
                    var words := if dir - dir % 0x100 in memory.frames then memory.frames[dir - dir % 0x100] else [];
                    |words| == 1024 && pa.value == words[va / 0x1000 % 1024] - words[va / 0x1000 % 1024] % 0x100)
    {
      SamePage(va, va);
      assert SlotOk(TheTables(), DirIndex(va));
      var t := Address(entries[DirIndex(va)]);
      if t == 0 {
        return None;
      }
      return Some(Address(memory.frames[t][TableIndex(va)]));
    }

    /** The loop of try_map that clears a new table. */
    method ZeroFrame(t: nat)
      requires t in memory.frames && |memory.frames[t]| == ENTRIES
      modifies memory
      ensures memory.frames == old(memory.frames)[t := seq(ENTRIES, i => 0)]
    {
      var i := 0;
      while i < ENTRIES
        invariant 0 <= i <= ENTRIES
        invariant t in memory.frames && |memory.frames[t]| == ENTRIES
        invariant memory.frames == old(memory.frames)[t := memory.frames[t]]
        invariant forall k :: 0 <= k < i ==> memory.frames[t][k] == 0
      {
        memory.frames := memory.frames[t := SetWord(memory.frames[t], i, 0)];
        i := i + 1;
      }
      assert memory.frames[t] == seq(ENTRIES, i => 0);
    }

    /** The first part of try_map: a directory slot without a table gets a fresh one. */
    method NeedTable(i: nat) returns (ok: bool)
      requires Valid() && i < ENTRIES && TableOf(TheTables(), i) == 0
      modifies entries, memory, allocator`arena, allocator.freeLists, allocator.blocks
      ensures Valid()
      ensures ok <==> Allocate(old(allocator.arena), 0).Block?
      ensures !ok ==> TheTables() == old(TheTables()) && allocator.arena == old(allocator.arena)
      ensures ok ==> var frame := IndexToAddr(Allocate(old(allocator.arena), 0).head);
                frame % PAGE_SIZE == 0 && frame != 0 && Unused(old(TheTables()), frame)
                && TheTables() == WithTable(old(TheTables()), i, frame)
                && TableOf(TheTables(), i) == frame
    {
      ghost var a0, t0 := allocator.arena, TheTables();
      PageIsSmallest();
      AllocateCorrect(a0, 0);
      var page := allocator.Kalloc(PAGE_SIZE);
      assert TheTables() == t0;
      if page == 0 {
        return false;
      }
      FreshFrame(a0, page);
      assert Unused(t0, page) by {
        forall j: nat | j < ENTRIES ensures TableOf(t0, j) != page {
          assert TableOf(t0, j) != 0 ==> TakenFrame(a0, TableOf(t0, j));
        }
      }
      var added := AddPageTable(i, page);
      ZeroFrame(page);
      assert TheTables() == WithTable(t0, i, page);
      WithTableOk(t0, i, page);
      forall j: nat | j < ENTRIES && TableOf(TheTables(), j) != 0
        ensures TakenFrame(allocator.arena, TableOf(TheTables(), j))
      {
        if j != i {
          assert TableOf(WithTable(t0, i, page), j) == TableOf(t0, j);
          StillTaken(a0, TableOf(t0, j));
        }
      }
      return true;
    }

    /** The statements of try_map. `mid` is what the tables are when the entry is written: as they were, or
        with a fresh table in `frame`. */
    method Insert(va: nat, pa: nat, perm: nat) returns (ok: bool, ghost frame: nat, ghost mid: Tables)
      requires Valid() && va < WORD && pa < WORD && perm < 0x100
      modifies entries, memory, allocator`arena, allocator.freeLists, allocator.blocks
      ensures Valid()
      ensures ok <==> TableOf(old(TheTables()), DirIndex(va)) != 0 || Allocate(old(allocator.arena), 0).Block?
      ensures !ok || TableOf(old(TheTables()), DirIndex(va)) != 0 ==> allocator.arena == old(allocator.arena)
      ensures !ok ==> TheTables() == old(TheTables())
      ensures ok ==>
                if TableOf(old(TheTables()), DirIndex(va)) != 0 then mid == old(TheTables())
                else frame % PAGE_SIZE == 0 && frame != 0 && Unused(old(TheTables()), frame)
                     && mid == WithTable(old(TheTables()), DirIndex(va), frame)
      ensures ok ==> |mid.entries| == ENTRIES && TableOf(mid, DirIndex(va)) != 0 && SlotOk(mid, DirIndex(va))
                     && TheTables() == WithWord(mid, va, Entry(pa, perm))
    {
      frame, mid := 0, TheTables();
      if Address(entries[DirIndex(va)]) == 0 {
        if Allocate(allocator.arena, 0).Block? { frame := IndexToAddr(Allocate(allocator.arena, 0).head); }
        ok := NeedTable(DirIndex(va));
        mid := TheTables();
        if !ok {
          return;
        }
      }
      ok := EntryTryMap(va, pa, perm);
      WithWordOk(mid, va, Entry(pa, perm));
      SameTablesTaken(mid, TheTables(), allocator.arena);
    }

    /** try_map refines an update of the page map: on success the page of `va` is mapped to `pa` as the
        permissions say and every other page translates as before, whether or not a table had to be
        allocated. va_to_pa, which ignores the present bit, then finds page 0 for the other pages under a
        fresh table. It fails, changing nothing, exactly when a table is needed and no page is free. */
    method TryMap(va: nat, pa: nat, perm: nat) returns (ok: bool)
      requires Valid() && va < WORD && pa < WORD && perm < 0x100
      modifies entries, memory, allocator`arena, allocator.freeLists, allocator.blocks
      ensures Valid()
      ensures ok <==> TableOf(old(TheTables()), DirIndex(va)) != 0 || Allocate(old(allocator.arena), 0).Block?
      ensures forall v: nat {:trigger Translate(TheTables(), v)} :: v < WORD ==>
                Translate(TheTables(), v) ==
                  if ok && v / PAGE_SIZE == va / PAGE_SIZE then Mapped(pa, perm)
                  else Translate(old(TheTables()), v)
      ensures ok ==> forall v: nat {:trigger VaToPa(TheTables(), v)} :: v < WORD ==>
                VaToPa(TheTables(), v) == VaToPaAfter(old(TheTables()), va, pa, v)
      ensures ok && pa % PAGE_SIZE == 0 ==>
                VaToPa(TheTables(), va) == Some(pa) && (perm % 2 == 1 ==> Mapped(pa, perm) == Some(pa))
      ensures ok ==>
                var i, k := va / 0x40_0000, va / 0x1000 % 1024;
                var dirs, before, dirs', after := old(entries[..]), old(memory.frames), entries[..], memory.frames;
                var table := dirs'[i] - dirs'[i] % 0x100;
                && table in after && |after[table]| == 1024
                && (forall j: nat :: Bit(after[table][k], j) <==> Bit(pa, j) || Bit(perm, j))
                && (forall q :: 0 <= q < 1024 && q != i ==> dirs'[q] == dirs[q])
                && (forall f :: f in before && f != table ==> f in after && after[f] == before[f])
                && (if dirs[i] >= 0x100 then
                      && dirs'[i] == dirs[i] && table in before && |before[table]| == 1024
                      && (forall q :: 0 <= q < 1024 && q != k ==> after[table][q] == before[table][q])
                    else
                      && (forall j: nat :: Bit(dirs'[i], j) <==> Bit(table, j) || j < 2)
                      && (forall q :: 0 <= q < 1024 && q != k ==> after[table][q] == 0))
      ensures !ok ==> TheTables() == old(TheTables()) && allocator.arena == old(allocator.arena)
      ensures TableOf(old(TheTables()), DirIndex(va)) != 0 ==>
                allocator.arena == old(allocator.arena) && SlotOk(old(TheTables()), DirIndex(va))
                && TheTables() == WithWord(old(TheTables()), va, Entry(pa, perm))
    {
      ghost var t0, frame, mid := TheTables(), 0, TheTables();
      ok, frame, mid := Insert(va, pa, perm);
      if ok {
        MapAll(t0, mid, frame, va, pa, perm);
        StoredWords(t0, mid, frame, va, pa, perm);
        if pa % PAGE_SIZE == 0 { MappedAligned(pa, perm); }
      }
    }

    /** Writing a table's word moves no table. */
    lemma SameTablesTaken(t: Tables, t': Tables, a: Arena)
      requires |t.entries| == ENTRIES && t'.entries == t.entries && AllTaken(t, a)
      ensures AllTaken(t', a)
    {
      forall j: nat | j < ENTRIES && TableOf(t', j) != 0 ensures TakenFrame(a, TableOf(t', j)) {
        assert TableOf(t, j) == TableOf(t', j);
      }
    }

    /** setup_pagedir: two static tables are installed, and every page below 4 MiB is mapped to itself;
        all but page 0 are present and writable, as are the tables, and page 0 has no permission. */
    method SetupIdentity(starter: nat, io: nat)
      requires Valid() && Unmapped() && StaticFrame(starter) && StaticFrame(io) && starter != io
      modifies entries, memory, allocator`arena, allocator.freeLists, allocator.blocks
      ensures Valid() && allocator.arena == old(allocator.arena)
      ensures forall v: nat {:trigger VaToPa(TheTables(), v)} :: v < 0x40_0000 ==>
                VaToPa(TheTables(), v) == Some(v - v % PAGE_SIZE)
      ensures forall v: nat {:trigger Translate(TheTables(), v)} :: v < 0x40_0000 ==>
                Translate(TheTables(), v) == if v < PAGE_SIZE then None else Some(v - v % PAGE_SIZE)
      ensures forall j: nat :: Bit(entries[0], j) <==> Bit(starter, j) || j < 2
      ensures forall j: nat :: Bit(entries[1019], j) <==> Bit(io, j) || j < 2
      ensures forall i :: 0 <= i < 1024 && i != 0 && i != 1019 ==> entries[i] == old(entries[i])
      ensures starter in memory.frames && |memory.frames[starter]| == 1024 && memory.frames[starter][0] == 0
      ensures forall k, j: nat {:trigger Bit(memory.frames[starter][k], j)} :: 1 <= k < 1024 ==>
                (Bit(memory.frames[starter][k], j) <==> Bit(0x1000 * k, j) || j < 2)
    {
      InstallStatic(starter, io);
      ghost var dirs := entries[..];
      var ok := TryMap(0, 0, 0);
      NoBitsIsZero(memory.frames[starter][0]);
      assert entries[..] == dirs;
      var k := 1;
      while k < ENTRIES
        invariant 1 <= k <= ENTRIES
        invariant Valid() && allocator.arena == old(allocator.arena) && TableOf(TheTables(), 0) != 0
        invariant forall v: nat {:trigger VaToPa(TheTables(), v)} :: v < k * PAGE_SIZE ==>
                    VaToPa(TheTables(), v) == Some(v - v % PAGE_SIZE)
        invariant forall v: nat {:trigger Translate(TheTables(), v)} :: v < k * PAGE_SIZE ==>
                    Translate(TheTables(), v) == if v < PAGE_SIZE then None else Some(v - v % PAGE_SIZE)
        invariant entries[..] == dirs && TableOf(TheTables(), 0) == starter
        invariant starter in memory.frames && |memory.frames[starter]| == 1024 && memory.frames[starter][0] == 0
        invariant forall q {:trigger memory.frames[starter][q]} :: 1 <= q < k ==> Writable(memory.frames[starter][q], q)
      {
        IdentityStep(k);
        k := k + 1;
      }
    }

    ghost predicate Unmapped()
      reads entries, memory
    {
      entries.Length == ENTRIES &&
      forall i: nat {:trigger TableOf(TheTables(), i)} :: i < ENTRIES ==> TableOf(TheTables(), i) == 0
    }

    /** A page-aligned frame outside the allocator's region, in memory. */
    ghost predicate StaticFrame(t: nat)
      reads memory, allocator
    {
      t % PAGE_SIZE == 0 && t != 0 && TakenFrame(allocator.arena, t)
      && t in memory.frames && |memory.frames[t]| == ENTRIES
    }

    method InstallStatic(starter: nat, io: nat)
      requires Valid() && Unmapped() && StaticFrame(starter) && StaticFrame(io) && starter != io
      modifies entries
      ensures forall j: nat :: Bit(entries[0], j) <==> Bit(starter, j) || j < 2
      ensures forall j: nat :: Bit(entries[1019], j) <==> Bit(io, j) || j < 2
      ensures forall i :: 0 <= i < 1024 && i != 0 && i != 1019 ==> entries[i] == old(entries[i])
      ensures Valid() && TableOf(TheTables(), 0) == starter && TableOf(TheTables(), 1019) == io
    {
      ghost var t0 := TheTables();
      var ok := AddPageTable(0, starter);
      ghost var t1 := WithEntry(t0, 0, starter);
      assert TableOf(t0, 0) == 0;
      assert TheTables() == t1;
      WithEntryOk(t0, 0, starter);
      forall j: nat | j < ENTRIES ensures TableOf(t1, j) == if j == 0 then starter else 0 {
        WithEntryTable(t0, 0, starter, j);
        assert TableOf(t0, j) == 0;
      }
      ok := AddPageTable(1019, io);
      ghost var t2 := WithEntry(t1, 1019, io);
      assert TableOf(t1, 1019) == 0;
      assert TheTables() == t2;
      WithEntryOk(t1, 1019, io);
      forall j: nat | j < ENTRIES ensures TableOf(t2, j) == if j == 0 then starter else if j == 1019 then io else 0 {
        WithEntryTable(t1, 1019, io, j);
      }
    }

    /** The word maps page `k` to itself, present and writable. */
    ghost predicate Writable(word: nat, k: nat) {
      forall j: nat :: Bit(word, j) <==> Bit(0x1000 * k, j) || j < 2
    }

    lemma NoBitsIsZero(word: nat)
      requires forall j: nat :: Bit(word, j) <==> Bit(0, j) || Bit(0, j)
      ensures word == 0
    {
      BitsDetermine(word, 0);
    }

    /** One pass of the identity loop: page `k` is mapped to itself, writable. */
    method IdentityStep(k: nat)
      requires Valid() && 1 <= k < ENTRIES && TableOf(TheTables(), 0) != 0
      modifies memory
      ensures Valid() && TableOf(TheTables(), 0) != 0
      ensures var t, before, after := TableOf(TheTables(), 0), old(memory.frames), memory.frames;
              t in before && t in after && |before[t]| == |after[t]| == 1024 && Writable(after[t][k], k)
              && forall q :: 0 <= q < 1024 && q != k ==> after[t][q] == before[t][q]
      ensures forall v: nat {:trigger VaToPa(TheTables(), v)} :: v < (k + 1) * PAGE_SIZE ==>
                VaToPa(TheTables(), v) ==
                  if v / PAGE_SIZE == k then Some(v - v % PAGE_SIZE) else VaToPa(old(TheTables()), v)
      ensures forall v: nat {:trigger Translate(TheTables(), v)} :: v < (k + 1) * PAGE_SIZE ==>
                Translate(TheTables(), v) ==
                  if v / PAGE_SIZE == k then Some(v - v % PAGE_SIZE) else Translate(old(TheTables()), v)
    {
      ghost var t0 := TheTables();
      var va := k * PAGE_SIZE;
      var ok := EntryTryMap(va, va, PTE_PW);
      MappedAligned(va, PTE_PW);
      WithWordOk(t0, va, Entry(va, PTE_PW));
      EntryBits(va, PTE_PW);
      PermBits();
      assert SlotOk(t0, 0);
      forall j: nat | j < ENTRIES && TableOf(TheTables(), j) != 0
        ensures TakenFrame(allocator.arena, TableOf(TheTables(), j))
      {
        assert TableOf(TheTables(), j) == TableOf(t0, j);
      }
      forall v: nat | v < (k + 1) * PAGE_SIZE
        ensures VaToPa(TheTables(), v) == if v / PAGE_SIZE == k then Some(v - v % PAGE_SIZE) else VaToPa(t0, v)
        ensures Translate(TheTables(), v) == if v / PAGE_SIZE == k then Some(v - v % PAGE_SIZE) else Translate(t0, v)
      {
        MapPage(t0, va, va, PTE_PW, v);
      }
    }
  }
}
