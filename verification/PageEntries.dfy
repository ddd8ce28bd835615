/** The 32-bit entries of page directories and page tables, and the fields of a virtual address. */
module PageEntries {
  import opened Bits

  const PAGE_SIZE: nat := 0x1000
  const ENTRIES: nat := 1024
  const PTE_PW: nat := 3

  /** va_to_idx: the top ten bits. */
  function DirIndex(va: nat): nat { va / 0x40_0000 }

  /** pt_idx: bits 12 to 21. */
  function TableIndex(va: nat): nat { va / PAGE_SIZE % ENTRIES }

  /** `_internal = addr; _internal |= perm`. */
  function Entry(addr: nat, perm: nat): nat { Or(addr, perm) }

  predicate Present(entry: nat) { Bit(entry, 0) }

  /** page_address and pt_address mask with 0xFFFFFF00, not with the 0xFFFFF000 of 4 KiB frames. */
  function Address(entry: nat): nat { entry - entry % 0x100 }

  lemma {:induction false} ShrOr(x: nat, y: nat, t: nat)
    ensures Shr(Or(x, y), t) == Or(Shr(x, t), Shr(y, t))
    decreases t
  {
    if t > 0 {
      assert Or(x, y) / 2 == Or(x / 2, y / 2);
      ShrOr(x / 2, y / 2, t - 1);
    }
  }

  lemma ByteShift(x: nat)
    ensures Shr(x, 8) == x / 0x100
  {
    var a, b, c, d := x / 2, x / 4, x / 8, x / 16;
    assert Shr(x, 8) == Shr(a, 7) == Shr(b, 6) == Shr(c, 5) == Shr(d, 4);
    assert Shr(d, 4) == Shr(d / 2, 3) == Shr(d / 4, 2) == Shr(d / 8, 1) == Shr(d / 16, 0);
  }

  /** The permission byte stays out of the address field, so an entry leads back to the address it was
      made from exactly when that address is a multiple of 256; it is present when the permissions
      or the address say so. */
  lemma EntryFields(addr: nat, perm: nat)
    requires perm < 0x100
    ensures Address(Entry(addr, perm)) == addr - addr % 0x100
    ensures Address(Entry(addr, perm)) == addr <==> addr % 0x100 == 0
    ensures Present(Entry(addr, perm)) <==> addr % 2 == 1 || perm % 2 == 1
  {
    ShrOr(addr, perm, 8);
    ByteShift(addr);
    ByteShift(perm);
    ByteShift(Or(addr, perm));
    OrZero(addr / 0x100);
    OrBit(addr, perm, 0);
  }

  /** The stored word has exactly the bits of the address and of the permissions. */
  lemma EntryBits(addr: nat, perm: nat)
    ensures forall j: nat :: Bit(Entry(addr, perm), j) <==> Bit(addr, j) || Bit(perm, j)
  {
    forall j: nat ensures Bit(Entry(addr, perm), j) <==> Bit(addr, j) || Bit(perm, j) {
      OrBit(addr, perm, j);
    }
  }

  /** Present and writable: bits 0 and 1. */
  lemma PermBits()
    ensures forall j: nat :: Bit(PTE_PW, j) <==> j < 2
  {
    forall j: nat ensures Bit(3, j) <==> j < 2 {
      if j >= 2 { ZeroBit(j - 2); }
    }
  }

  /** The entry made from a page-aligned address. */
  lemma PageEntry(addr: nat, perm: nat)
    requires perm < 0x100 && addr % PAGE_SIZE == 0
    ensures Address(Entry(addr, perm)) == addr
    ensures Present(Entry(addr, perm)) <==> perm % 2 == 1
  {
    EntryFields(addr, perm);
    PageDivides(addr / PAGE_SIZE);
  }

  lemma PageDivides(q: nat)
    ensures (PAGE_SIZE * q) % 0x100 == 0 && (PAGE_SIZE * q) % 2 == 0
  {
  }

  /** Two virtual addresses meet in both indices exactly when they lie in one page. */
  lemma SamePage(va: nat, va': nat)
    requires va < WORD && va' < WORD
    ensures DirIndex(va) < ENTRIES && TableIndex(va) < ENTRIES
    ensures DirIndex(va) == DirIndex(va') && TableIndex(va) == TableIndex(va')
            <==> va / PAGE_SIZE == va' / PAGE_SIZE
  {
    assert va / 0x40_0000 == (va / PAGE_SIZE) / ENTRIES;
    assert va' / 0x40_0000 == (va' / PAGE_SIZE) / ENTRIES;
  }
}
