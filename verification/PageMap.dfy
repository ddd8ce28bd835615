/** Page tables as values: the words of the directory and of the frames that hold tables, and the page
    map they stand for. */
module PageMap {
  import opened Bits
  import opened Options
  import opened PageEntries

  type Frames = map<nat, seq<nat>>

  datatype Tables = Tables(entries: seq<nat>, frames: Frames)

  /** The table of directory slot `i`, or 0. */
  function TableOf(t: Tables, i: nat): nat
    requires i < |t.entries|
  {
    Address(t.entries[i])
  }

  predicate SlotOk(t: Tables, i: nat)
    requires i < |t.entries|
  {
    TableOf(t, i) != 0 ==> TableOf(t, i) in t.frames && |t.frames[TableOf(t, i)]| == ENTRIES
  }

  predicate SlotsApart(t: Tables, i: nat, j: nat)
    requires i < |t.entries| && j < |t.entries|
  {
    i != j && TableOf(t, i) != 0 ==> TableOf(t, i) != TableOf(t, j)
  }

  /** Every table of the directory is a frame of 1024 words, and no two slots share one. */
  ghost predicate TablesOk(t: Tables) {
    && |t.entries| == ENTRIES
    && (forall i: nat {:trigger SlotOk(t, i)} :: i < ENTRIES ==> SlotOk(t, i))
    && (forall i: nat, j: nat {:trigger SlotsApart(t, i, j)} :: i < ENTRIES && j < ENTRIES ==> SlotsApart(t, i, j))
  }

  /** The word that maps `va`, if its directory slot has a table. */
  ghost function WordOf(t: Tables, va: nat): Option<nat>
    requires TablesOk(t) && va < WORD
  {
    assert SlotOk(t, DirIndex(va));
    if TableOf(t, DirIndex(va)) == 0 then None
    else Some(t.frames[TableOf(t, DirIndex(va))][TableIndex(va)])
  }

  /** va_to_pa: the address in that word; it does not look at the present bit. */
  ghost function VaToPa(t: Tables, va: nat): Option<nat>
    requires TablesOk(t) && va < WORD
  {
    AddressIn(WordOf(t, va))
  }

  function AddressIn(word: Option<nat>): Option<nat> {
    if word.None? then None else Some(Address(word.value))
  }

  /** What the processor finds: the page frame, if the word is present. */
  ghost function Translate(t: Tables, va: nat): Option<nat>
    requires TablesOk(t) && va < WORD
  {
    FrameIn(WordOf(t, va))
  }

  function FrameIn(word: Option<nat>): Option<nat> {
    if word.Some? && Present(word.value) then AddressIn(word) else None
  }

  function SetWord(words: seq<nat>, i: nat, value: nat): seq<nat>
    requires i < |words|
  {
    words[i := value]
  }

  // ---------------------------------------------------------------- writing one entry

  function WithWord(t: Tables, va: nat, word: nat): Tables
    requires DirIndex(va) < |t.entries| && va < WORD
    requires TableOf(t, DirIndex(va)) in t.frames && TableIndex(va) < |t.frames[TableOf(t, DirIndex(va))]|
  {
    var f := TableOf(t, DirIndex(va));
    t.(frames := t.frames[f := SetWord(t.frames[f], TableIndex(va), word)])
  }

  lemma WithWordOk(t: Tables, va: nat, word: nat)
    requires TablesOk(t) && va < WORD && TableOf(t, DirIndex(va)) != 0
    ensures SlotOk(t, DirIndex(va)) && TablesOk(WithWord(t, va, word))
  {
    assert SlotOk(t, DirIndex(va));
    var t' := WithWord(t, va, word);
    forall i: nat | i < ENTRIES ensures SlotOk(t', i) {
      assert SlotOk(t, i);
    }
    forall i: nat, j: nat | i < ENTRIES && j < ENTRIES ensures SlotsApart(t', i, j) {
      assert SlotsApart(t, i, j);
    }
  }

  /** Writing the word of `va` changes the word of exactly its page. */
  lemma WithWordWords(t: Tables, va: nat, word: nat, v: nat)
    requires TablesOk(t) && va < WORD && TableOf(t, DirIndex(va)) != 0 && v < WORD
    ensures SlotOk(t, DirIndex(va)) && TablesOk(WithWord(t, va, word))
    ensures WordOf(WithWord(t, va, word), v) ==
            if v / PAGE_SIZE == va / PAGE_SIZE then Some(word) else WordOf(t, v)
  {
    WithWordOk(t, va, word);
    SamePage(v, va);
    assert SlotOk(t, DirIndex(v)) && SlotsApart(t, DirIndex(v), DirIndex(va));
  }

  /** Mapping a page: it translates to the target as told, every other page as before. Of a target that
      is not aligned the mask keeps all but the last byte; an odd one sets the present bit. */
  lemma MapPage(t: Tables, va: nat, pa: nat, perm: nat, v: nat)
    requires TablesOk(t) && va < WORD && TableOf(t, DirIndex(va)) != 0 && v < WORD && perm < 0x100
    ensures SlotOk(t, DirIndex(va)) && TablesOk(WithWord(t, va, Entry(pa, perm)))
    ensures var t' := WithWord(t, va, Entry(pa, perm));
            if v / PAGE_SIZE == va / PAGE_SIZE then
              VaToPa(t', v) == Some(pa - pa % 0x100) && Translate(t', v) == Mapped(pa, perm)
            else
              VaToPa(t', v) == VaToPa(t, v) && Translate(t', v) == Translate(t, v)
  {
    WithWordWords(t, va, Entry(pa, perm), v);
    EntryFields(pa, perm);
  }

  /** What a page mapped to `pa` translates to. */
  function Mapped(pa: nat, perm: nat): Option<nat> {
    if perm % 2 == 1 || pa % 2 == 1 then Some(pa - pa % 0x100) else None
  }

  /** For a page-aligned target that is the target itself, if the permissions make it present. */
  lemma MappedAligned(pa: nat, perm: nat)
    requires pa % PAGE_SIZE == 0
    ensures pa - pa % 0x100 == pa && Mapped(pa, perm) == if perm % 2 == 1 then Some(pa) else None
  {
    PageDivides(pa / PAGE_SIZE);
  }

  /** va_to_pa gives the target back exactly when it is a multiple of 256. */
  lemma MapAnywhere(t: Tables, va: nat, pa: nat, perm: nat)
    requires TablesOk(t) && va < WORD && TableOf(t, DirIndex(va)) != 0 && perm < 0x100
    ensures SlotOk(t, DirIndex(va)) && TablesOk(WithWord(t, va, Entry(pa, perm)))
    ensures VaToPa(WithWord(t, va, Entry(pa, perm)), va) == Some(pa) <==> pa % 0x100 == 0
  {
    WithWordWords(t, va, Entry(pa, perm), va);
    EntryFields(pa, perm);
  }

  // ---------------------------------------------------------------- adding a table

  /** The slot's entry names the frame. */
  function WithEntry(t: Tables, i: nat, frame: nat): Tables
    requires i < |t.entries|
  {
    t.(entries := SetWord(t.entries, i, Entry(frame, PTE_PW)))
  }

  /** ... and the frame is cleared. */
  function WithTable(t: Tables, i: nat, frame: nat): Tables
    requires i < |t.entries|
  {
    WithEntry(t.(frames := t.frames[frame := seq(ENTRIES, k => 0)]), i, frame)
  }

  /** The frame is not a table of the directory. */
  ghost predicate Unused(t: Tables, frame: nat)
    requires |t.entries| == ENTRIES
  {
    forall i: nat {:trigger TableOf(t, i)} :: i < ENTRIES ==> TableOf(t, i) != frame
  }

  lemma WithEntryTable(t: Tables, i: nat, frame: nat, j: nat)
    requires |t.entries| == ENTRIES && i < ENTRIES && j < ENTRIES && frame % PAGE_SIZE == 0
    ensures TableOf(WithEntry(t, i, frame), j) == if j == i then frame else TableOf(t, j)
  {
    PageEntry(frame, PTE_PW);
  }

  lemma WithEntryOk(t: Tables, i: nat, frame: nat)
    requires TablesOk(t) && i < ENTRIES && frame % PAGE_SIZE == 0 && frame != 0 && Unused(t, frame)
    requires frame in t.frames && |t.frames[frame]| == ENTRIES
    ensures TablesOk(WithEntry(t, i, frame))
  {
    var t' := WithEntry(t, i, frame);
    forall j: nat | j < ENTRIES ensures SlotOk(t', j) {
      WithEntryTable(t, i, frame, j);
      assert SlotOk(t, j);
    }
    forall j: nat, k: nat | j < ENTRIES && k < ENTRIES ensures SlotsApart(t', j, k) {
      WithEntryTable(t, i, frame, j);
      WithEntryTable(t, i, frame, k);
      assert SlotsApart(t, j, k);
      assert TableOf(t, j) != frame && TableOf(t, k) != frame;
    }
  }

  lemma ClearedOk(t: Tables, frame: nat)
    requires TablesOk(t) && Unused(t, frame)
    ensures TablesOk(t.(frames := t.frames[frame := seq(ENTRIES, k => 0)]))
    ensures Unused(t.(frames := t.frames[frame := seq(ENTRIES, k => 0)]), frame)
  {
    var t' := t.(frames := t.frames[frame := seq(ENTRIES, k => 0)]);
    forall j: nat | j < ENTRIES ensures SlotOk(t', j) {
      assert SlotOk(t, j);
    }
    forall j: nat, k: nat | j < ENTRIES && k < ENTRIES ensures SlotsApart(t', j, k) {
      assert SlotsApart(t, j, k);
    }
    forall j: nat | j < ENTRIES ensures TableOf(t', j) != frame {
      assert TableOf(t, j) != frame;
    }
  }

  lemma WithTableOk(t: Tables, i: nat, frame: nat)
    requires TablesOk(t) && i < ENTRIES && TableOf(t, i) == 0
    requires frame % PAGE_SIZE == 0 && frame != 0 && Unused(t, frame)
    ensures TablesOk(WithTable(t, i, frame))
    ensures forall j: nat {:trigger TableOf(WithTable(t, i, frame), j)} :: j < ENTRIES ==>
              TableOf(WithTable(t, i, frame), j) == if j == i then frame else TableOf(t, j)
  {
    var cleared := t.(frames := t.frames[frame := seq(ENTRIES, k => 0)]);
    ClearedOk(t, frame);
    WithEntryOk(cleared, i, frame);
    forall j: nat | j < ENTRIES
      ensures TableOf(WithTable(t, i, frame), j) == if j == i then frame else TableOf(t, j)
    {
      WithEntryTable(cleared, i, frame, j);
    }
  }

  lemma AddTableWords(t: Tables, i: nat, frame: nat, v: nat)
    requires TablesOk(t) && i < ENTRIES && TableOf(t, i) == 0 && v < WORD
    requires frame % PAGE_SIZE == 0 && frame != 0 && Unused(t, frame)
    ensures TablesOk(WithTable(t, i, frame)) && TableOf(WithTable(t, i, frame), i) == frame
    ensures WordOf(WithTable(t, i, frame), v) == if DirIndex(v) == i then Some(0) else WordOf(t, v)
  {
    var t' := WithTable(t, i, frame);
    WithTableOk(t, i, frame);
    assert SlotOk(t, DirIndex(v));
    assert TableOf(t, DirIndex(v)) != frame;
    if DirIndex(v) != i { assert TableOf(t', DirIndex(v)) == TableOf(t, DirIndex(v)); }
  }

  /** A fresh, cleared table maps nothing: every address translates as before. va_to_pa, which ignores
      the present bit, now reports page 0 for the other addresses under the slot. */
  lemma AddTable(t: Tables, i: nat, frame: nat, v: nat)
    requires TablesOk(t) && i < ENTRIES && TableOf(t, i) == 0 && v < WORD
    requires frame % PAGE_SIZE == 0 && frame != 0 && Unused(t, frame)
    ensures TablesOk(WithTable(t, i, frame)) && TableOf(WithTable(t, i, frame), i) == frame
    ensures Translate(WithTable(t, i, frame), v) == Translate(t, v)
    ensures VaToPa(WithTable(t, i, frame), v) == if DirIndex(v) == i then Some(0) else VaToPa(t, v)
  {
    AddTableWords(t, i, frame, v);
  }

  /** va_to_pa after `va` was mapped to `pa`, when a slot without a table got a fresh one: the other pages
      under that slot now lead to page 0. */
  ghost function VaToPaAfter(t: Tables, va: nat, pa: nat, v: nat): Option<nat>
    requires TablesOk(t) && va < WORD && v < WORD
  {
    if v / PAGE_SIZE == va / PAGE_SIZE then Some(pa - pa % 0x100)
    else if DirIndex(v) == DirIndex(va) && TableOf(t, DirIndex(va)) == 0 then Some(0)
    else VaToPa(t, v)
  }

  /** Mapping with the table that was there, or with a fresh one. */
  lemma MapWithTable(t: Tables, t1: Tables, frame: nat, va: nat, pa: nat, perm: nat, v: nat)
    requires TablesOk(t) && va < WORD && v < WORD && perm < 0x100
    requires if TableOf(t, DirIndex(va)) != 0 then t1 == t
             else frame % PAGE_SIZE == 0 && frame != 0 && Unused(t, frame) && t1 == WithTable(t, DirIndex(va), frame)
    ensures TablesOk(t1) && TableOf(t1, DirIndex(va)) != 0
    ensures SlotOk(t1, DirIndex(va)) && TablesOk(WithWord(t1, va, Entry(pa, perm)))
    ensures var t' := WithWord(t1, va, Entry(pa, perm));
            && VaToPa(t', v) == VaToPaAfter(t, va, pa, v)
            && Translate(t', v) == if v / PAGE_SIZE == va / PAGE_SIZE then Mapped(pa, perm) else Translate(t, v)
  {
    if TableOf(t, DirIndex(va)) == 0 { AddTable(t, DirIndex(va), frame, v); }
    MapPage(t1, va, pa, perm, v);
  }

  /** The same for all addresses. */
  lemma MapAll(t: Tables, t1: Tables, frame: nat, va: nat, pa: nat, perm: nat)
    requires TablesOk(t) && va < WORD && perm < 0x100
    requires if TableOf(t, DirIndex(va)) != 0 then t1 == t
             else frame % PAGE_SIZE == 0 && frame != 0 && Unused(t, frame) && t1 == WithTable(t, DirIndex(va), frame)
    ensures TablesOk(t1) && TableOf(t1, DirIndex(va)) != 0
    ensures SlotOk(t1, DirIndex(va)) && TablesOk(WithWord(t1, va, Entry(pa, perm)))
    ensures forall v: nat {:trigger VaToPa(WithWord(t1, va, Entry(pa, perm)), v)} :: v < WORD ==>
              VaToPa(WithWord(t1, va, Entry(pa, perm)), v) == VaToPaAfter(t, va, pa, v)
    ensures forall v: nat {:trigger Translate(WithWord(t1, va, Entry(pa, perm)), v)} :: v < WORD ==>
              Translate(WithWord(t1, va, Entry(pa, perm)), v) ==
                if v / PAGE_SIZE == va / PAGE_SIZE then Mapped(pa, perm) else Translate(t, v)
  {
    MapWithTable(t, t1, frame, va, pa, perm, va);
    forall v: nat | v < WORD
      ensures VaToPa(WithWord(t1, va, Entry(pa, perm)), v) == VaToPaAfter(t, va, pa, v)
      ensures Translate(WithWord(t1, va, Entry(pa, perm)), v) ==
                if v / PAGE_SIZE == va / PAGE_SIZE then Mapped(pa, perm) else Translate(t, v)
    {
      MapWithTable(t, t1, frame, va, pa, perm, v);
    }
  }

  /** What MapWithTable stores, in the words themselves: in the table that the directory slot `va >> 22`
      then names, the word `va >> 12 & 0x3FF` has the bits of the target and of the permissions. Nothing
      else changes, but that a fresh table is cleared and its slot gets its address and the bits 0 and 1. */
  lemma StoredWords(t: Tables, t1: Tables, frame: nat, va: nat, pa: nat, perm: nat)
    requires TablesOk(t) && va < WORD
    requires if TableOf(t, DirIndex(va)) != 0 then t1 == t
             else frame % PAGE_SIZE == 0 && frame != 0 && Unused(t, frame) && t1 == WithTable(t, DirIndex(va), frame)
    requires SlotOk(t1, DirIndex(va)) && TableOf(t1, DirIndex(va)) != 0
    ensures var t' := WithWord(t1, va, Entry(pa, perm));
            var i, k := va / 0x40_0000, va / 0x1000 % 1024;
            var dirs, before, dirs', after := t.entries, t.frames, t'.entries, t'.frames;
            |dirs| == |dirs'| == 1024 &&
            var table := dirs'[i] - dirs'[i] % 0x100;
            && table in after && |after[table]| == 1024
            && (forall j: nat :: Bit(after[table][k], j) <==> Bit(pa, j) || Bit(perm, j))
            && (forall q :: 0 <= q < 1024 && q != i ==> dirs'[q] == dirs[q])
            && (forall f :: f in before && f != table ==> f in after && after[f] == before[f])
            && (if dirs[i] >= 0x100 then
                  && dirs'[i] == dirs[i] && table in before && |before[table]| == 1024
                  && (forall q :: 0 <= q < 1024 && q != k ==> after[table][q] == before[table][q])
                else
                  && (forall j: nat :: Bit(dirs'[i], j) <==> Bit(table, j) || j < 2)
                  && (forall q :: 0 <= q < 1024 && q != k ==> after[table][q] == 0))
  {
    EntryBits(pa, perm);
    assert SlotOk(t, DirIndex(va));
    SamePage(va, va);
    if TableOf(t, DirIndex(va)) == 0 {
      PageEntry(frame, PTE_PW);
      EntryBits(frame, PTE_PW);
      PermBits();
    }
  }
}
