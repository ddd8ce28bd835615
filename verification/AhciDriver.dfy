/** The slot bookkeeping of the AHCI driver on its own words and pointers: the outstanding mask, the
    count of free slots and the status pointers into the callers' frames. Registers that the code
    reads come in as parameters; AhciProtocol says what may happen between the reads. */
module AhciDriver {
  import opened Bits
  import opened AhciProtocol

  /** The polled variable of one call of read_or_write. */
  class StatusCell {
    var value: Status
    constructor () { value := TryAgain; }
  }

  const FATAL_SHIFT: nat := 27 // 0x78000000 is bits 27 to 30

  /** `is_error`: a fatal bit of PxIS, or the error bit of PxTFD. */
  predicate IsError(portStatus: nat, tfd: nat) {
    Shr(portStatus, FATAL_SHIFT) % 16 != 0 || Bit(tfd, 0)
  }

  /** What becomes of a slot in the handler. */
  datatype Fate = Untouched | Given(status: Status)

  class Driver {
    const slots: nat
    var outstandingMask: nat
    var available: int
    const slotStatus: array<StatusCell?>

    ghost function Cells(): set<object>
      reads slotStatus
    {
      set i | 0 <= i < slotStatus.Length && slotStatus[i] != null :: slotStatus[i]
    }

    ghost predicate Valid()
      reads this, slotStatus
    {
      && slotStatus.Length == 32
      && outstandingMask < Pow2(16)
      && available + PopCount(outstandingMask) == slots
      && forall i, j :: 0 <= i < j < 32 && slotStatus[i] != null ==> slotStatus[i] != slotStatus[j]
    }

    constructor (slots: nat)
      ensures Valid() && fresh(slotStatus) && outstandingMask == 0 && available == slots
      ensures forall i :: 0 <= i < 32 ==> slotStatus[i] == null
    {
      this.slots := slots;
      outstandingMask := 0;
      available := slots;
      slotStatus := new StatusCell?[32](i => null);
    }

    /** The masked block of read_or_write: the status variable starts at TryAgain, the slot points at
        it, and the command enters the mask. */
    method Begin(slot: nat, r: StatusCell)
      requires Valid() && slot < 16 && !Bit(outstandingMask, slot)
      requires r !in Cells()
      modifies this`outstandingMask, this`available, slotStatus, r
      ensures Valid() && r.value == TryAgain && slotStatus[slot] == r
      ensures forall i :: 0 <= i < 32 && i != slot ==> slotStatus[i] == old(slotStatus[i])
      ensures forall i: nat :: Bit(outstandingMask, i) <==> i == slot || Bit(old(outstandingMask), i)
      ensures available == old(available) - 1
    {
      r.value := TryAgain;
      slotStatus[slot] := r;
      IssueNcq(slot);
    }

    /** issue_ncq, after the writes to PxSACT and PxCI. */
    method IssueNcq(slot: nat)
      requires Valid() && slot < 16 && !Bit(outstandingMask, slot)
      modifies this`outstandingMask, this`available
      ensures Valid()
      ensures forall i: nat :: Bit(outstandingMask, i) <==> i == slot || Bit(old(outstandingMask), i)
      ensures available == old(available) - 1
    {
      ghost var before := outstandingMask;
      outstandingMask := IssueMask(outstandingMask, slot);
      available := available - 1;
      IssueMaskBits(before, slot);
      OrPopCount(before, slot);
    }

    /** acknowledge: the mask bit is flipped, so it is right exactly for a slot that is outstanding. For
        any other it would put the slot into the mask and count two slots too many. */
    method Acknowledge(slot: nat, status: Status)
      requires Valid() && slot < 16
      modifies this`outstandingMask, this`available, slotStatus, Cells()
      ensures Valid() <==> Bit(old(outstandingMask), slot)
      ensures available + PopCount(outstandingMask) == slots + (if Bit(old(outstandingMask), slot) then 0 else 2)
      ensures forall i: nat :: Bit(outstandingMask, i) <==> Bit(old(outstandingMask), i) != (i == slot)
      ensures available == old(available) + 1
      ensures forall i :: 0 <= i < 32 ==> slotStatus[i] == if i == slot then null else old(slotStatus[i])
      ensures forall i :: 0 <= i < 32 && old(slotStatus[i]) != null ==>
                old(slotStatus[i]).value == if i == slot then status else old(slotStatus[i].value)
    {
      ghost var before := outstandingMask;
      outstandingMask := Xor(outstandingMask, Pow2(slot));
      available := available + 1;
      FlipMask(before, slot);
      if slotStatus[slot] != null {
        slotStatus[slot].value := status;
        slotStatus[slot] := null;
      }
    }

    /** handle_interrupt: every outstanding slot whose PxSACT bit is clear is acknowledged with success. With
        one of the bits 27 to 30 of PxIS or bit 0 of PxTFD set, every other outstanding slot is acknowledged
        with failure, so the mask is empty; otherwise those slots are left alone. Nothing else is touched. */
    method HandleInterrupt(portStatus: nat, tfd: nat, active: nat)
      requires Valid()
      modifies this`outstandingMask, this`available, slotStatus, Cells()
      ensures Valid()
      ensures var err := Bit(portStatus, 27) || Bit(portStatus, 28) || Bit(portStatus, 29) || Bit(portStatus, 30)
                         || tfd % 2 == 1;
              && (err ==> outstandingMask == 0)
              && (!err ==> forall i: nat :: Bit(outstandingMask, i) <==> Bit(old(outstandingMask), i) && Bit(active, i))
              && (forall i :: 0 <= i < 32 ==>
                    slotStatus[i] ==
                      if Bit(old(outstandingMask), i) && (err || !Bit(active, i)) then null else old(slotStatus[i]))
              && (forall i :: 0 <= i < 32 && old(slotStatus[i]) != null ==>
                    old(slotStatus[i]).value ==
                      if Bit(old(outstandingMask), i) && !Bit(active, i) then Success
                      else if Bit(old(outstandingMask), i) && err then DeviceError
                      else old(slotStatus[i].value))
    {
      ErrorBits(portStatus, tfd);
      var isError := IsError(portStatus, tfd);
      AckFinished(active);
      if isError {
        HandleErrorInterrupt();
      }
    }

    /** The loop `for (slot = 0; acks != 0; ++slot, acks >>= 1)`. */
    method AckFinished(active: nat)
      requires Valid()
      modifies this`outstandingMask, this`available, slotStatus, Cells()
      ensures Valid()
      ensures forall i: nat :: Bit(outstandingMask, i) <==> Bit(old(outstandingMask), i) && Bit(active, i)
      ensures forall i :: 0 <= i < 32 ==>
                slotStatus[i] == if Bit(old(outstandingMask), i) && !Bit(active, i) then null else old(slotStatus[i])
      ensures forall i :: 0 <= i < 32 && old(slotStatus[i]) != null ==>
                old(slotStatus[i]).value ==
                  if Bit(old(outstandingMask), i) && !Bit(active, i) then Success else old(slotStatus[i].value)
    {
      ghost var mask0 := outstandingMask;
      var acks := AndNot(outstandingMask, active);
      ghost var acks0 := acks;
      AckBits(mask0, active);
      var slot: nat := 0;
      while acks != 0
        invariant 0 <= slot <= 16 && acks == Shr(acks0, slot)
        invariant Valid()
        invariant forall i: nat :: Bit(outstandingMask, i) <==> Bit(mask0, i) && !(i < slot && Bit(acks0, i))
        invariant forall i :: 0 <= i < 32 ==>
                    slotStatus[i] == if i < slot && Bit(acks0, i) then null else old(slotStatus[i])
        invariant forall i :: 0 <= i < 32 && old(slotStatus[i]) != null ==>
                    old(slotStatus[i]).value ==
                      if i < slot && Bit(acks0, i) then Success else old(slotStatus[i].value)
        decreases acks
      {
        ShrBit(acks0, slot, 0);
        ShiftedOut(acks0, slot);
        AckIf(acks % 2 == 1, slot, Success);
        ShrNext(acks0, slot);
        slot := slot + 1;
        acks := acks / 2;
      }
      NothingAbove(acks0, slot);
    }

    /** The body of either loop: a slot whose bit was found is acknowledged. */
    method AckIf(found: bool, slot: nat, status: Status)
      requires Valid() && (found ==> Bit(outstandingMask, slot))
      modifies this`outstandingMask, this`available, slotStatus, Cells()
      ensures Valid()
      ensures forall i: nat :: Bit(outstandingMask, i) <==> Bit(old(outstandingMask), i) && !(found && i == slot)
      ensures forall i :: 0 <= i < 32 ==> slotStatus[i] == if found && i == slot then null else old(slotStatus[i])
      ensures forall i :: 0 <= i < 32 && old(slotStatus[i]) != null ==>
                old(slotStatus[i]).value == if found && i == slot then status else old(slotStatus[i].value)
    {
      NarrowMask(outstandingMask);
      if found {
        Acknowledge(slot, status);
      }
    }

    /** handle_error_interrupt: every slot still in the mask fails. */
    method HandleErrorInterrupt()
      requires Valid()
      modifies this`outstandingMask, this`available, slotStatus, Cells()
      ensures Valid() && outstandingMask == 0
      ensures forall i :: 0 <= i < 32 ==>
                slotStatus[i] == if Bit(old(outstandingMask), i) then null else old(slotStatus[i])
      ensures forall i :: 0 <= i < 32 && old(slotStatus[i]) != null ==>
                old(slotStatus[i]).value ==
                  if Bit(old(outstandingMask), i) then DeviceError else old(slotStatus[i].value)
    {
      ghost var mask0 := outstandingMask;
      NarrowMask(mask0);
      var slot: nat := 0;
      while slot < 32
        invariant 0 <= slot <= 32
        invariant Valid()
        invariant forall i: nat :: Bit(outstandingMask, i) <==> Bit(mask0, i) && i >= slot
        invariant forall i :: 0 <= i < 32 ==>
                    slotStatus[i] == if i < slot && Bit(mask0, i) then null else old(slotStatus[i])
        invariant forall i :: 0 <= i < 32 && old(slotStatus[i]) != null ==>
                    old(slotStatus[i]).value ==
                      if i < slot && Bit(mask0, i) then DeviceError else old(slotStatus[i].value)
      {
        AckIf(Bit(outstandingMask, slot), slot, DeviceError);
        slot := slot + 1;
      }
      ZeroBits();
      BitsDetermine(outstandingMask, 0);
    }
  }

  /** The mask of the fatal bits is 0x78000000, that of the error bit is 1. */
  lemma ErrorBits(portStatus: nat, tfd: nat)
    ensures IsError(portStatus, tfd) <==>
              Bit(portStatus, 27) || Bit(portStatus, 28) || Bit(portStatus, 29) || Bit(portStatus, 30) || tfd % 2 == 1
  {
    ShrBit(portStatus, 27, 0);
    ShrBit(portStatus, 27, 1);
    ShrBit(portStatus, 27, 2);
    ShrBit(portStatus, 27, 3);
    LowNibble(Shr(portStatus, 27));
  }

  lemma LowNibble(x: nat)
    ensures x % 16 != 0 <==> Bit(x, 0) || Bit(x, 1) || Bit(x, 2) || Bit(x, 3)
  {
    var a := x / 2;
    var b := a / 2;
    var c := b / 2;
    assert Bit(x, 1) == Bit(a, 0) && Bit(x, 2) == Bit(a, 1) == Bit(b, 0);
    assert Bit(x, 3) == Bit(a, 2) == Bit(b, 1) == Bit(c, 0);
    assert x % 16 == x % 2 + 2 * (a % 8) by { LowDigit(x, 8); }
    assert a % 8 == a % 2 + 2 * (b % 4) by { LowDigit(a, 4); }
    assert b % 4 == b % 2 + 2 * (c % 2) by { LowDigit(b, 2); }
  }

  lemma LowDigit(x: nat, m: nat)
    requires m > 0
    ensures x % (2 * m) == x % 2 + 2 * (x / 2 % m)
  {
    var q, r := x / 2 / m, x / 2 % m;
    assert x == q * (2 * m) + (2 * r + x % 2) by {
      assert x / 2 == q * m + r;
      assert (q * m + r) * 2 == q * (2 * m) + 2 * r;
    }
    ModUnique(x, 2 * m, q, 2 * r + x % 2);
  }

  /** `mask ^= 1 << slot` flips one bit. */
  lemma FlipMask(mask: nat, slot: nat)
    requires mask < Pow2(16) && slot < 16
    ensures forall i: nat :: Bit(Xor(mask, Pow2(slot)), i) <==> Bit(mask, i) != (i == slot)
    ensures Xor(mask, Pow2(slot)) < Pow2(16)
    ensures PopCount(Xor(mask, Pow2(slot))) == PopCount(mask) + (if Bit(mask, slot) then -1 else 1)
  {
    XorPopCount(mask, slot);
    Pow2Monotone(slot + 1, 16);
    XorBound(mask, Pow2(slot), 16);
    forall i: nat ensures Bit(Xor(mask, Pow2(slot)), i) <==> Bit(mask, i) != (i == slot) {
      XorBit(mask, Pow2(slot), i);
      ShiftBit(slot, i);
    }
  }

  lemma AckBits(mask: nat, active: nat)
    requires mask < Pow2(16)
    ensures forall i: nat :: Bit(AndNot(mask, active), i) <==> Bit(mask, i) && !Bit(active, i)
    ensures AndNot(mask, active) < Pow2(16)
  {
    AndNotBound(mask, active);
    forall i: nat ensures Bit(AndNot(mask, active), i) <==> Bit(mask, i) && !Bit(active, i) {
      AndNotBit(mask, active, i);
    }
  }

  lemma NarrowMask(mask: nat)
    requires mask < Pow2(16)
    ensures forall i: nat :: Bit(mask, i) ==> i < 16
  {
    forall i: nat | i >= 16 ensures !Bit(mask, i) {
      BitBound(mask, 16, i);
    }
  }

  lemma ZeroBits()
    ensures forall i: nat :: !Bit(0, i)
  {
    forall i: nat ensures !Bit(0, i) {
      ZeroBit(i);
    }
  }

  lemma SmallMod(x: nat, d: nat)
    requires d > 0
    ensures x % d < d
    ensures x < d ==> x % d == x
  {
  }

  lemma NothingAbove(x: nat, t: nat)
    requires Shr(x, t) == 0
    ensures forall i: nat :: Bit(x, i) ==> i < t
  {
    forall i: nat | i >= t ensures !Bit(x, i) {
      ShrBit(x, t, i - t);
      ZeroBit(i - t);
    }
  }

  /** `mask |= 1 << slot` stored back into 16 bits. */
  function IssueMask(mask: nat, slot: nat): nat {
    Or(mask, Pow2(slot)) % Pow2(16)
  }

  /** As written, a slot is remembered exactly when it is below 16: a command issued in a higher slot
      never enters the mask, so no interrupt would acknowledge it. */
  lemma IssueMaskBits(mask: nat, slot: nat)
    requires mask < Pow2(16)
    ensures forall i: nat :: Bit(IssueMask(mask, slot), i) <==> (i == slot && slot < 16) || Bit(mask, i)
    ensures slot < 16 ==> IssueMask(mask, slot) == Or(mask, Pow2(slot))
    ensures IssueMask(mask, slot) < Pow2(16)
  {
    forall i: nat ensures Bit(IssueMask(mask, slot), i) <==> (i == slot && slot < 16) || Bit(mask, i) {
      TruncateBit(Or(mask, Pow2(slot)), 16, i);
      OrBit(mask, Pow2(slot), i);
      ShiftBit(slot, i);
      if i >= 16 { BitBound(mask, 16, i); }
    }
    if slot < 16 {
      Pow2Monotone(slot + 1, 16);
      OrBound(mask, Pow2(slot), 16);
    }
    SmallMod(Or(mask, Pow2(slot)), Pow2(16));
  }

  lemma {:induction false} ShrNext(x: nat, t: nat)
    ensures Shr(x, t + 1) == Shr(x, t) / 2
    decreases t
  {
    if t > 0 { ShrNext(x / 2, t - 1); }
  }

  /** A word that is not zero has a bit. */
  lemma {:induction false} HasBit(x: nat) returns (i: nat)
    requires x != 0
    ensures Bit(x, i)
  {
    if x % 2 == 1 { return 0; }
    i := HasBit(x / 2);
    i := i + 1;
  }

  /** Sixteen bits are gone after sixteen shifts. */
  lemma ShiftedOut(acks: nat, slot: nat)
    requires acks < Pow2(16)
    ensures Shr(acks, slot) != 0 ==> slot < 16
  {
    NarrowMask(acks);
    if Shr(acks, slot) != 0 {
      var i := HasBit(Shr(acks, slot));
      ShrBit(acks, slot, i);
    }
  }
}
