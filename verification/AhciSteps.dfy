/** Every step of the protocol keeps its invariant, one lemma for each kind of step. */
module AhciSteps {
  import opened AhciProtocol

  lemma InitialInv(slots: nat)
    requires slots <= 16
    ensures Inv(Initial(slots), slots)
  {
  }

  lemma DeviceStepKeeps(s: State, t: Step, n: nat)
    requires Inv(s, n) && Enabled(s, t)
    requires t.Accept? || t.Complete? || t.Raise? || t.Fail? || t.ClearTfd? || t.Halt?
    ensures Inv(Apply(s, t), n)
  {
    var s' := Apply(s, t);
    forall x | x in s'.outstanding || IssuingAt(s', x, SetMask)
      ensures SlotNoticed(s', x)
    {
      assert SlotNoticed(s, x);
    }
    forall x: nat | x < |s'.calls| ensures CallerOk(s', x) {
      assert CallerOk(s, x);
    }
  }

  lemma CallKeeps(s: State, t: Step, n: nat)
    requires Inv(s, n) && Enabled(s, t) && (t.Call? || t.Return? || t.Interrupt?)
    ensures Inv(Apply(s, t), n)
  {
    var s' := Apply(s, t);
    forall x | x in s'.outstanding ensures SlotNoticed(s', x) {
      assert SlotNoticed(s, x);
    }
    forall x: nat | x < |s'.calls| ensures CallerOk(s', x) {
      assert CallerOk(s, x);
    }
  }

  /** Nothing the caller of slot `x` depends on has changed. */
  ghost predicate SameCaller(s: State, s': State, x: nat)
    requires Sized(s) && Sized(s') && x < |s.calls| == |s'.calls|
  {
    && s'.issued[x] == s.issued[x] && s'.acked[x] == s.acked[x] && s'.pointer[x] == s.pointer[x]
    && s'.calls[x] == s.calls[x] && s'.result[x] == s.result[x]
    && (x in s'.outstanding <==> x in s.outstanding) && (x in s'.inCall <==> x in s.inCall)
    && (x in s.completed ==> x in s'.completed) && (s.everFailed ==> s'.everFailed)
  }

  lemma OtherCallers(s: State, s': State, slot: nat)
    requires Sized(s) && Sized(s') && CallersOk(s) && |s'.calls| == |s.calls| && slot < |s.calls|
    requires s.cpu.Issuing? ==> s.cpu.slot == slot
    requires s'.cpu.Issuing? ==> s'.cpu.slot == slot
    requires forall x: nat :: x < |s.calls| && x != slot ==> SameCaller(s, s', x)
    requires CallerOk(s', slot)
    ensures CallersOk(s')
  {
    forall x: nat | x < |s'.calls| ensures CallerOk(s', x) {
      if x != slot {
        assert CallerOk(s, x);
        assert SameCaller(s, s', x);
      }
    }
  }

  lemma ArmKeeps(s: State, n: nat)
    requires Inv(s, n) && s.cpu.Issuing? && s.cpu.at == Arm
    ensures Inv(Apply(s, Issue), n)
  {
    var s', slot := Apply(s, Issue), s.cpu.slot;
    assert CallerOk(s, slot);
    forall x | x in s'.outstanding || IssuingAt(s', x, SetMask) ensures SlotNoticed(s', x) {
      if x in s.outstanding || IssuingAt(s, x, SetMask) { assert SlotNoticed(s, x); }
    }
    OtherCallers(s, s', slot);
  }

  lemma WriteSactKeeps(s: State, n: nat)
    requires Inv(s, n) && s.cpu.Issuing? && s.cpu.at == WriteSact
    ensures Inv(Apply(s, Issue), n)
  {
    var s', slot := Apply(s, Issue), s.cpu.slot;
    assert CallerOk(s, slot);
    forall x | x in s'.outstanding || IssuingAt(s', x, SetMask) ensures SlotNoticed(s', x) {
      if x in s.outstanding || IssuingAt(s, x, SetMask) { assert SlotNoticed(s, x); }
    }
    OtherCallers(s, s', slot);
  }

  lemma WriteCiKeeps(s: State, n: nat)
    requires Inv(s, n) && s.cpu.Issuing? && s.cpu.at == WriteCi
    ensures Inv(Apply(s, Issue), n)
  {
    var s', slot := Apply(s, Issue), s.cpu.slot;
    assert CallerOk(s, slot);
    forall x | x in s'.outstanding || IssuingAt(s', x, SetMask) ensures SlotNoticed(s', x) {
      if x in s.outstanding || IssuingAt(s, x, SetMask) { assert SlotNoticed(s, x); }
    }
    OtherCallers(s, s', slot);
  }

  lemma SetMaskKeeps(s: State, n: nat)
    requires Inv(s, n) && s.cpu.Issuing? && s.cpu.at == SetMask
    ensures Inv(Apply(s, Issue), n)
  {
    var s', slot := Apply(s, Issue), s.cpu.slot;
    assert CallerOk(s, slot);
    forall x | x in s'.outstanding || IssuingAt(s', x, SetMask) ensures SlotNoticed(s', x) {
      if x in s.outstanding || IssuingAt(s, x, SetMask) { assert SlotNoticed(s, x); }
    }
    OtherCallers(s, s', slot);
  }

  lemma TakeSlotKeeps(s: State, n: nat)
    requires Inv(s, n) && s.cpu.Issuing? && s.cpu.at == TakeSlot
    ensures Inv(Apply(s, Issue), n)
  {
    var s', slot := Apply(s, Issue), s.cpu.slot;
    assert CallerOk(s, slot);
    forall x | x in s'.outstanding || IssuingAt(s', x, SetMask) ensures SlotNoticed(s', x) {
      if x in s.outstanding || IssuingAt(s, x, SetMask) { assert SlotNoticed(s, x); }
    }
    OtherCallers(s, s', slot);
  }

  lemma UnmaskKeeps(s: State, n: nat)
    requires Inv(s, n) && s.cpu.Issuing? && s.cpu.at == Unmask
    ensures Inv(Apply(s, Issue), n)
  {
    var s', slot := Apply(s, Issue), s.cpu.slot;
    assert CallerOk(s, slot);
    forall x | x in s'.outstanding || IssuingAt(s', x, SetMask) ensures SlotNoticed(s', x) {
      if x in s.outstanding || IssuingAt(s, x, SetMask) { assert SlotNoticed(s, x); }
    }
    OtherCallers(s, s', slot);
  }

  lemma IssueKeeps(s: State, n: nat)
    requires Inv(s, n) && s.cpu.Issuing?
    ensures Inv(Apply(s, Issue), n)
  {
    match s.cpu.at {
      case Arm => ArmKeeps(s, n);
      case WriteSact => WriteSactKeeps(s, n);
      case WriteCi => WriteCiKeeps(s, n);
      case SetMask => SetMaskKeeps(s, n);
      case TakeSlot => TakeSlotKeeps(s, n);
      case Unmask => UnmaskKeeps(s, n);
    }
  }

  /** acknowledge, for a slot in the mask: the bit goes, the caller of that slot gets the status, and
      nobody else is affected. */
  lemma AcknowledgeEffect(s: State, slot: nat, status: Status, n: nat)
    requires Inv(s, n) && slot in s.outstanding && s.cpu.Handling?
    ensures slot < |s.calls| && slot in s.inCall
    ensures Acknowledge(s, slot, status) ==
            s.(outstanding := s.outstanding - {slot}, available := s.available + 1,
               acked := s.acked[slot := s.acked[slot] + 1], pointer := s.pointer[slot := Null],
               result := s.result[slot := status])
  {
    assert CallerOk(s, slot);
  }

  lemma AckOneKeeps(s: State, n: nat)
    requires Inv(s, n) && s.cpu.Handling? && s.cpu.pc.Ack? && s.cpu.pc.slot in s.cpu.pc.acks
    ensures Inv(Apply(s, Handle), n)
  {
    var s', slot := Apply(s, Handle), s.cpu.pc.slot;
    AcknowledgeEffect(s, slot, Success, n);
    assert CallerOk(s, slot);
    OtherCallers(s, s', slot);
    forall x | x in s'.outstanding ensures SlotNoticed(s', x) {
      assert SlotNoticed(s, x);
    }
  }

  lemma AckSkipKeeps(s: State, n: nat)
    requires Inv(s, n) && s.cpu.Handling? && s.cpu.pc.Ack? && s.cpu.pc.acks != {} && s.cpu.pc.slot !in s.cpu.pc.acks
    ensures Inv(Apply(s, Handle), n)
  {
    var s' := Apply(s, Handle);
    forall x | x in s'.outstanding ensures SlotNoticed(s', x) {
      assert SlotNoticed(s, x);
    }
    forall x: nat | x < |s'.calls| ensures CallerOk(s', x) {
      assert CallerOk(s, x);
    }
  }

  lemma AckDoneKeeps(s: State, n: nat)
    requires Inv(s, n) && s.cpu.Handling? && s.cpu.pc.Ack? && s.cpu.pc.acks == {}
    ensures Inv(Apply(s, Handle), n)
  {
    var s' := Apply(s, Handle);
    forall x | x in s'.outstanding ensures SlotNoticed(s', x) {
      assert SlotNoticed(s, x);
    }
    forall x: nat | x < |s'.calls| ensures CallerOk(s', x) {
      assert CallerOk(s, x);
    }
  }

  lemma FailOneKeeps(s: State, n: nat)
    requires Inv(s, n) && s.cpu.Handling? && s.cpu.pc.FailAll? && s.cpu.pc.slot in s.outstanding
    ensures Inv(Apply(s, Handle), n)
  {
    var s', slot := Apply(s, Handle), s.cpu.pc.slot;
    AcknowledgeEffect(s, slot, DeviceError, n);
    assert CallerOk(s, slot);
    OtherCallers(s, s', slot);
    forall x | x in s'.outstanding ensures SlotNoticed(s', x) {
      assert SlotNoticed(s, x);
    }
  }

  lemma FailSkipKeeps(s: State, n: nat)
    requires Inv(s, n) && s.cpu.Handling? && s.cpu.pc.FailAll? && s.cpu.pc.slot !in s.outstanding
    ensures Inv(Apply(s, Handle), n)
  {
    var s' := Apply(s, Handle);
    assert s' == s.(cpu := s'.cpu);
    SameCallers(s, s'.cpu);
    forall x | x in s'.outstanding ensures SlotNoticed(s', x) {
      assert SlotNoticed(s, x);
    }
  }

  /** Moving the handler alone changes nothing for the callers. */
  lemma SameCallers(s: State, cpu: Cpu)
    requires Sized(s) && CallersOk(s) && s.cpu.Handling? && cpu.Handling? && Sized(s.(cpu := cpu))
    ensures CallersOk(s.(cpu := cpu))
  {
    var s' := s.(cpu := cpu);
    forall x: nat | x < |s'.calls| ensures CallerOk(s', x) {
      assert CallerOk(s, x);
    }
  }

  lemma EnterKeeps(s: State, n: nat)
    requires Inv(s, n) && s.cpu.Handling? && (s.cpu.pc.ReadIs? || s.cpu.pc.ReadTfd? || s.cpu.pc.ClearHba?)
    ensures Inv(Apply(s, Handle), n)
  {
    var s' := Apply(s, Handle);
    forall x | x in s'.outstanding ensures SlotNoticed(s', x) {
      assert SlotNoticed(s, x);
    }
    forall x: nat | x < |s'.calls| ensures CallerOk(s', x) {
      assert CallerOk(s, x);
    }
  }

  /** Clearing PxIS is harmless because PxSACT has not been read yet. */
  lemma ClearKeeps(s: State, n: nat)
    requires Inv(s, n) && s.cpu.Handling? && s.cpu.pc.ClearIs?
    ensures Inv(Apply(s, Handle), n)
  {
    var s' := Apply(s, Handle);
    forall x | x in s'.outstanding ensures SlotNoticed(s', x) {
      assert SlotNoticed(s, x);
    }
    forall x: nat | x < |s'.calls| ensures CallerOk(s', x) {
      assert CallerOk(s, x);
    }
  }

  lemma ReadKeeps(s: State, n: nat)
    requires Inv(s, n) && s.cpu.Handling? && s.cpu.pc.ReadSact?
    ensures Inv(Apply(s, Handle), n)
  {
    var s' := Apply(s, Handle);
    forall x | x in s'.outstanding ensures SlotNoticed(s', x) && (x in s.completed || x in s.sact) {
      assert SlotNoticed(s, x);
    }
    forall x: nat | x < |s'.calls| ensures CallerOk(s', x) {
      assert CallerOk(s, x);
    }
  }

  lemma StopKeeps(s: State, n: nat)
    requires Inv(s, n) && s.cpu.Handling? && (s.cpu.pc.Stop? || s.cpu.pc.AwaitStop? || s.cpu.pc.Restart?)
    ensures Inv(Apply(s, Handle), n)
  {
    var s' := Apply(s, Handle);
    forall x: nat | x < |s'.calls| ensures CallerOk(s', x) {
      assert CallerOk(s, x);
    }
  }
}
