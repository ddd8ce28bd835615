/** The driver's interrupt handler as one call and as interleaved steps agree: once PxSACT has been read,
    the fate of every slot is settled, whatever the device does until the handler returns. */
module AhciRefinement {
  import opened Bits
  import opened AhciProtocol
  import opened AhciSteps
  import opened AhciTheorems
  import opened AhciDriver

  /** What the running handler is still going to do to slot `x`. */
  function Destiny(s: State, x: nat): Fate {
    if !s.cpu.Handling? then Untouched else
      match s.cpu.pc
      case Ack(_, acks, err) =>
        if x in acks then Given(Success)
        else if err && x in s.outstanding then Given(DeviceError)
        else Untouched
      case FailAll(_) => if x in s.outstanding then Given(DeviceError) else Untouched
      case _ => Untouched
  }

  /** The handler, if it runs, has read PxSACT. */
  predicate Decided(s: State) {
    s.cpu.Handling? ==>
      s.cpu.pc.Ack? || s.cpu.pc.FailAll? || s.cpu.pc.Stop? || s.cpu.pc.AwaitStop? || s.cpu.pc.Restart?
  }

  /** What the driver knows of a slot. */
  datatype SlotView = SlotView(outstanding: bool, result: Status, pointer: Pointer)

  function View(s: State, x: nat): SlotView
    requires x < |s.result| == |s.pointer|
  {
    SlotView(x in s.outstanding, s.result[x], s.pointer[x])
  }

  function Settle(v: SlotView, fate: Fate): SlotView {
    match fate
    case Given(status) => SlotView(false, status, Null)
    case Untouched => v
  }

  /** The slot as the handler will leave it. */
  function Expected(s: State, x: nat): SlotView
    requires x < |s.result| == |s.pointer|
  {
    Settle(View(s, x), Destiny(s, x))
  }

  /** An acknowledgement carries out the fate of its slot and leaves the others. */
  lemma AcknowledgeSettles(s: State, slot: nat, status: Status, x: nat, n: nat)
    requires Inv(s, n) && s.cpu.Handling? && slot in s.outstanding && x < n
    ensures slot < |s.pointer| == |s.calls| == |s.result| == |s.acked| == n
    ensures var s' := Acknowledge(s, slot, status);
            && |s'.result| == |s'.pointer| == n && s'.outstanding == s.outstanding - {slot}
            && View(s', x) == if x == slot then Settle(View(s, x), Given(status)) else View(s, x)
  {
    AcknowledgeEffect(s, slot, status, n);
  }

  lemma AckKeepsExpected(s: State, x: nat, n: nat)
    requires Inv(s, n) && s.cpu.Handling? && s.cpu.pc.Ack? && x < n
    ensures Decided(Apply(s, Handle))
    ensures |Apply(s, Handle).result| == |Apply(s, Handle).pointer| == n
    ensures Expected(Apply(s, Handle), x) == Expected(s, x)
  {
    var slot, acks, err := s.cpu.pc.slot, s.cpu.pc.acks, s.cpu.pc.err;
    if slot in acks {
      AcknowledgeSettles(s, slot, Success, x, n);
      var s' := Acknowledge(s, slot, Success);
      assert Apply(s, Handle) == s'.(cpu := Handling(Ack(slot + 1, acks - {slot}, err)));
    }
  }

  lemma FailKeepsExpected(s: State, x: nat, n: nat)
    requires Inv(s, n) && s.cpu.Handling? && s.cpu.pc.FailAll? && x < n
    ensures Decided(Apply(s, Handle))
    ensures |Apply(s, Handle).result| == |Apply(s, Handle).pointer| == n
    ensures Expected(Apply(s, Handle), x) == Expected(s, x)
  {
    var slot := s.cpu.pc.slot;
    if slot in s.outstanding { AcknowledgeSettles(s, slot, DeviceError, x, n); }
  }

  /** No step of the handler or the device changes how the handler will leave a slot. */
  lemma StepKeepsExpected(s: State, t: Step, x: nat, n: nat)
    requires Inv(s, n) && s.cpu.Handling? && Decided(s) && Enabled(s, t) && x < n
    ensures Decided(Apply(s, t))
    ensures |Apply(s, t).result| == |Apply(s, t).pointer| == n
    ensures Expected(Apply(s, t), x) == Expected(s, x)
  {
    if t == Handle {
      if s.cpu.pc.Ack? {
        AckKeepsExpected(s, x, n);
      } else if s.cpu.pc.FailAll? {
        FailKeepsExpected(s, x, n);
      }
    }
  }

  /** `ts` happens from `s` and ends with the step in which the handler returns. */
  ghost predicate UntilDone(s: State, ts: seq<Step>)
    decreases |ts|
  {
    if !s.cpu.Handling? then ts == []
    else ts != [] && Sized(s) && Enabled(s, ts[0]) && UntilDone(Apply(s, ts[0]), ts[1..])
  }

  lemma {:induction false} RunKeepsExpected(s: State, ts: seq<Step>, x: nat, n: nat)
    requires Inv(s, n) && Decided(s) && UntilDone(s, ts) && x < n
    ensures Legal(s, ts) && |Run(s, ts).result| == |Run(s, ts).pointer| == n
    ensures View(Run(s, ts), x) == Expected(s, x)
    decreases |ts|
  {
    if s.cpu.Handling? {
      StepKeeps(s, ts[0], n);
      StepKeepsExpected(s, ts[0], x, n);
      RunKeepsExpected(Apply(s, ts[0]), ts[1..], x, n);
    }
  }

  /** From the read of PxSACT to the return, with any steps of the device in between, the handler does
      to slot `x` what HandleInterrupt does with that mask, that register and that error. */
  lemma HandlerMatchesDriver(s: State, ts: seq<Step>, n: nat, x: nat, mask: nat, active: nat, err: bool)
    requires Inv(s, n) && s.cpu == Handling(ReadSact(err)) && x < n
    requires Bit(mask, x) <==> x in s.outstanding
    requires Bit(active, x) <==> x in s.sact
    requires UntilDone(Apply(s, Handle), ts)
    ensures |s.result| == |s.pointer| == n && Legal(Apply(s, Handle), ts)
    ensures var e := Run(Apply(s, Handle), ts);
            && |e.result| == |e.pointer| == n
            && (x in e.outstanding <==> Bit(mask, x) && Bit(active, x) && !err)
            && e.pointer[x] == (if Bit(mask, x) && (err || !Bit(active, x)) then Null else s.pointer[x])
            && e.result[x] == (if Bit(mask, x) && !Bit(active, x) then Success
                               else if Bit(mask, x) && err then DeviceError
                               else s.result[x])
  {
    StepKeeps(s, Handle, n);
    RunKeepsExpected(Apply(s, Handle), ts, x, n);
  }

  // ---------------------------------------------------------------- issuing

  /** The slot as the caller will leave it when it unmasks interrupts. */
  function Issued(s: State, x: nat): SlotView
    requires x < |s.result| == |s.pointer| == |s.calls|
  {
    if !s.cpu.Issuing? || s.cpu.slot != x then View(s, x) else
      SlotView(if s.cpu.at.TakeSlot? || s.cpu.at.Unmask? then x in s.outstanding else true,
               if s.cpu.at.Arm? then TryAgain else s.result[x],
               if s.cpu.at.Arm? then Frame(s.calls[x]) else s.pointer[x])
  }

  /** The free slots there will be then. */
  function Remaining(s: State): int {
    if s.cpu.Issuing? && !s.cpu.at.Unmask? then s.available - 1 else s.available
  }

  lemma EarlyIssueKeeps(s: State, x: nat)
    requires Sized(s) && s.cpu.Issuing? && x < |s.calls|
    requires s.cpu.at.Arm? || s.cpu.at.WriteSact? || s.cpu.at.WriteCi?
    ensures |IssueStep(s).result| == |IssueStep(s).pointer| == |IssueStep(s).calls| == |s.calls|
    ensures Issued(IssueStep(s), x) == Issued(s, x) && Remaining(IssueStep(s)) == Remaining(s)
  {
  }

  lemma LateIssueKeeps(s: State, x: nat)
    requires Sized(s) && s.cpu.Issuing? && x < |s.calls|
    requires s.cpu.at.SetMask? || s.cpu.at.TakeSlot? || s.cpu.at.Unmask?
    ensures |IssueStep(s).result| == |IssueStep(s).pointer| == |IssueStep(s).calls| == |s.calls|
    ensures Issued(IssueStep(s), x) == Issued(s, x) && Remaining(IssueStep(s)) == Remaining(s)
  {
  }

  /** No statement of the caller and no step of the device changes what the caller will leave. */
  lemma StepKeepsIssued(s: State, t: Step, x: nat)
    requires Sized(s) && s.cpu.Issuing? && Enabled(s, t) && x < |s.calls|
    ensures |Apply(s, t).result| == |Apply(s, t).pointer| == |Apply(s, t).calls| == |s.calls|
    ensures Issued(Apply(s, t), x) == Issued(s, x) && Remaining(Apply(s, t)) == Remaining(s)
  {
    if t == Issue {
      if s.cpu.at.Arm? || s.cpu.at.WriteSact? || s.cpu.at.WriteCi? {
        EarlyIssueKeeps(s, x);
      } else {
        LateIssueKeeps(s, x);
      }
    }
  }

  /** `ts` happens from `s` and ends with the statement that unmasks interrupts. */
  ghost predicate UntilUnmasked(s: State, ts: seq<Step>)
    decreases |ts|
  {
    if !s.cpu.Issuing? then ts == []
    else ts != [] && Sized(s) && Enabled(s, ts[0]) && UntilUnmasked(Apply(s, ts[0]), ts[1..])
  }

  lemma {:induction false} RunKeepsIssued(s: State, ts: seq<Step>, x: nat, n: nat)
    requires Inv(s, n) && UntilUnmasked(s, ts) && x < n
    ensures Legal(s, ts) && |Run(s, ts).result| == |Run(s, ts).pointer| == n
    ensures View(Run(s, ts), x) == Issued(s, x) && Run(s, ts).available == Remaining(s)
    decreases |ts|
  {
    if s.cpu.Issuing? {
      StepKeeps(s, ts[0], n);
      StepKeepsIssued(s, ts[0], x);
      RunKeepsIssued(Apply(s, ts[0]), ts[1..], x, n);
    }
  }

  /** From the first statement of the masked block to the last, with any steps of the device in between,
      the caller does to every slot and to the count what Begin does. */
  lemma IssueMatchesDriver(s: State, ts: seq<Step>, n: nat, slot: nat, x: nat, mask: nat)
    requires Inv(s, n) && s.cpu == Issuing(slot, Arm) && x < n
    requires mask < Pow2(16) && (Bit(mask, x) <==> x in s.outstanding)
    requires UntilUnmasked(s, ts)
    ensures |s.result| == |s.pointer| == |s.calls| == n && Legal(s, ts)
    ensures var e := Run(s, ts);
            && |e.result| == |e.pointer| == n && e.available == s.available - 1
            && (x in e.outstanding <==> x == slot || Bit(mask, x))
            && e.result[x] == (if x == slot then TryAgain else s.result[x])
            && e.pointer[x] == (if x == slot then Frame(s.calls[x]) else s.pointer[x])
  {
    RunKeepsIssued(s, ts, x, n);
  }
}
