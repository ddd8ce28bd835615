/** The command-slot protocol of the AHCI driver as a state machine: callers of read_or_write, the
    interrupt handler and the device interleave, one step for each access to a device register.
    There is one processor. A caller issues with interrupts masked, and the handler runs with
    interrupts masked, so only the device moves while either is at work. */
module AhciProtocol {

  /** What the polled variable `r` of a call holds. */
  datatype Status = TryAgain | Success | DeviceError

  datatype Pointer = Null | Frame(call: nat)

  /** Where a caller is inside the interrupt-masked block of read_or_write. */
  datatype IssuePc = Arm | WriteSact | WriteCi | SetMask | TakeSlot | Unmask

  /** Where the handler is. `err` is its local `is_error`. */
  datatype HandlePc =
    | ReadIs
    | ReadTfd
    | ClearIs(err: bool)
    | ClearHba(err: bool)
    | ReadSact(err: bool)
    | Ack(slot: nat, acks: set<nat>, err: bool)
    | FailAll(slot: nat)
    | Stop
    | AwaitStop
    | Restart

  datatype Cpu = Running | Issuing(slot: nat, at: IssuePc) | Handling(pc: HandlePc)

  datatype State = State(
    // device registers: PxSACT, PxCI, PxIS (any bit, and the fatal bits), the error bit of PxTFD, and
    // whether the command engine runs (the bit CR of PxCMD)
    sact: set<nat>, ci: set<nat>, pending: bool, fatal: bool, tfdError: bool, running: bool,
    // the device: commands it works on, and whether it has cleared PxSACT bits but not yet set PxIS
    active: set<nat>, raising: bool,
    // the driver
    outstanding: set<nat>, available: int, pointer: seq<Pointer>, cpu: Cpu,
    // the callers, one for each slot
    inCall: set<nat>, calls: seq<nat>, result: seq<Status>,
    // history: commands issued and acknowledged, slots whose current command the device finished,
    // whether the device ever signalled an error, whether a dead frame was ever written
    issued: seq<nat>, acked: seq<nat>, completed: set<nat>, everFailed: bool, dangling: bool)

  function Initial(slots: nat): State {
    State({}, {}, false, false, false, true, {}, false,
          {}, slots, seq(slots, i => Null), Running,
          {}, seq(slots, i => 0), seq(slots, i => TryAgain),
          seq(slots, i => 0), seq(slots, i => 0), {}, false, false)
  }

  datatype Step =
    | Call(slot: nat)            // a caller enters read_or_write and masks interrupts
    | Issue                      // its next statement
    | Return(slot: nat)          // the poll sees a status; the pointer is cleared
    | Interrupt                  // the handler is entered
    | Handle                     // its next register access or acknowledgement
    | Accept(slot: nat)          // the device fetches a command and clears its PxCI bit
    | Complete(done: set<nat>)   // the device clears the PxSACT bits of finished commands
    | Raise                      // ... and then sets PxIS
    | Fail(fatalBit: bool)       // the device signals an error
    | ClearTfd                   // the device clears the error bit of PxTFD
    | Halt                       // the command engine, told to stop, stops

  predicate Enabled(s: State, t: Step) {
    match t
    case Call(slot) => s.cpu == Running && slot < |s.calls| && slot !in s.inCall
    case Issue => s.cpu.Issuing?
    case Return(slot) =>
      s.cpu == Running && slot < |s.result| && slot in s.inCall && s.result[slot] != TryAgain
    case Interrupt => s.cpu == Running && s.pending
    case Handle => s.cpu.Handling?
    case Accept(slot) => slot in s.ci
    case Complete(done) => done != {} && done <= s.active
    case Raise => s.raising
    case Fail(_) => true
    case ClearTfd => true
    case Halt => s.cpu == Handling(AwaitStop) && s.running
  }

  /** acknowledge: the mask bit is flipped, not cleared. A status pointer that names a call that is
      over is recorded as dangling. */
  function Acknowledge(s: State, slot: nat, status: Status): State
    requires slot < |s.pointer| == |s.calls| == |s.result| == |s.acked|
  {
    var s1 := s.(outstanding := if slot in s.outstanding then s.outstanding - {slot}
                                else s.outstanding + {slot},
                 available := s.available + 1,
                 acked := s.acked[slot := s.acked[slot] + 1],
                 pointer := s.pointer[slot := Null]);
    if s.pointer[slot] == Null then s1
    else if slot in s.inCall && s.pointer[slot] == Frame(s.calls[slot]) then
      s1.(result := s.result[slot := status])
    else s1.(dangling := true)
  }

  predicate Within(xs: set<nat>, n: nat) {
    forall x :: x in xs ==> x < n
  }

  /** At most 16 slots, the width of the outstanding mask. */
  predicate Sized(s: State) {
    && |s.pointer| == |s.calls| == |s.result| == |s.issued| == |s.acked| <= 16
    && Within(s.outstanding, |s.calls|) && Within(s.inCall, |s.calls|)
    && (s.cpu.Issuing? ==> s.cpu.slot < |s.calls|)
    && (s.cpu.Handling? && s.cpu.pc.Ack? ==> Within(s.cpu.pc.acks, |s.calls|))
  }

  /** The caller's next statement with interrupts masked. */
  function IssueStep(s: State): State
    requires s.cpu.Issuing? && Sized(s)
  {
    var slot := s.cpu.slot;
    match s.cpu.at
    case Arm =>
      s.(result := s.result[slot := TryAgain], pointer := s.pointer[slot := Frame(s.calls[slot])],
         cpu := Issuing(slot, WriteSact))
    case WriteSact =>
      s.(sact := s.sact + {slot}, completed := s.completed - {slot}, cpu := Issuing(slot, WriteCi))
    case WriteCi =>
      s.(ci := s.ci + {slot}, cpu := Issuing(slot, SetMask))
    case SetMask =>
      s.(outstanding := s.outstanding + {slot}, issued := s.issued[slot := s.issued[slot] + 1],
         cpu := Issuing(slot, TakeSlot))
    case TakeSlot => s.(available := s.available - 1, cpu := Issuing(slot, Unmask))
    case Unmask => s.(cpu := Running)
  }

  /** Where the handler goes. Behind Stop, which clears the start bit, a poll lasts until the command
      engine has stopped. */
  function NextCpu(s: State): Cpu
    requires s.cpu.Handling?
  {
    match s.cpu.pc
    case ReadIs => Handling(if s.fatal then ClearIs(true) else ReadTfd)
    case ReadTfd => Handling(ClearIs(s.tfdError))
    case ClearIs(err) => Handling(ClearHba(err))
    case ClearHba(err) => Handling(ReadSact(err))
    case ReadSact(err) => Handling(Ack(0, s.outstanding - s.sact, err))
    case Ack(slot, acks, err) =>
      if acks != {} then Handling(Ack(slot + 1, acks - {slot}, err))
      else if err then Handling(FailAll(0))
      else Running
    case FailAll(slot) => Handling(if slot >= 32 then Stop else FailAll(slot + 1))
    case Stop => Handling(AwaitStop)
    case AwaitStop => if s.running then s.cpu else Handling(Restart)
    case Restart => Running
  }

  /** What the handler's next access does besides: it clears PxIS, acknowledges a slot, or sets the start
      bit again. */
  function HandleEffect(s: State): State
    requires s.cpu.Handling? && Sized(s)
  {
    match s.cpu.pc
    case ClearIs(_) => s.(pending := false, fatal := false)
    case Ack(slot, acks, _) => if slot in acks then Acknowledge(s, slot, Success) else s
    case FailAll(slot) => if slot in s.outstanding then Acknowledge(s, slot, DeviceError) else s
    case Restart => s.(running := true)
    case _ => s
  }

  function HandleStep(s: State): State
    requires s.cpu.Handling? && Sized(s)
  {
    HandleEffect(s).(cpu := NextCpu(s))
  }

  /** Stopping the command engine clears PxSACT and PxCI (sections 3.3.13 and 3.3.14 of Serial ATA
      AHCI 1.3.1). */
  function Apply(s: State, t: Step): State
    requires Sized(s) && Enabled(s, t)
  {
    match t
    case Call(slot) =>
      s.(inCall := s.inCall + {slot}, calls := s.calls[slot := s.calls[slot] + 1],
         cpu := Issuing(slot, Arm))
    case Issue => IssueStep(s)
    case Return(slot) => s.(pointer := s.pointer[slot := Null], inCall := s.inCall - {slot})
    case Interrupt => s.(cpu := Handling(ReadIs))
    case Handle => HandleStep(s)
    case Accept(slot) => s.(ci := s.ci - {slot}, active := s.active + {slot})
    case Complete(done) =>
      s.(sact := s.sact - done, active := s.active - done, completed := s.completed + done,
         raising := true)
    case Raise => s.(pending := true, raising := false)
    case Fail(fatalBit) =>
      s.(pending := true, fatal := s.fatal || fatalBit, tfdError := s.tfdError || !fatalBit,
         everFailed := true)
    case ClearTfd => s.(tfdError := false)
    case Halt => s.(running := false, sact := {}, ci := {}, active := {})
  }

  // ---------------------------------------------------------------- the invariant

  /** The slot a caller is issuing, from the given statement on. */
  predicate IssuingAt(s: State, slot: nat, at: IssuePc) {
    s.cpu == Issuing(slot, at)
  }

  /** The command is on its way but not yet in the mask. */
  predicate Launched(s: State, slot: nat) {
    IssuingAt(s, slot, WriteCi) || IssuingAt(s, slot, SetMask)
  }

  /** The caller is in the masked block before its command is in the mask. */
  predicate Preparing(s: State, slot: nat) {
    IssuingAt(s, slot, Arm) || IssuingAt(s, slot, WriteSact) || Launched(s, slot)
  }

  /** The error path has begun to fail every command and the engine has not stopped yet. */
  predicate Failing(s: State) {
    s.cpu.Handling? && (s.cpu.pc.FailAll? || s.cpu.pc.Stop? || (s.cpu.pc.AwaitStop? && s.running))
  }

  /** The running handler is going to look at, or is about to acknowledge, this slot. */
  predicate HandlerWillSee(s: State, slot: nat) {
    s.cpu.Handling? &&
    match s.cpu.pc
    case ReadIs => true
    case ReadTfd => true
    case ClearIs(_) => true
    case ClearHba(_) => true
    case ReadSact(_) => true
    case Ack(_, acks, err) => slot in acks || err
    case FailAll(next) => slot >= next
    case Stop => false
    case AwaitStop => false
    case Restart => false
  }

  /** A finished command has an interrupt pending or coming, or a handler that will still see it. */
  predicate Noticed(s: State, slot: nat) {
    s.pending || s.raising || HandlerWillSee(s, slot)
  }

  /** Device side: bits of PxSACT belong to commands in the mask or being issued. */
  predicate DeviceOk(s: State) {
    && s.ci <= s.sact && s.active <= s.sact && s.ci !! s.active
    && (!s.running ==> s.cpu == Handling(AwaitStop) || s.cpu == Handling(Restart))
    && (forall x :: x in s.sact ==> x in s.outstanding || Launched(s, x) || Failing(s))
    && (s.cpu.Issuing? && s.cpu.at == WriteCi ==>
          s.cpu.slot in s.sact && s.cpu.slot !in s.ci && s.cpu.slot !in s.active)
  }

  /** No completion is lost. */
  predicate SlotNoticed(s: State, x: nat) {
    x in s.sact || (x in s.completed && Noticed(s, x))
  }

  ghost predicate NoneLost(s: State) {
    forall x {:trigger SlotNoticed(s, x)} ::
      x in s.outstanding || IssuingAt(s, x, SetMask) ==> SlotNoticed(s, x)
  }

  /** What the handler still holds. */
  predicate HandlerOk(s: State) {
    s.cpu.Handling? ==>
      match s.cpu.pc
      case Ack(slot, acks, _) =>
        acks <= s.outstanding && acks <= s.completed && acks !! s.sact && slot <= |s.calls|
        && forall x :: x in acks ==> x >= slot
      case FailAll(slot) => slot <= 32 && forall x :: x in s.outstanding ==> x >= slot
      case Stop => s.outstanding == {}
      case AwaitStop => s.outstanding == {}
      case Restart => s.outstanding == {}
      case _ => true
  }

  /** The caller of a slot: outside a call, preparing, waiting with a pointer to its own frame, or
      served. */
  predicate CallerOk(s: State, x: nat)
    requires x < |s.calls| == |s.pointer| == |s.result| == |s.issued| == |s.acked|
  {
    && s.issued[x] == s.acked[x] + (if x in s.outstanding then 1 else 0)
    && (s.cpu.Issuing? && s.cpu.slot == x ==> x in s.inCall)
    && (x !in s.inCall ==> x !in s.outstanding && s.pointer[x] == Null)
    && (Preparing(s, x) ==>
          x !in s.outstanding
          && (!IssuingAt(s, x, Arm) ==> s.result[x] == TryAgain && s.pointer[x] == Frame(s.calls[x]))
          && (IssuingAt(s, x, Arm) ==> s.pointer[x] == Null))
    && (x in s.inCall && !Preparing(s, x) ==>
          && (x in s.outstanding <==> s.result[x] == TryAgain)
          && s.pointer[x] == (if x in s.outstanding then Frame(s.calls[x]) else Null)
          && (s.result[x] == Success ==> x in s.completed)
          && (s.result[x] == DeviceError ==> s.everFailed))
  }

  ghost predicate CallersOk(s: State)
    requires Sized(s)
  {
    forall x: nat {:trigger CallerOk(s, x)} :: x < |s.calls| ==> CallerOk(s, x)
  }

  /** Free slots and outstanding commands add up, but for the one statement between. */
  predicate CountOk(s: State, slots: nat) {
    |s.calls| == slots &&
    s.available + |s.outstanding| ==
      slots + (if s.cpu.Issuing? && s.cpu.at == TakeSlot then 1 else 0)
  }

  predicate ErrorsOk(s: State) {
    && (s.fatal || s.tfdError ==> s.everFailed)
    && (s.cpu.Handling? ==>
          match s.cpu.pc
          case ClearIs(err) => err ==> s.everFailed
          case ClearHba(err) => err ==> s.everFailed
          case ReadSact(err) => err ==> s.everFailed
          case Ack(_, _, err) => err ==> s.everFailed
          case FailAll(_) => s.everFailed
          case _ => true)
  }

  ghost predicate Registers(s: State, slots: nat) {
    DeviceOk(s) && NoneLost(s) && HandlerOk(s) && CountOk(s, slots) && ErrorsOk(s)
  }

  ghost predicate Inv(s: State, slots: nat) {
    Sized(s) && Registers(s, slots) && CallersOk(s) && !s.dangling
  }
}
