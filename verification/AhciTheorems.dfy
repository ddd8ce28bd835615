/** What every interleaving of callers, handler and device guarantees. */
module AhciTheorems {
  import opened AhciProtocol
  import opened AhciSteps

  lemma StepKeeps(s: State, t: Step, n: nat)
    requires Inv(s, n) && Enabled(s, t)
    ensures Inv(Apply(s, t), n)
  {
    match t {
      case Call(_) => CallKeeps(s, t, n);
      case Return(_) => CallKeeps(s, t, n);
      case Interrupt => CallKeeps(s, t, n);
      case Issue => IssueKeeps(s, n);
      case Handle =>
        match s.cpu.pc {
          case Ack(slot, acks, _) =>
            if slot in acks { AckOneKeeps(s, n); }
            else if acks == {} { AckDoneKeeps(s, n); }
            else { AckSkipKeeps(s, n); }
          case FailAll(slot) => if slot in s.outstanding { FailOneKeeps(s, n); } else { FailSkipKeeps(s, n); }
          case ClearIs(_) => ClearKeeps(s, n);
          case ReadSact(_) => ReadKeeps(s, n);
          case Stop => StopKeeps(s, n);
          case AwaitStop => StopKeeps(s, n);
          case Restart => StopKeeps(s, n);
          case _ => EnterKeeps(s, n);
        }
      case _ => DeviceStepKeeps(s, t, n);
    }
  }

  /** `ts` can happen from `s`, one step after the other. */
  ghost predicate Legal(s: State, ts: seq<Step>)
    decreases |ts|
  {
    ts == [] || (Sized(s) && Enabled(s, ts[0]) && Legal(Apply(s, ts[0]), ts[1..]))
  }

  ghost function Run(s: State, ts: seq<Step>): State
    requires Legal(s, ts)
    decreases |ts|
  {
    if ts == [] then s else Run(Apply(s, ts[0]), ts[1..])
  }

  lemma {:induction false} RunKeeps(s: State, ts: seq<Step>, n: nat)
    requires Inv(s, n) && Legal(s, ts)
    ensures Inv(Run(s, ts), n)
    decreases |ts|
  {
    if ts != [] {
      StepKeeps(s, ts[0], n);
      RunKeeps(Apply(s, ts[0]), ts[1..], n);
    }
  }

  /** Under every interleaving: a command in the mask whose PxSACT bit is gone was finished by the
      device and has an interrupt pending or on its way, or a handler that will still see it. */
  lemma NoCompletionLost(slots: nat, ts: seq<Step>, x: nat)
    requires slots <= 16 && Legal(Initial(slots), ts)
    requires var s := Run(Initial(slots), ts); x in s.outstanding && x !in s.sact
    ensures var s := Run(Initial(slots), ts);
            x in s.completed && (s.pending || s.raising || HandlerWillSee(s, x))
  {
    InitialInv(slots);
    RunKeeps(Initial(slots), ts, slots);
    assert SlotNoticed(Run(Initial(slots), ts), x);
  }

  /** Under every interleaving: each issued command is acknowledged at most once, and is in the mask
      until it is; a waiting caller leaves its poll exactly when its command is acknowledged, success is
      reported only for a finished command and failure only after a device error, the free slots and the
      commands in the mask add up, and a status pointer always names the call that is running. */
  lemma AcknowledgedOnce(slots: nat, ts: seq<Step>, x: nat)
    requires slots <= 16 && Legal(Initial(slots), ts) && x < slots
    ensures var s := Run(Initial(slots), ts);
            && |s.calls| == |s.pointer| == |s.result| == |s.issued| == |s.acked| == slots
            && s.issued[x] == s.acked[x] + (if x in s.outstanding then 1 else 0)
            && (s.pointer[x] != Null ==> x in s.inCall && s.pointer[x] == Frame(s.calls[x]))
            && !s.dangling
            && (x in s.inCall && !Preparing(s, x) ==>
                  && (s.result[x] == TryAgain <==> x in s.outstanding)
                  && (s.result[x] == Success ==> x in s.completed)
                  && (s.result[x] == DeviceError ==> s.everFailed))
            && (!s.cpu.Issuing? ==> s.available + |s.outstanding| == slots)
  {
    InitialInv(slots);
    RunKeeps(Initial(slots), ts, slots);
    assert CallerOk(Run(Initial(slots), ts), x);
  }

  /** When the device has finished everything and no interrupt is pending or being handled, every
      caller has its status and every slot is free again. */
  lemma QuietMeansServed(slots: nat, ts: seq<Step>)
    requires slots <= 16 && Legal(Initial(slots), ts)
    requires var s := Run(Initial(slots), ts);
             s.cpu == Running && !s.pending && !s.raising && s.sact == {}
    ensures var s := Run(Initial(slots), ts);
            && s.outstanding == {} && s.available == slots
            && forall x :: x in s.inCall ==> x < |s.result| && s.result[x] != TryAgain
  {
    InitialInv(slots);
    RunKeeps(Initial(slots), ts, slots);
    var s := Run(Initial(slots), ts);
    forall x ensures x !in s.outstanding {
      assert x in s.outstanding ==> SlotNoticed(s, x);
    }
    assert s.outstanding == {};
    forall x | x in s.inCall ensures x < |s.result| && s.result[x] != TryAgain {
      assert CallerOk(s, x);
    }
  }

  /** A bit of PxSACT belongs to a command that the device has been told of in PxCI and has not fetched, or
      works on, but for the statement between the two writes; a stopped engine has none, and the start bit
      is set again only when it has stopped. */
  ghost predicate EngineOk(s: State) {
    && (forall x :: x in s.sact && !IssuingAt(s, x, WriteCi) ==> x in s.ci || x in s.active)
    && (!s.running ==> s.sact == {} && s.ci == {} && s.active == {})
    && (s.cpu == Handling(Restart) ==> !s.running)
    && (s.cpu.Issuing? || s.cpu == Running ==> s.running)
  }

  lemma EngineStep(s: State, t: Step, n: nat)
    requires Inv(s, n) && EngineOk(s) && Enabled(s, t)
    ensures EngineOk(Apply(s, t))
  {
    if t == Issue {
      EngineIssue(s, n);
    } else if t == Handle {
      EngineHandle(s, n);
    }
  }

  lemma EngineIssue(s: State, n: nat)
    requires Inv(s, n) && EngineOk(s) && s.cpu.Issuing?
    ensures EngineOk(IssueStep(s))
  {
    match s.cpu.at
    case WriteSact =>
    case WriteCi =>
    case _ =>
  }

  lemma EngineHandle(s: State, n: nat)
    requires Inv(s, n) && EngineOk(s) && s.cpu.Handling?
    ensures EngineOk(HandleStep(s))
  {
    SameEngine(s, n);
  }

  lemma SameEngine(s: State, n: nat)
    requires Inv(s, n) && s.cpu.Handling?
    ensures var e := HandleEffect(s); e.sact == s.sact && e.ci == s.ci && e.active == s.active
    ensures HandleEffect(s).running <==> s.running || s.cpu == Handling(Restart)
  {
    if s.cpu.pc.Ack? && s.cpu.pc.slot in s.cpu.pc.acks {
      AcknowledgeEffect(s, s.cpu.pc.slot, Success, n);
    } else if s.cpu.pc.FailAll? && s.cpu.pc.slot in s.outstanding {
      AcknowledgeEffect(s, s.cpu.pc.slot, DeviceError, n);
    }
  }

  lemma {:induction false} EngineRun(s: State, ts: seq<Step>, n: nat)
    requires Inv(s, n) && EngineOk(s) && Legal(s, ts)
    ensures EngineOk(Run(s, ts))
    decreases |ts|
  {
    if ts != [] {
      StepKeeps(s, ts[0], n);
      EngineStep(s, ts[0], n);
      EngineRun(Apply(s, ts[0]), ts[1..], n);
    }
  }

  /** Under every interleaving: the device knows of each command in the mask that is not finished; and the
      engine runs outside the handler, which sets the start bit again only when the engine has stopped and
      no command is left in it or in the mask. */
  lemma DeviceHasCommand(slots: nat, ts: seq<Step>, x: nat)
    requires slots <= 16 && Legal(Initial(slots), ts)
    ensures var s := Run(Initial(slots), ts);
            && (x in s.outstanding && x !in s.completed ==> x in s.sact && (x in s.ci || x in s.active))
            && (!s.cpu.Handling? ==> s.running)
            && (s.cpu == Handling(Restart) ==>
                  !s.running && s.sact == {} && s.ci == {} && s.active == {} && s.outstanding == {})
  {
    InitialInv(slots);
    RunKeeps(Initial(slots), ts, slots);
    EngineRun(Initial(slots), ts, slots);
    var s := Run(Initial(slots), ts);
    if x in s.outstanding {
      assert SlotNoticed(s, x);
      if s.cpu.Issuing? && s.cpu.slot == x { assert CallerOk(s, x); }
    }
  }

  // ---------------------------------------------------------------- the handler

  /** What the handler still has to do. */
  function Rank(pc: HandlePc): int {
    match pc
    case ReadIs => 61
    case ReadTfd => 60
    case ClearIs(_) => 59
    case ClearHba(_) => 58
    case ReadSact(_) => 57
    case Ack(slot, _, _) => 54 - slot
    case FailAll(slot) => 36 - slot
    case Stop => 3
    case AwaitStop => 2
    case Restart => 1
  }

  /** The handler polls the command engine, which still runs. */
  predicate Polling(s: State) {
    s.cpu == Handling(AwaitStop) && s.running
  }

  /** Every access brings the handler closer to its end, whatever the device does in between, except
      while it polls; the device can end the poll at any time, and then it stays ended. */
  lemma HandlerEnds(s: State, n: nat)
    requires Inv(s, n) && s.cpu.Handling?
    ensures 0 < Rank(s.cpu.pc) <= 61
    ensures var c := Apply(s, Handle).cpu;
            if Polling(s) then c == s.cpu else c == Running || (c.Handling? && Rank(c.pc) < Rank(s.cpu.pc))
    ensures Polling(s) ==> Enabled(s, Halt) && !Polling(Apply(s, Halt))
    ensures forall t :: Enabled(s, t) && t != Handle ==>
              Apply(s, t).cpu == s.cpu && (Polling(Apply(s, t)) ==> Polling(s))
  {
    RankFalls(s);
    forall t | Enabled(s, t) && t != Handle
      ensures Apply(s, t).cpu == s.cpu && (Polling(Apply(s, t)) ==> Polling(s))
    {
      OnlyHandlerMoves(s, t);
    }
  }

  lemma RankFalls(s: State)
    requires HandlerOk(s) && s.cpu.Handling? && |s.calls| <= 16
    ensures 0 < Rank(s.cpu.pc) <= 61
    ensures if Polling(s) then NextCpu(s) == s.cpu
            else NextCpu(s) == Running || (NextCpu(s).Handling? && Rank(NextCpu(s).pc) < Rank(s.cpu.pc))
  {
    if s.cpu.pc.Ack? && s.cpu.pc.acks != {} {
      var x :| x in s.cpu.pc.acks;
      assert s.cpu.pc.slot <= x;
    }
  }

  lemma OnlyHandlerMoves(s: State, t: Step)
    requires Sized(s) && s.cpu.Handling? && Enabled(s, t) && t != Handle
    ensures Apply(s, t).cpu == s.cpu && (Apply(s, t).running ==> s.running)
  {
    if t.Accept? || t.Complete? || t.Raise? { CommandStepKeepsCpu(s, t); }
  }

  lemma CommandStepKeepsCpu(s: State, t: Step)
    requires Sized(s) && Enabled(s, t) && (t.Accept? || t.Complete? || t.Raise?)
    ensures Apply(s, t).cpu == s.cpu && (Apply(s, t).running <==> s.running)
  {
  }

  /** Once a handler has been entered with the PxSACT bit of `x` already gone, `x` is acknowledged
      before that handler returns, whatever the device does meanwhile. */
  lemma {:induction false} HandlerServes(s: State, ts: seq<Step>, x: nat, n: nat)
    requires Inv(s, n) && s.cpu.Handling? && Legal(s, ts)
    requires x !in s.sact && (x !in s.outstanding || HandlerWillSee(s, x))
    requires forall t :: t in ts ==> !t.Call?
    requires !Run(s, ts).cpu.Handling?
    ensures x !in Run(s, ts).outstanding
    decreases |ts|
  {
    if ts != [] {
      var t := ts[0];
      assert t in ts;
      var s' := Apply(s, t);
      StepKeeps(s, t, n);
      HandlerKeepsSeeing(s, t, x, n);
      if s'.cpu.Handling? {
        HandlerServes(s', ts[1..], x, n);
      } else {
        AfterHandler(s', ts[1..], x, n);
      }
    }
  }

  lemma HandlerKeepsSeeing(s: State, t: Step, x: nat, n: nat)
    requires Inv(s, n) && s.cpu.Handling? && Enabled(s, t)
    requires x !in s.sact && (x !in s.outstanding || HandlerWillSee(s, x))
    ensures x !in Apply(s, t).sact && !Apply(s, t).cpu.Issuing?
    ensures x !in Apply(s, t).outstanding || HandlerWillSee(Apply(s, t), x)
  {
    if t == Handle { HandleKeepsSeeing(s, x, n); }
  }

  lemma HandleKeepsSeeing(s: State, x: nat, n: nat)
    requires Inv(s, n) && s.cpu.Handling?
    requires x !in s.sact && (x !in s.outstanding || HandlerWillSee(s, x))
    ensures x !in Apply(s, Handle).sact
    ensures x !in Apply(s, Handle).outstanding || HandlerWillSee(Apply(s, Handle), x)
  {
    if s.cpu.pc.Ack? {
      AckKeepsSeeing(s, x, n);
    } else if s.cpu.pc.FailAll? {
      FailKeepsSeeing(s, x, n);
    }
  }

  lemma AckKeepsSeeing(s: State, x: nat, n: nat)
    requires Inv(s, n) && s.cpu.Handling? && s.cpu.pc.Ack?
    requires x !in s.sact && (x !in s.outstanding || HandlerWillSee(s, x))
    ensures x !in Apply(s, Handle).sact
    ensures x !in Apply(s, Handle).outstanding || HandlerWillSee(Apply(s, Handle), x)
  {
    if s.cpu.pc.slot in s.cpu.pc.acks { AcknowledgeEffect(s, s.cpu.pc.slot, Success, n); }
  }

  lemma FailKeepsSeeing(s: State, x: nat, n: nat)
    requires Inv(s, n) && s.cpu.Handling? && s.cpu.pc.FailAll?
    requires x !in s.sact && (x !in s.outstanding || HandlerWillSee(s, x))
    ensures x !in Apply(s, Handle).sact
    ensures x !in Apply(s, Handle).outstanding || HandlerWillSee(Apply(s, Handle), x)
  {
    if s.cpu.pc.slot in s.outstanding { AcknowledgeEffect(s, s.cpu.pc.slot, DeviceError, n); }
  }

  lemma StaysOut(s: State, t: Step, x: nat, n: nat)
    requires Inv(s, n) && !s.cpu.Issuing? && Enabled(s, t) && !t.Call? && x !in s.outstanding
    ensures x !in Apply(s, t).outstanding && !Apply(s, t).cpu.Issuing?
  {
    if t == Handle { AckStaysOut(s, x, n); }
  }

  lemma AckStaysOut(s: State, x: nat, n: nat)
    requires Inv(s, n) && s.cpu.Handling? && x !in s.outstanding
    ensures x !in HandleEffect(s).outstanding
  {
    if s.cpu.pc.Ack? && s.cpu.pc.slot in s.cpu.pc.acks {
      AcknowledgeEffect(s, s.cpu.pc.slot, Success, n);
    } else if s.cpu.pc.FailAll? && s.cpu.pc.slot in s.outstanding {
      AcknowledgeEffect(s, s.cpu.pc.slot, DeviceError, n);
    }
  }

  /** With no call entered, a slot that left the mask stays out of it. */
  lemma {:induction false} AfterHandler(s: State, ts: seq<Step>, x: nat, n: nat)
    requires Inv(s, n) && !s.cpu.Issuing? && Legal(s, ts) && x !in s.outstanding
    requires forall t :: t in ts ==> !t.Call?
    ensures x !in Run(s, ts).outstanding
    decreases |ts|
  {
    if ts != [] {
      var t := ts[0];
      assert t in ts;
      StepKeeps(s, t, n);
      StaysOut(s, t, x, n);
      AfterHandler(Apply(s, t), ts[1..], x, n);
    }
  }

  /** The order of the accesses matters: a handler that read PxSACT before clearing PxIS would lose
      any command the device finishes in between. */
  lemma ReadingFirstLoses(s: State, n: nat, x: nat)
    requires Inv(s, n) && s.cpu == Handling(ClearIs(false))
    requires x in s.outstanding && x in s.sact && x in s.active
    ensures var acks := s.outstanding - s.sact;
            var done := Apply(s, Complete({x}));
            var raised := Apply(done, Raise);
            var cleared := raised.(pending := false, fatal := false, cpu := Handling(Ack(0, acks, false)));
            && Enabled(s, Complete({x})) && Enabled(done, Raise)
            && x in cleared.outstanding && !SlotNoticed(cleared, x)
  {
    DeviceStepKeeps(s, Complete({x}), n);
  }
}
