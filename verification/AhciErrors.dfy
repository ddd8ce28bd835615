/** What becomes of a fatal error the device signals. A handler that finds the fatal bit set fails
    every command left in the mask; an error that arrives behind the status reads of a running
    handler and before it clears PxIS is erased with nobody having seen it. */
module AhciErrors {
  import opened AhciProtocol
  import opened AhciSteps
  import opened AhciTheorems

  /** The running handler has seen an error, or will when it reads PxIS next. */
  predicate WillFail(s: State) {
    s.cpu.Handling? &&
    match s.cpu.pc
    case ReadIs => s.fatal
    case ReadTfd => false
    case ClearIs(err) => err
    case ClearHba(err) => err
    case ReadSact(err) => err
    case Ack(_, _, err) => err
    case FailAll(_) => true
    case Stop => true
    case AwaitStop => true
    case Restart => true
  }

  /** The handler has read PxIS without seeing the fatal bit and has not cleared it yet. */
  predicate Window(s: State) {
    s.cpu == Handling(ReadTfd) || s.cpu == Handling(ClearIs(false))
  }

  /** The fatal bit is set with an interrupt pending that will find it, or a handler is on it. */
  predicate Attended(s: State) {
    (s.fatal && s.pending && !Window(s)) || WillFail(s)
  }

  /** A handler returns with nothing left in the mask. */
  predicate Emptied(s: State, s': State) {
    s.cpu.Handling? && s'.cpu == Running && s'.outstanding == {}
  }

  /** What each of the two reads decides. */
  lemma ReadsDecide(s: State, n: nat)
    requires Inv(s, n)
    ensures s.cpu == Handling(ReadIs) ==> (WillFail(Apply(s, Handle)) <==> s.fatal)
    ensures s.cpu == Handling(ReadTfd) ==> (WillFail(Apply(s, Handle)) <==> s.tfdError)
  {
  }

  /** A handler that has seen an error goes on to fail everything, whatever the device does. */
  lemma FailingKept(s: State, t: Step, n: nat)
    requires Inv(s, n) && Enabled(s, t) && WillFail(s)
    ensures WillFail(Apply(s, t)) || Emptied(s, Apply(s, t))
  {
    if t == Handle {
      FailingHandleKept(s, n);
    } else {
      OnlyHandlerMoves(s, t);
    }
  }

  lemma FailingHandleKept(s: State, n: nat)
    requires Inv(s, n) && WillFail(s)
    ensures WillFail(Apply(s, Handle)) || Emptied(s, Apply(s, Handle))
  {
  }

  /** A handler entered with the fatal bit set returns with an empty mask, and then every caller that
      is still polling has a status. */
  lemma {:induction false} FatalHandlerFailsAll(s: State, ts: seq<Step>, n: nat)
    requires Inv(s, n) && WillFail(s) && Legal(s, ts)
    requires forall t :: t in ts ==> !t.Call?
    requires !Run(s, ts).cpu.Handling?
    ensures Run(s, ts).outstanding == {}
    ensures forall x :: x in Run(s, ts).inCall ==> x < |Run(s, ts).result| && Run(s, ts).result[x] != TryAgain
    decreases |ts|
  {
    var s' := Apply(s, ts[0]);
    assert ts[0] in ts;
    StepKeeps(s, ts[0], n);
    FailingKept(s, ts[0], n);
    if WillFail(s') {
      FatalHandlerFailsAll(s', ts[1..], n);
    } else {
      StaysEmpty(s', ts[1..], n);
    }
  }

  lemma StaysEmpty(s: State, ts: seq<Step>, n: nat)
    requires Inv(s, n) && s.cpu == Running && s.outstanding == {} && Legal(s, ts)
    requires forall t :: t in ts ==> !t.Call?
    ensures Run(s, ts).outstanding == {}
    ensures forall x :: x in Run(s, ts).inCall ==> x < |Run(s, ts).result| && Run(s, ts).result[x] != TryAgain
  {
    forall x ensures x !in Run(s, ts).outstanding {
      AfterHandler(s, ts, x, n);
    }
    NoneIssuing(s, ts, n);
    RunKeeps(s, ts, n);
    AllServed(Run(s, ts), n);
  }

  lemma {:induction false} NoneIssuing(s: State, ts: seq<Step>, n: nat)
    requires Inv(s, n) && !s.cpu.Issuing? && Legal(s, ts)
    requires forall t :: t in ts ==> !t.Call?
    ensures !Run(s, ts).cpu.Issuing?
    decreases |ts|
  {
    if ts != [] {
      assert ts[0] in ts;
      StepKeeps(s, ts[0], n);
      NoneIssuing(Apply(s, ts[0]), ts[1..], n);
    }
  }

  lemma AllServed(s: State, n: nat)
    requires Inv(s, n) && !s.cpu.Issuing? && s.outstanding == {}
    ensures forall x :: x in s.inCall ==> x < |s.result| && s.result[x] != TryAgain
  {
    forall x | x in s.inCall ensures x < |s.result| && s.result[x] != TryAgain {
      assert CallerOk(s, x);
    }
  }

  // ---------------------------------------------------------------- who sees a signal

  /** A fatal error finds attention exactly when it does not fall into the window. */
  lemma SignalAttended(s: State)
    requires Sized(s)
    ensures Attended(Apply(s, Fail(true))) <==> !Window(s)
  {
  }

  /** Attention lasts until a handler has emptied the mask. */
  lemma AttentionKept(s: State, t: Step, n: nat)
    requires Inv(s, n) && Enabled(s, t) && Attended(s)
    ensures Attended(Apply(s, t)) || Emptied(s, Apply(s, t))
  {
    if WillFail(s) {
      FailingKept(s, t, n);
    } else if t == Handle {
      AwaitedHandle(s, n);
    } else {
      AwaitedStep(s, t);
    }
  }

  lemma AwaitedHandle(s: State, n: nat)
    requires Inv(s, n) && s.cpu.Handling? && s.fatal && s.pending && !Window(s) && !WillFail(s)
    ensures Attended(Apply(s, Handle))
  {
  }

  lemma AwaitedIssue(s: State)
    requires Sized(s) && s.cpu.Issuing? && s.fatal && s.pending
    ensures Attended(IssueStep(s))
  {
    match s.cpu.at
    case Arm =>
    case _ =>
  }

  lemma AwaitedStep(s: State, t: Step)
    requires Sized(s) && Enabled(s, t) && t != Handle && s.fatal && s.pending && !Window(s)
    ensures Attended(Apply(s, t))
  {
    if t == Issue {
      AwaitedIssue(s);
    } else if s.cpu.Handling? {
      OnlyHandlerMoves(s, t);
    }
  }

  /** Somewhere in the run a handler returns with nothing left in the mask. */
  ghost predicate EmptiedIn(s: State, ts: seq<Step>)
    requires Legal(s, ts)
    decreases |ts|
  {
    ts != [] && (Emptied(s, Apply(s, ts[0])) || EmptiedIn(Apply(s, ts[0]), ts[1..]))
  }

  lemma {:induction false} AttendedRun(s: State, ts: seq<Step>, n: nat)
    requires Inv(s, n) && Attended(s) && Legal(s, ts)
    ensures Attended(Run(s, ts)) || EmptiedIn(s, ts)
    decreases |ts|
  {
    if ts != [] {
      StepKeeps(s, ts[0], n);
      AttentionKept(s, ts[0], n);
      if Attended(Apply(s, ts[0])) { AttendedRun(Apply(s, ts[0]), ts[1..], n); }
    }
  }

  lemma {:induction false} EmptiedStays(s: State, ts: seq<Step>, n: nat)
    requires Inv(s, n) && Legal(s, ts) && EmptiedIn(s, ts)
    requires forall t :: t in ts ==> !t.Call?
    ensures Run(s, ts).outstanding == {}
    decreases |ts|
  {
    var s' := Apply(s, ts[0]);
    StepKeeps(s, ts[0], n);
    if Emptied(s, s') {
      StaysEmpty(s', ts[1..], n);
    } else {
      EmptiedStays(s', ts[1..], n);
    }
  }

  /** Under every interleaving before and after: a fatal error that does not fall into the window keeps
      the attention of a pending interrupt or of a handler until some handler has returned with an empty
      mask. When the processor runs with no interrupt pending, and no call was entered since, every
      command is off the mask and every caller has a status. */
  lemma ErrorServed(slots: nat, ts: seq<Step>, us: seq<Step>)
    requires slots <= 16 && Legal(Initial(slots), ts) && Sized(Run(Initial(slots), ts))
    requires !Window(Run(Initial(slots), ts))
    requires Legal(Apply(Run(Initial(slots), ts), Fail(true)), us)
    ensures var s := Apply(Run(Initial(slots), ts), Fail(true));
            Attended(Run(s, us)) || EmptiedIn(s, us)
    ensures var s := Apply(Run(Initial(slots), ts), Fail(true));
            var s' := Run(s, us);
            (forall t :: t in us ==> !t.Call?) && s'.cpu == Running && !s'.pending ==>
              && s'.outstanding == {}
              && forall x :: x in s'.inCall ==> x < |s'.result| && s'.result[x] != TryAgain
  {
    InitialInv(slots);
    RunKeeps(Initial(slots), ts, slots);
    var s0 := Run(Initial(slots), ts);
    var s := Apply(s0, Fail(true));
    StepKeeps(s0, Fail(true), slots);
    SignalAttended(s0);
    AttendedRun(s, us, slots);
    if (forall t :: t in us ==> !t.Call?) && Run(s, us).cpu == Running && !Run(s, us).pending {
      EmptiedStays(s, us, slots);
      RunKeeps(s, us, slots);
      AllServed(Run(s, us), slots);
    }
  }

  /** In the window the signal leaves no trace: the handler goes on, and clears PxIS, as if the device
      had never signalled it. The error bit of PxTFD would stay, but without an interrupt. */
  lemma ErrorErased(s: State)
    requires Sized(s) && Window(s)
    ensures s.cpu == Handling(ClearIs(false)) ==>
              && Apply(Apply(s, Fail(true)), Handle) == Apply(s, Handle).(everFailed := true)
              && Apply(Apply(s, Fail(false)), Handle) == Apply(s, Handle).(tfdError := true, everFailed := true)
              && !Apply(s, Handle).pending && !Apply(s, Handle).fatal
    ensures s.cpu == Handling(ReadTfd) ==>
              && Apply(Apply(Apply(s, Fail(true)), Handle), Handle) ==
                 Apply(Apply(s, Handle), Handle).(everFailed := true)
              && !Apply(Apply(s, Handle), Handle).pending && !Apply(Apply(s, Handle), Handle).fatal
  {
  }

  // ---------------------------------------------------------------- an erased error, from the start

  lemma Prefixed(s: State, t: Step, ts: seq<Step>)
    requires Sized(s) && Enabled(s, t) && Legal(Apply(s, t), ts)
    ensures Legal(s, [t] + ts) && Run(s, [t] + ts) == Run(Apply(s, t), ts)
  {
    assert ([t] + ts)[1..] == ts;
  }

  lemma {:induction false} Joined(s: State, ts: seq<Step>, us: seq<Step>)
    requires Legal(s, ts) && Legal(Run(s, ts), us)
    ensures Legal(s, ts + us) && Run(s, ts + us) == Run(Run(s, ts), us)
    decreases |ts|
  {
    if ts == [] {
      assert ts + us == us;
    } else {
      Joined(Apply(s, ts[0]), ts[1..], us);
      assert (ts + us)[1..] == ts[1..] + us;
    }
  }

  /** `count` times the same step. */
  function Times(t: Step, count: nat): seq<Step> {
    if count == 0 then [] else [t] + Times(t, count - 1)
  }

  /** One slot, its command with the device and nothing pending. */
  function Waiting(cpu: Cpu, everFailed: bool): State {
    State({0}, {0}, false, false, false, true, {}, false,
          {0}, 0, [Frame(1)], cpu,
          {0}, [1], [TryAgain], [1], [0], {}, everFailed, false)
  }

  lemma CallIssues()
    ensures Legal(Initial(1), [Call(0)] + Times(Issue, 6))
    ensures Run(Initial(1), [Call(0)] + Times(Issue, 6)) == Waiting(Running, false)
  {
    var s0 := Apply(Initial(1), Call(0));
    var s1 := Apply(s0, Issue);
    var s2 := Apply(s1, Issue);
    var s3 := Apply(s2, Issue);
    var s4 := Apply(s3, Issue);
    var s5 := Apply(s4, Issue);
    var s6 := Apply(s5, Issue);
    assert s1.result == [TryAgain] && s1.pointer == [Frame(1)] && s1.calls == [1];
    assert s4.issued == [1] && s6 == Waiting(Running, false);
    Prefixed(s5, Issue, []);
    Prefixed(s4, Issue, Times(Issue, 1));
    Prefixed(s3, Issue, Times(Issue, 2));
    Prefixed(s2, Issue, Times(Issue, 3));
    Prefixed(s1, Issue, Times(Issue, 4));
    Prefixed(s0, Issue, Times(Issue, 5));
    Prefixed(Initial(1), Call(0), Times(Issue, 6));
  }

  /** A spurious error starts a handler, which gets past both reads. */
  lemma HandlerReads()
    ensures var ts := [Fail(false), ClearTfd, Interrupt] + Times(Handle, 2);
            && Legal(Waiting(Running, false), ts)
            && Run(Waiting(Running, false), ts) == Waiting(Handling(ClearIs(false)), true).(pending := true)
  {
    var s := Waiting(Running, true).(pending := true);
    Prefixed(s.(cpu := Handling(ReadTfd)), Handle, []);
    Prefixed(s.(cpu := Handling(ReadIs)), Handle, Times(Handle, 1));
    Prefixed(s, Interrupt, Times(Handle, 2));
    Prefixed(s.(tfdError := true), ClearTfd, [Interrupt] + Times(Handle, 2));
    Prefixed(Waiting(Running, false), Fail(false), [ClearTfd] + ([Interrupt] + Times(Handle, 2)));
    assert [Fail(false), ClearTfd, Interrupt] + Times(Handle, 2) ==
           [Fail(false)] + ([ClearTfd] + ([Interrupt] + Times(Handle, 2)));
  }

  /** A fatal error now, and the handler runs to its end. */
  lemma HandlerForgets()
    ensures var s := Waiting(Handling(ClearIs(false)), true).(pending := true);
            && Legal(s, [Fail(true)] + Times(Handle, 4))
            && Run(s, [Fail(true)] + Times(Handle, 4)) == Waiting(Running, true)
  {
    var s := Waiting(Running, true);
    var s0 := s.(cpu := Handling(ClearIs(false)), pending := true);
    Prefixed(s.(cpu := Handling(Ack(0, {}, false))), Handle, []);
    assert {0} - {0} == {};
    Prefixed(s.(cpu := Handling(ReadSact(false))), Handle, Times(Handle, 1));
    Prefixed(s.(cpu := Handling(ClearHba(false))), Handle, Times(Handle, 2));
    Prefixed(s0.(fatal := true), Handle, Times(Handle, 3));
    Prefixed(s0, Fail(true), Times(Handle, 4));
  }

  /** A run from the start, in which the device's fatal error reaches nobody: no interrupt is pending or
      coming, and the caller polls on. */
  lemma LostError()
    ensures var ts := ([Call(0)] + Times(Issue, 6))
                      + ([Fail(false), ClearTfd, Interrupt] + Times(Handle, 2))
                      + ([Fail(true)] + Times(Handle, 4));
            && Legal(Initial(1), ts)
            && var s := Run(Initial(1), ts);
               && s.cpu == Running && !s.pending && !s.raising && !s.fatal && !s.tfdError
               && 0 in s.outstanding && 0 in s.inCall && s.result == [TryAgain]
  {
    CallIssues();
    HandlerReads();
    HandlerForgets();
    var ts := [Call(0)] + Times(Issue, 6);
    var us := [Fail(false), ClearTfd, Interrupt] + Times(Handle, 2);
    Joined(Initial(1), ts, us);
    Joined(Initial(1), ts + us, [Fail(true)] + Times(Handle, 4));
  }
}
