/** The parallel assignment of the modules: four goroutines, one gate, one overflow report.

    The goroutines are interleaved step by step.  A module call may succeed, panic with a limit
    overflow report or panic otherwise; which of these happens, and when, is not determined. */
module Assignment {
  import opened Wrappers

  datatype Module =
    | Ecdsa | Ecadd | Ecmul | Ecpair | P256Verify
    | Keccak | Sha2
    | BlsG1Add | BlsG2Add | BlsG1Msm | BlsG2Msm | BlsG1Map | BlsG2Map | BlsPairingCheck | PointEval
    | StateManager | PublicInput

  datatype Action = Call(m: Module) | CloseGate | WaitGate

  /** What identifies an overflow report. */
  type Report = int

  const A := 0
  const B := 1
  const GOROUTINES := 4

  function Actions(g: nat): seq<Action> {
    if g == 0 then [Call(Ecdsa), CloseGate, Call(Ecadd), Call(Ecmul), Call(Ecpair), Call(P256Verify)]
    else if g == 1 then [WaitGate, Call(Keccak), Call(Sha2)]
    else if g == 2 then [Call(BlsG1Add), Call(BlsG2Add), Call(BlsG1Msm), Call(BlsG2Msm),
                         Call(BlsG1Map), Call(BlsG2Map), Call(BlsPairingCheck), Call(PointEval)]
    else [Call(StateManager), Call(PublicInput)]
  }

  /** Before an action, inside a call, in the recover handler with a panic, in the handler after
      recording and before closing the gate, or finished. */
  datatype Phase = At(pc: nat) | Inside(pc: nat) | Overflowed(report: Report) | Failed | Closing | Done

  datatype Ending = Running | Crashed | Returned | Reraised(report: Report)

  datatype Event =
    | Started(m: Module) | Finished(m: Module) | Raised(report: Report) | Recorded(report: Report) | Opened | Absorbed

  datatype State = State(threads: seq<Phase>, gate: bool, closings: nat, overflow: Option<Report>, outcome: Ending,
                         log: seq<Event>)

  const INITIAL := State([At(0), At(0), At(0), At(0)], false, 0, None, Running, [])

  datatype Label =
    | Begin | Finish | Overflow(report: Report) | Fail | Close | Pass | End | Record | CloseLate | Recover | Join

  // ----- the steps -----

  predicate Enabled(s: State, g: nat, l: Label)
    requires |s.threads| == GOROUTINES && g < GOROUTINES
  {
    var p := s.threads[g];
    && s.outcome == Running
    && match l
       case Begin => p.At? && p.pc < |Actions(g)| && Actions(g)[p.pc].Call?
       case Finish => p.Inside?
       case Overflow(_) => p.Inside?
       case Fail => p.Inside?
       case Close => p.At? && p.pc < |Actions(g)| && Actions(g)[p.pc].CloseGate?
       case Pass => p.At? && p.pc < |Actions(g)| && Actions(g)[p.pc].WaitGate? && s.gate
       case End => p.At? && p.pc >= |Actions(g)|
       case Record => p.Overflowed?
       case CloseLate => p.Closing?
       case Recover => p.Failed?
       case Join => g == 0 && forall i :: 0 <= i < GOROUTINES ==> s.threads[i].Done?
  }

  /** closeEcdsa: the channel is closed under a sync.Once. */
  function CloseOnce(s: State): State {
    if s.closings == 0 then s.(gate := true, closings := 1, log := s.log + [Opened]) else s
  }

  function Move(s: State, g: nat, p: Phase): State
    requires g < |s.threads|
  {
    s.(threads := s.threads[g := p])
  }

  function Note(s: State, e: Event): State {
    s.(log := s.log + [e])
  }

  function ModuleAt(g: nat, pc: nat): Module {
    if pc < |Actions(g)| && Actions(g)[pc].Call? then Actions(g)[pc].m else Ecdsa
  }

  function Apply(s: State, g: nat, l: Label): State
    requires |s.threads| == GOROUTINES && g < GOROUTINES && Enabled(s, g, l)
  {
    var p := s.threads[g];
    match l
    case Begin => Note(Move(s, g, Inside(p.pc)), Started(ModuleAt(g, p.pc)))
    case Finish => Note(Move(s, g, At(p.pc + 1)), Finished(ModuleAt(g, p.pc)))
    case Overflow(r) => Note(Move(s, g, Overflowed(r)), Raised(r))
    case Fail => Move(s, g, Failed)
    case Close => CloseOnce(Move(s, g, At(p.pc + 1)))
    case Pass => Move(s, g, At(p.pc + 1))
    case End => Move(s, g, Done)
    case Record =>
      var s' := Move(s, g, Closing);
      if s.overflow.None? then Note(s', Recorded(p.report)).(overflow := Some(p.report)) else s'
    case CloseLate => CloseOnce(Move(s, g, Done))
    case Recover => if s.overflow.Some? then Note(Move(s, g, Done), Absorbed) else s.(outcome := Crashed)
    case Join => s.(outcome := if s.overflow.Some? then Reraised(s.overflow.value) else Returned)
  }

  ghost predicate Next(s: State, s': State) {
    |s.threads| == GOROUTINES && exists g, l :: StepBy(s, g, l, s')
  }

  ghost predicate StepBy(s: State, g: nat, l: Label, s': State)
    requires |s.threads| == GOROUTINES
  {
    g < GOROUTINES && Enabled(s, g, l) && s' == Apply(s, g, l)
  }

  /** A run: any interleaving from the initial state. */
  ghost predicate Run(states: seq<State>) {
    && states != [] && states[0] == INITIAL
    && forall k :: 0 <= k < |states| - 1 ==> Next(states[k], states[k + 1])
  }

  // ----- what every step keeps -----

  ghost predicate SomeClosing(s: State) {
    exists g :: 0 <= g < |s.threads| && s.threads[g].Closing?
  }

  ghost predicate SomeOverflowed(s: State) {
    exists g :: 0 <= g < |s.threads| && s.threads[g].Overflowed?
  }

  ghost predicate HasRecord(log: seq<Event>) {
    exists r :: Recorded(r) in log
  }

  ghost predicate HasRaise(log: seq<Event>) {
    exists r :: Raised(r) in log
  }

  /** The calls before pc have been finished. */
  ghost predicate CallsDone(log: seq<Event>, g: nat, pc: nat) {
    forall k :: 0 <= k < pc && k < |Actions(g)| && Actions(g)[k].Call? ==> Finished(Actions(g)[k].m) in log
  }

  ghost predicate Shape(s: State) {
    && |s.threads| == GOROUTINES
    && forall g :: 0 <= g < GOROUTINES ==>
         && (s.threads[g].At? ==> s.threads[g].pc <= |Actions(g)|)
         && (s.threads[g].Inside? ==> s.threads[g].pc < |Actions(g)| && Actions(g)[s.threads[g].pc].Call?)
  }

  ghost predicate GateInv(s: State)
    requires |s.threads| == GOROUTINES
  {
    && s.closings == (if s.gate then 1 else 0)
    && (s.gate ==> Finished(Ecdsa) in s.log || HasRecord(s.log))
    && (s.threads[A].At? || s.threads[A].Inside? ==> s.threads[A].pc >= 2 ==> s.gate)
    && (s.threads[B].At? || s.threads[B].Inside? ==> s.threads[B].pc >= 1 ==> s.gate)
    && (s.overflow.Some? ==> s.gate || SomeClosing(s))
    && (s.threads[A].Done? ==> s.gate || SomeClosing(s))
  }

  /** A gate opening or a start of Keccak at position j is justified by what came before. */
  ghost predicate Justified(log: seq<Event>, j: nat)
    requires j < |log|
  {
    Finished(Ecdsa) in log[..j] || HasRecord(log[..j])
  }

  ghost predicate OrderInv(s: State) {
    forall j :: 0 <= j < |s.log| && (s.log[j] == Started(Keccak) || s.log[j] == Opened) ==> Justified(s.log, j)
  }

  ghost predicate RecordInv(s: State) {
    && (s.overflow.None? <==> !HasRecord(s.log))
    && (forall r :: Recorded(r) in s.log ==> s.overflow == Some(r) && Raised(r) in s.log)
    && (HasRaise(s.log) ==> s.overflow.Some? || SomeOverflowed(s))
    && (forall g :: 0 <= g < |s.threads| && s.threads[g].Overflowed? ==> Raised(s.threads[g].report) in s.log)
    && (SomeClosing(s) ==> s.overflow.Some?)
  }

  ghost predicate CallInv(s: State)
    requires |s.threads| == GOROUTINES
  {
    forall g :: 0 <= g < GOROUTINES ==>
      && (s.threads[g].At? || s.threads[g].Inside? ==> CallsDone(s.log, g, s.threads[g].pc))
      && (s.threads[g].Done? ==> s.overflow.Some? || CallsDone(s.log, g, |Actions(g)|))
  }

  ghost predicate OutcomeInv(s: State) {
    && (s.outcome == Returned ==> s.overflow.None?)
    && (s.outcome.Reraised? ==> s.overflow == Some(s.outcome.report))
    && (s.outcome == Returned || s.outcome.Reraised? ==> forall g :: 0 <= g < |s.threads| ==> s.threads[g].Done?)
    && (s.outcome == Crashed ==> s.overflow.None?)
  }

  ghost predicate Inv(s: State) {
    Shape(s) && GateInv(s) && OrderInv(s) && RecordInv(s) && CallInv(s) && OutcomeInv(s)
  }

  lemma InitialInv()
    ensures Inv(INITIAL)
  {
  }

  ghost predicate CanStep(s: State, g: nat, l: Label) {
    Inv(s) && g < GOROUTINES && Enabled(s, g, l)
  }

  lemma ShapeStep(s: State, g: nat, l: Label)
    requires CanStep(s, g, l)
    ensures Shape(Apply(s, g, l))
  {
  }

  /** The event that a step adds to the log, if any. */
  function EventOf(s: State, g: nat, l: Label): seq<Event>
    requires |s.threads| == GOROUTINES && g < GOROUTINES && Enabled(s, g, l)
  {
    var p := s.threads[g];
    match l
    case Begin => [Started(ModuleAt(g, p.pc))]
    case Finish => [Finished(ModuleAt(g, p.pc))]
    case Overflow(r) => [Raised(r)]
    case Record => if s.overflow.None? then [Recorded(p.report)] else []
    case Recover => if s.overflow.Some? then [Absorbed] else []
    case Close => if s.closings == 0 then [Opened] else []
    case CloseLate => if s.closings == 0 then [Opened] else []
    case _ => []
  }

  lemma LogStep(s: State, g: nat, l: Label)
    requires CanStep(s, g, l)
    ensures Apply(s, g, l).log == s.log + EventOf(s, g, l)
    ensures Apply(s, g, l).overflow == if l == Record && s.overflow.None? then Some(s.threads[g].report) else s.overflow
    ensures Apply(s, g, l).threads == s.threads || Apply(s, g, l).threads == s.threads[g := Apply(s, g, l).threads[g]]
  {
  }

  lemma OrderStep(s: State, g: nat, l: Label)
    requires CanStep(s, g, l)
    ensures OrderInv(Apply(s, g, l))
  {
    var s' := Apply(s, g, l);
    LogStep(s, g, l);
    forall j | 0 <= j < |s'.log| && (s'.log[j] == Started(Keccak) || s'.log[j] == Opened) ensures Justified(s'.log, j) {
      if j < |s.log| {
        assert s'.log[..j] == s.log[..j];
        assert s.log[j] == s'.log[j];
      } else {
        assert s'.log[..j] == s.log;
        LastEvent(s, g, l);
      }
    }
  }

  /** The gate opens, and Keccak starts, only after Ecdsa finished or an overflow was recorded. */
  lemma LastEvent(s: State, g: nat, l: Label)
    requires CanStep(s, g, l)
    ensures EventOf(s, g, l) == [Started(Keccak)] || EventOf(s, g, l) == [Opened] ==>
              Finished(Ecdsa) in s.log || HasRecord(s.log)
  {
    if l == Close {
      assert g == A && s.threads[A].pc == 1;
      assert CallsDone(s.log, A, 1);
      assert Actions(A)[0] == Call(Ecdsa);
    } else if l == CloseLate {
      assert SomeClosing(s);
    }
  }

  /** An overflow is recorded once, and only if it was raised. */
  lemma RecordedStep(s: State, g: nat, l: Label)
    requires CanStep(s, g, l)
    ensures var s' := Apply(s, g, l);
            && (s'.overflow.None? <==> !HasRecord(s'.log))
            && (forall r :: Recorded(r) in s'.log ==> s'.overflow == Some(r) && Raised(r) in s'.log)
  {
    var s' := Apply(s, g, l);
    LogStep(s, g, l);
    if l == Record && s.overflow.None? {
      assert Recorded(s.threads[g].report) in s'.log;
    } else {
      assert forall r :: Recorded(r) in s'.log <==> Recorded(r) in s.log;
    }
  }

  lemma RaisedStep(s: State, g: nat, l: Label)
    requires CanStep(s, g, l)
    ensures var s' := Apply(s, g, l);
            forall i :: 0 <= i < |s'.threads| && s'.threads[i].Overflowed? ==> Raised(s'.threads[i].report) in s'.log
  {
    LogStep(s, g, l);
  }

  /** A raised overflow is recorded or still being handled. */
  lemma PendingStep(s: State, g: nat, l: Label)
    requires CanStep(s, g, l)
    ensures var s' := Apply(s, g, l);
            HasRaise(s'.log) ==> s'.overflow.Some? || SomeOverflowed(s')
  {
    var s' := Apply(s, g, l);
    LogStep(s, g, l);
    if s'.overflow.None? && HasRaise(s'.log) {
      if l.Overflow? {
        assert s'.threads[g].Overflowed?;
      } else {
        assert HasRaise(s.log) by {
          var r :| Raised(r) in s'.log;
          assert Raised(r) in s.log;
        }
        var i :| 0 <= i < |s.threads| && s.threads[i].Overflowed?;
        assert s'.threads[i].Overflowed?;
      }
    }
  }

  lemma ClosingStep(s: State, g: nat, l: Label)
    requires CanStep(s, g, l)
    ensures SomeClosing(Apply(s, g, l)) ==> Apply(s, g, l).overflow.Some?
  {
    var s' := Apply(s, g, l);
    LogStep(s, g, l);
    if SomeClosing(s') && l != Record {
      var i :| 0 <= i < |s'.threads| && s'.threads[i].Closing?;
      assert s.threads[i].Closing?;
    }
  }

  lemma RecordStep(s: State, g: nat, l: Label)
    requires CanStep(s, g, l)
    ensures RecordInv(Apply(s, g, l))
  {
    RecordedStep(s, g, l);
    RaisedStep(s, g, l);
    PendingStep(s, g, l);
    ClosingStep(s, g, l);
  }

  lemma CallStep(s: State, g: nat, l: Label)
    requires CanStep(s, g, l)
    ensures CallInv(Apply(s, g, l))
  {
    var s' := Apply(s, g, l);
    LogStep(s, g, l);
    forall i | 0 <= i < GOROUTINES
      ensures && (s'.threads[i].At? || s'.threads[i].Inside? ==> CallsDone(s'.log, i, s'.threads[i].pc))
              && (s'.threads[i].Done? ==> s'.overflow.Some? || CallsDone(s'.log, i, |Actions(i)|))
    {
      if i == g { OwnCalls(s, g, l); }
    }
  }

  lemma CallsGrow(log: seq<Event>, more: seq<Event>, g: nat, pc: nat)
    requires CallsDone(log, g, pc)
    ensures CallsDone(log + more, g, pc)
  {
  }

  lemma CallsNext(log: seq<Event>, g: nat, pc: nat)
    requires CallsDone(log, g, pc)
    requires pc < |Actions(g)| && Actions(g)[pc].Call? ==> Finished(Actions(g)[pc].m) in log
    ensures CallsDone(log, g, pc + 1)
  {
  }

  lemma OwnCallsSoFar(s: State, g: nat, l: Label)
    requires CanStep(s, g, l)
    ensures var s' := Apply(s, g, l);
            s'.threads[g].At? || s'.threads[g].Inside? ==> CallsDone(s'.log, g, s'.threads[g].pc)
  {
    LogStep(s, g, l);
    var p, log := s.threads[g], Apply(s, g, l).log;
    if p.At? || p.Inside? {
      CallsGrow(s.log, EventOf(s, g, l), g, p.pc);
      if l == Finish || l == Close || l == Pass { CallsNext(log, g, p.pc); }
    }
  }

  lemma OwnCalls(s: State, g: nat, l: Label)
    requires CanStep(s, g, l)
    ensures var s' := Apply(s, g, l);
            && (s'.threads[g].At? || s'.threads[g].Inside? ==> CallsDone(s'.log, g, s'.threads[g].pc))
            && (s'.threads[g].Done? ==> s'.overflow.Some? || CallsDone(s'.log, g, |Actions(g)|))
  {
    OwnCallsSoFar(s, g, l);
    LogStep(s, g, l);
    if l == CloseLate { assert SomeClosing(s); }
  }

  lemma OutcomeStep(s: State, g: nat, l: Label)
    requires CanStep(s, g, l)
    ensures OutcomeInv(Apply(s, g, l))
  {
  }

  lemma GateReason(s: State, g: nat, l: Label)
    requires CanStep(s, g, l)
    ensures var s' := Apply(s, g, l);
            && s'.closings == (if s'.gate then 1 else 0)
            && (s.gate ==> s'.gate)
            && (s'.gate ==> Finished(Ecdsa) in s'.log || HasRecord(s'.log))
  {
    var s' := Apply(s, g, l);
    LogStep(s, g, l);
    LastEvent(s, g, l);
    if HasRecord(s.log) {
      var r :| Recorded(r) in s.log;
      assert Recorded(r) in s'.log;
    }
  }

  lemma GatePassed(s: State, g: nat, l: Label)
    requires CanStep(s, g, l)
    ensures var s' := Apply(s, g, l);
            && (s'.threads[A].At? || s'.threads[A].Inside? ==> s'.threads[A].pc >= 2 ==> s'.gate)
            && (s'.threads[B].At? || s'.threads[B].Inside? ==> s'.threads[B].pc >= 1 ==> s'.gate)
  {
  }

  /** Whoever recorded an overflow closes the gate, or is about to. */
  lemma GateSoon(s: State, g: nat, l: Label)
    requires CanStep(s, g, l)
    ensures var s' := Apply(s, g, l);
            && (s.gate || SomeClosing(s) ==> s'.gate || SomeClosing(s'))
            && (s'.overflow.Some? ==> s'.gate || SomeClosing(s'))
  {
    var s' := Apply(s, g, l);
    LogStep(s, g, l);
    if l == Record { assert s'.threads[g].Closing?; }
    if SomeClosing(s) && l != CloseLate {
      var i :| 0 <= i < |s.threads| && s.threads[i].Closing?;
      assert s'.threads[i].Closing?;
    }
  }

  lemma GateAfterA(s: State, g: nat, l: Label)
    requires CanStep(s, g, l)
    ensures var s' := Apply(s, g, l);
            s'.threads[A].Done? ==> s'.gate || SomeClosing(s')
  {
    GateSoon(s, g, l);
    LogStep(s, g, l);
  }

  /** Every step keeps the invariant. */
  lemma StepKeeps(s: State, g: nat, l: Label)
    requires CanStep(s, g, l)
    ensures Inv(Apply(s, g, l))
  {
    ShapeStep(s, g, l);
    GateReason(s, g, l);
    GatePassed(s, g, l);
    GateSoon(s, g, l);
    GateAfterA(s, g, l);
    OrderStep(s, g, l);
    RecordStep(s, g, l);
    CallStep(s, g, l);
    OutcomeStep(s, g, l);
  }

  lemma {:induction false} RunInv(states: seq<State>, k: nat)
    requires Run(states) && k < |states|
    ensures Inv(states[k])
  {
    if k == 0 {
      InitialInv();
    } else {
      RunInv(states, k - 1);
      assert Next(states[k - 1], states[k - 1 + 1]);
      var g, l :| StepBy(states[k - 1], g, l, states[k]);
      StepKeeps(states[k - 1], g, l);
    }
  }

  // ----- what every run guarantees -----

  /** Keccak starts after Ecdsa finished: the start at position j of the log has a finish before it. */
  ghost predicate KeccakAfterEcdsa(log: seq<Event>) {
    forall j :: 0 <= j < |log| && log[j] == Started(Keccak) ==> Finished(Ecdsa) in log[..j]
  }

  ghost predicate AllFinished(log: seq<Event>) {
    forall m: Module :: Finished(m) in log
  }

  /** The goroutine of every module and its place there. */
  function Place(m: Module): (p: (nat, nat))
    ensures p.0 < GOROUTINES
  {
    match m
    case Ecdsa => (0, 0)
    case Ecadd => (0, 2)
    case Ecmul => (0, 3)
    case Ecpair => (0, 4)
    case P256Verify => (0, 5)
    case Keccak => (1, 1)
    case Sha2 => (1, 2)
    case BlsG1Add => (2, 0)
    case BlsG2Add => (2, 1)
    case BlsG1Msm => (2, 2)
    case BlsG2Msm => (2, 3)
    case BlsG1Map => (2, 4)
    case BlsG2Map => (2, 5)
    case BlsPairingCheck => (2, 6)
    case PointEval => (2, 7)
    case StateManager => (3, 0)
    case PublicInput => (3, 1)
  }

  /** Every module is called in exactly one place. */
  lemma PlaceExactly(m: Module, g: nat, k: nat)
    requires g < GOROUTINES
    ensures k < |Actions(g)| && Actions(g)[k] == Call(m) <==> Place(m) == (g, k)
  {
  }

  lemma RecordPrefix(log: seq<Event>, j: nat)
    requires j <= |log|
    ensures HasRecord(log[..j]) ==> HasRecord(log)
  {
    if HasRecord(log[..j]) {
      var r :| Recorded(r) in log[..j];
      assert Recorded(r) in log;
    }
  }

  /** A normal return means: every module of the prover was assigned, no overflow was raised, and Keccak
      started after Ecdsa had finished. */
  lemma NormalReturn(states: seq<State>, k: nat)
    requires Run(states) && k < |states| && states[k].outcome == Returned
    ensures AllFinished(states[k].log) && !HasRaise(states[k].log) && KeccakAfterEcdsa(states[k].log)
  {
    RunInv(states, k);
    var s := states[k];
    forall j | 0 <= j < |s.log| && s.log[j] == Started(Keccak) ensures Finished(Ecdsa) in s.log[..j] {
      assert Justified(s.log, j);
      RecordPrefix(s.log, j);
    }
    forall m: Module ensures Finished(m) in s.log {
      var (g, i) := Place(m);
      PlaceExactly(m, g, i);
      assert CallsDone(s.log, g, |Actions(g)|);
    }
  }

  /** No overflow is lost: if one was raised and the step ended, it ended by raising again the
      first recorded report, which some module raised. */
  lemma NeverLost(states: seq<State>, k: nat)
    requires Run(states) && k < |states| && HasRaise(states[k].log)
    ensures states[k].outcome != Returned
    ensures states[k].outcome.Reraised? ==>
              Recorded(states[k].outcome.report) in states[k].log && Raised(states[k].outcome.report) in states[k].log
  {
    RunInv(states, k);
    var s := states[k];
    if s.outcome.Reraised? {
      assert HasRecord(s.log);
      var r :| Recorded(r) in s.log;
    }
  }

  /** If the gate opened before Ecdsa finished, an overflow had been recorded; from then on no
      panic crashes the process, and the step cannot return normally. */
  lemma EarlyGate(states: seq<State>, k: nat, j: nat)
    requires Run(states) && k < |states| && j < |states[k].log|
    requires states[k].log[j] == Opened && Finished(Ecdsa) !in states[k].log[..j]
    ensures HasRecord(states[k].log[..j]) && states[k].overflow.Some?
    ensures states[k].outcome != Crashed && states[k].outcome != Returned
  {
    RunInv(states, k);
    var s := states[k];
    assert Justified(s.log, j);
    var r :| Recorded(r) in s.log[..j];
    assert Recorded(r) in s.log;
  }

  /** The gate is closed at most once, and after goroutine A ended it is closed or about to be. */
  lemma GateOnce(states: seq<State>, k: nat)
    requires Run(states) && k < |states|
    ensures states[k].closings <= 1 && (states[k].gate <==> states[k].closings == 1)
    ensures |states[k].threads| == GOROUTINES
            && (states[k].threads[A].Done? ==> states[k].gate || SomeClosing(states[k]))
  {
    RunInv(states, k);
  }

  // ----- liveness -----

  ghost predicate CanMove(s: State, g: nat) {
    |s.threads| == GOROUTINES && g < GOROUTINES && exists l :: Enabled(s, g, l)
  }

  /** A goroutine that is not done can move, unless it waits at the gate. */
  lemma Movable(s: State, g: nat)
    requires Inv(s) && s.outcome == Running && g < GOROUTINES && !s.threads[g].Done?
    ensures CanMove(s, g) || (g == B && s.threads[B] == At(0) && !s.gate)
  {
    match s.threads[g]
    case At(pc) =>
      if pc == |Actions(g)| { assert Enabled(s, g, End); }
      else if Actions(g)[pc].Call? { assert Enabled(s, g, Begin); }
      else if Actions(g)[pc].CloseGate? { assert Enabled(s, g, Close); }
      else if s.gate { assert Enabled(s, g, Pass); }
    case Inside(_) => assert Enabled(s, g, Finish);
    case Overflowed(_) => assert Enabled(s, g, Record);
    case Failed => assert Enabled(s, g, Recover);
    case Closing => assert Enabled(s, g, CloseLate);
    case Done =>
  }

  /** No deadlock: as long as the step has not ended, something can move. */
  lemma Progress(states: seq<State>, k: nat)
    requires Run(states) && k < |states| && states[k].outcome == Running
    ensures exists g :: CanMove(states[k], g)
  {
    RunInv(states, k);
    var s := states[k];
    if forall g :: 0 <= g < GOROUTINES ==> s.threads[g].Done? {
      assert Enabled(s, 0, Join);
      assert CanMove(s, 0);
    } else {
      var g :| 0 <= g < GOROUTINES && !s.threads[g].Done?;
      Movable(s, g);
      if !CanMove(s, g) {
        if s.threads[A].Done? {
          var i :| 0 <= i < GOROUTINES && s.threads[i].Closing?;
          Movable(s, i);
        } else {
          Movable(s, A);
        }
      }
    }
  }

  ghost predicate Stuck(s: State) {
    forall g: nat :: !CanMove(s, g)
  }

  /** A run that cannot go on has ended. */
  lemma StuckMeansEnded(states: seq<State>)
    requires Run(states) && Stuck(states[|states| - 1])
    ensures states[|states| - 1].outcome != Running
  {
    if states[|states| - 1].outcome == Running { Progress(states, |states| - 1); }
  }

  /** If the gate opened before Ecdsa finished, every run that cannot go on has ended by raising
      again a report that some module raised and that was recorded. */
  lemma EarlyGateEnds(states: seq<State>, j: nat)
    requires Run(states) && Stuck(states[|states| - 1])
    requires var log := states[|states| - 1].log; j < |log| && log[j] == Opened && Finished(Ecdsa) !in log[..j]
    ensures var last := states[|states| - 1];
            last.outcome.Reraised? && Raised(last.outcome.report) in last.log
              && Recorded(last.outcome.report) in last.log
  {
    var k := |states| - 1;
    StuckMeansEnded(states);
    EarlyGate(states, k, j);
    RunInv(states, k);
    var r :| Recorded(r) in states[k].log[..j];
    assert Recorded(r) in states[k].log;
    NeverLost(states, k);
  }

  /** Steps left for one goroutine. */
  ghost function StepsLeft(g: nat, p: Phase): nat {
    match p
    case At(pc) => if pc <= |Actions(g)| then 2 * (|Actions(g)| - pc) + 4 else 1
    case Inside(pc) => if pc < |Actions(g)| then 2 * (|Actions(g)| - pc) + 3 else 3
    case Overflowed(_) => 2
    case Failed => 1
    case Closing => 1
    case Done => 0
  }

  ghost function Rank(s: State): nat
    requires |s.threads| == GOROUTINES
  {
    StepsLeft(0, s.threads[0]) + StepsLeft(1, s.threads[1]) + StepsLeft(2, s.threads[2]) + StepsLeft(3, s.threads[3])
      + if s.outcome == Running then 1 else 0
  }

  /** A step moves one goroutine on, or ends the whole. */
  lemma LeftDrops(s: State, g: nat, l: Label)
    requires Shape(s) && g < GOROUTINES && Enabled(s, g, l)
    ensures var s' := Apply(s, g, l);
            if s'.outcome == Running then
              s'.threads == s.threads[g := s'.threads[g]] && StepsLeft(g, s'.threads[g]) < StepsLeft(g, s.threads[g])
            else s'.threads == s.threads
  {
  }

  lemma RankDrops(s: State, g: nat, l: Label)
    requires CanStep(s, g, l)
    ensures |Apply(s, g, l).threads| == GOROUTINES && Rank(Apply(s, g, l)) < Rank(s)
  {
    var s' := Apply(s, g, l);
    LeftDrops(s, g, l);
    RankUpdate(s, g, s'.threads[g], s'.outcome);
  }

  lemma RankUpdate(s: State, g: nat, p: Phase, o: Ending)
    requires |s.threads| == GOROUTINES && g < GOROUTINES && s.outcome == Running
    ensures Rank(s.(threads := s.threads[g := p], outcome := o))
         == Rank(s) - StepsLeft(g, s.threads[g]) + StepsLeft(g, p) - if o == Running then 0 else 1
  {
  }

  lemma {:induction false} RunRank(states: seq<State>, k: nat)
    requires Run(states) && k < |states|
    ensures Inv(states[k]) && k + Rank(states[k]) <= Rank(INITIAL)
  {
    RunInv(states, k);
    if k > 0 {
      RunRank(states, k - 1);
      assert Next(states[k - 1], states[k - 1 + 1]);
      var g, l :| StepBy(states[k - 1], g, l, states[k]);
      RankDrops(states[k - 1], g, l);
    }
  }

  /** Every interleaving ends: no run is longer than 56 states. */
  lemma RunsEnd(states: seq<State>)
    requires Run(states)
    ensures |states| <= 56
  {
    RunRank(states, |states| - 1);
  }
}
