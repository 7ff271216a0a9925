/** How the parallel assignment can end, and from where. */
module AssignmentEnds {
  import opened Assignment

  /** The process crashes only when a goroutine recovers from a panic other than an overflow while no
      overflow has been recorded. */
  lemma CrashCause(states: seq<State>, k: nat)
    requires Run(states) && k + 1 < |states| && states[k].outcome == Running && states[k + 1].outcome == Crashed
    ensures states[k].overflow.None? && Failed in states[k].threads
  {
    RunInv(states, k);
    assert Next(states[k], states[k + 1]);
    var g: nat, l :| StepBy(states[k], g, l, states[k + 1]);
    CrashStep(states[k], g, l);
  }

  lemma CrashStep(s: State, g: nat, l: Label)
    requires CanStep(s, g, l) && Apply(s, g, l).outcome == Crashed
    ensures s.overflow.None? && s.threads[g] == Failed
  {
  }

  /** Once an overflow is recorded, a run that cannot go on has ended by raising that report again. */
  lemma RecordedEnds(states: seq<State>, r: Report)
    requires Run(states) && Stuck(states[|states| - 1]) && Recorded(r) in states[|states| - 1].log
    ensures states[|states| - 1].outcome == Reraised(r)
  {
    StuckMeansEnded(states);
    RunInv(states, |states| - 1);
  }

  // ----- the normal return can be reached -----

  predicate CalmPhase(p: Phase) {
    p.At? || p.Inside? || p.Done?
  }

  /** No goroutine is handling a panic. */
  ghost predicate Calm(s: State) {
    s.overflow.None? && forall g :: 0 <= g < |s.threads| ==> CalmPhase(s.threads[g])
  }

  ghost predicate StaysCalm(s: State, g: nat, l: Label) {
    CanStep(s, g, l) && Completable(Apply(s, g, l))
  }

  lemma CalmThread(s: State, g: nat) returns (l: Label)
    requires Inv(s) && Calm(s) && s.outcome == Running && g < GOROUTINES && !s.threads[g].Done?
    requires g == B ==> s.gate
    ensures StaysCalm(s, g, l)
  {
    var p := s.threads[g];
    l := if p.Inside? then Finish
         else if p.pc == |Actions(g)| then End
         else if Actions(g)[p.pc].Call? then Begin
         else if Actions(g)[p.pc].CloseGate? then Close
         else Pass;
    assert Enabled(s, g, l);
  }

  lemma CalmMove(s: State) returns (g: nat, l: Label)
    requires Inv(s) && Calm(s) && s.outcome == Running
    ensures StaysCalm(s, g, l)
  {
    if forall i :: 0 <= i < GOROUTINES ==> s.threads[i].Done? {
      g, l := 0, Join;
      assert Enabled(s, g, l);
    } else {
      g :| 0 <= g < GOROUTINES && !s.threads[g].Done?;
      if !s.threads[A].Done? { g := A; }
      l := CalmThread(s, g);
    }
  }

  /** As long as no module has panicked, the run can be completed to a normal return. */
  lemma {:induction false} Completes(states: seq<State>) returns (run: seq<State>)
    requires Run(states) && Completable(states[|states| - 1])
    ensures Run(run) && states <= run && run[|run| - 1].outcome == Returned
    decreases 56 - |states|
  {
    if states[|states| - 1].outcome == Returned {
      run := states;
    } else {
      var s := CalmStep(states);
      RunsEnd(states + [s]);
      run := Completes(states + [s]);
    }
  }

  ghost predicate Completable(s: State) {
    Calm(s) && s.outcome in {Running, Returned}
  }

  lemma CalmStep(states: seq<State>) returns (s: State)
    requires Run(states) && Completable(states[|states| - 1]) && states[|states| - 1].outcome == Running
    ensures Run(states + [s]) && Completable(s)
  {
    RunInv(states, |states| - 1);
    var g, l := CalmMove(states[|states| - 1]);
    Extends(states, g, l);
    s := Apply(states[|states| - 1], g, l);
  }

  lemma Extends(states: seq<State>, g: nat, l: Label)
    requires Run(states) && CanStep(states[|states| - 1], g, l)
    ensures Run(states + [Apply(states[|states| - 1], g, l)])
  {
    var s := states[|states| - 1];
    var longer := states + [Apply(s, g, l)];
    assert StepBy(s, g, l, Apply(s, g, l));
    forall k | 0 <= k < |longer| - 1 ensures Next(longer[k], longer[k + 1]) {
      if k < |states| - 1 { assert Next(states[k], states[k + 1]); }
    }
  }
}
