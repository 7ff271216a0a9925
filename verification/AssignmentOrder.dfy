/** When the modules start and finish: each at most once, in the order that their shared columns
    ask for, and each exactly once before a normal return. */
module AssignmentOrder {
  import opened Assignment
  import opened Wrappers

  /** The module that must have finished before m starts, because they share columns or pointers. */
  function Predecessor(m: Module): Option<Module> {
    match m
    case Ecadd => Some(Ecdsa)
    case Ecmul => Some(Ecadd)
    case Ecpair => Some(Ecmul)
    case P256Verify => Some(Ecpair)
    case Sha2 => Some(Keccak)
    case BlsG2Add => Some(BlsG1Add)
    case BlsG1Msm => Some(BlsG2Add)
    case BlsG2Msm => Some(BlsG1Msm)
    case BlsG1Map => Some(BlsG2Msm)
    case BlsG2Map => Some(BlsG1Map)
    case BlsPairingCheck => Some(BlsG2Map)
    case PointEval => Some(BlsPairingCheck)
    case PublicInput => Some(StateManager)
    case _ => None
  }

  ghost function CountOf(log: seq<Event>, e: Event): nat {
    multiset(log)[e]
  }

  /** The goroutine of m has not come to the start of m yet. */
  ghost predicate StartAhead(s: State, m: Module)
    requires |s.threads| == GOROUTINES
  {
    var (g, i) := Place(m);
    Behind(s.threads[g], i)
  }

  ghost predicate FinishAhead(s: State, m: Module)
    requires |s.threads| == GOROUTINES
  {
    var (g, i) := Place(m);
    var p := s.threads[g];
    (p.At? || p.Inside?) && p.pc <= i
  }

  ghost predicate OnceInv(s: State, m: Module)
    requires |s.threads| == GOROUTINES
  {
    && CountOf(s.log, Started(m)) <= (if StartAhead(s, m) then 0 else 1)
    && CountOf(s.log, Finished(m)) <= (if FinishAhead(s, m) then 0 else 1)
    && (s.threads[Place(m).0] == Inside(Place(m).1) ==> Started(m) in s.log)
  }

  /** What the event at position j needs to have happened before. */
  ghost predicate InOrder(log: seq<Event>, j: nat)
    requires j < |log|
  {
    match log[j]
    case Started(m) => Predecessor(m).Some? ==> Finished(Predecessor(m).value) in log[..j]
    case Finished(m) => Started(m) in log[..j]
    case _ => true
  }

  ghost predicate Ordered(s: State) {
    && |s.threads| == GOROUTINES
    && (forall m: Module :: OnceInv(s, m))
    && (forall j :: 0 <= j < |s.log| ==> InOrder(s.log, j))
  }

  lemma CountGrows(log: seq<Event>, more: seq<Event>, e: Event)
    ensures CountOf(log + more, e) == CountOf(log, e) + CountOf(more, e)
  {
  }

  /** The predecessor of m is called before m in the same goroutine. */
  lemma PredecessorPlace(m: Module)
    requires Predecessor(m).Some?
    ensures Place(Predecessor(m).value).0 == Place(m).0 && Place(Predecessor(m).value).1 < Place(m).1
  {
  }

  /** The new event has what it needs in the log. */
  lemma NewEvent(s: State, g: nat, l: Label)
    requires CanStep(s, g, l) && Ordered(s)
    ensures EventOf(s, g, l) == [] || InOrder(s.log + EventOf(s, g, l), |s.log|)
  {
    var p, log := s.threads[g], s.log + EventOf(s, g, l);
    if EventOf(s, g, l) != [] { assert log[..|s.log|] == s.log; }
    if l == Begin || l == Finish {
      var m := ModuleAt(g, p.pc);
      PlaceExactly(m, g, p.pc);
      assert OnceInv(s, m);
      if Predecessor(m).Some? {
        var q := Predecessor(m).value;
        PredecessorPlace(m);
        PlaceExactly(q, g, Place(q).1);
        assert CallsDone(s.log, g, p.pc);
      }
    }
  }

  lemma LogOrdered(s: State, g: nat, l: Label)
    requires CanStep(s, g, l) && Ordered(s)
    ensures var s' := Apply(s, g, l); forall j :: 0 <= j < |s'.log| ==> InOrder(s'.log, j)
  {
    var s' := Apply(s, g, l);
    LogStep(s, g, l);
    NewEvent(s, g, l);
    forall j | 0 <= j < |s'.log| ensures InOrder(s'.log, j) {
      if j < |s.log| {
        assert s'.log[..j] == s.log[..j] && s'.log[j] == s.log[j];
        assert InOrder(s.log, j);
      } else {
        assert j == |s.log|;
      }
    }
  }

  ghost predicate Behind(p: Phase, i: nat) {
    (p.At? && p.pc <= i) || (p.Inside? && p.pc < i)
  }

  /** A goroutine only moves on, and enters a call only from the action before it. */
  lemma PhaseStep(s: State, g: nat, l: Label, h: nat, i: nat)
    requires CanStep(s, g, l) && |Apply(s, g, l).threads| == GOROUTINES && h < GOROUTINES
    ensures var p, p' := s.threads[h], Apply(s, g, l).threads[h];
            && (Behind(p', i) ==> Behind(p, i))
            && ((p'.At? || p'.Inside?) && p'.pc <= i ==> (p.At? || p.Inside?) && p.pc <= i)
            && (p' == Inside(i) ==> p == Inside(i) || (g == h && p == At(i) && l == Begin))
  {
  }

  /** The goroutine of m is at most further, unless it is just at m. */
  lemma StaysAhead(s: State, g: nat, l: Label, m: Module)
    requires CanStep(s, g, l) && |Apply(s, g, l).threads| == GOROUTINES
    ensures StartAhead(Apply(s, g, l), m) ==> StartAhead(s, m)
    ensures FinishAhead(Apply(s, g, l), m) ==> FinishAhead(s, m)
    ensures Apply(s, g, l).threads[Place(m).0] == Inside(Place(m).1) ==>
              s.threads[Place(m).0] == Inside(Place(m).1) || (g == Place(m).0 && s.threads[g].At? && l == Begin)
  {
    PhaseStep(s, g, l, Place(m).0, Place(m).1);
  }

  /** A step that notes no start or finish of m. */
  lemma OthersOnce(s: State, g: nat, l: Label, m: Module)
    requires CanStep(s, g, l) && OnceInv(s, m) && |Apply(s, g, l).threads| == GOROUTINES
    requires EventOf(s, g, l) != [Started(m)] && EventOf(s, g, l) != [Finished(m)]
    ensures OnceInv(Apply(s, g, l), m)
  {
    LogStep(s, g, l);
    CountGrows(s.log, EventOf(s, g, l), Started(m));
    CountGrows(s.log, EventOf(s, g, l), Finished(m));
    StaysAhead(s, g, l, m);
    NotInside(s, g, l, m);
  }

  /** The goroutine of m enters m only with a start of m. */
  lemma NotInside(s: State, g: nat, l: Label, m: Module)
    requires CanStep(s, g, l) && |Apply(s, g, l).threads| == GOROUTINES && EventOf(s, g, l) != [Started(m)]
    ensures Apply(s, g, l).threads[Place(m).0] == Inside(Place(m).1) ==> s.threads[Place(m).0] == Inside(Place(m).1)
  {
    var (h, i) := Place(m);
    PlaceExactly(m, h, i);
    StaysAhead(s, g, l, m);
  }

  lemma OwnOnce(s: State, g: nat, l: Label, m: Module)
    requires CanStep(s, g, l) && OnceInv(s, m)
    requires EventOf(s, g, l) == [Started(m)] || EventOf(s, g, l) == [Finished(m)]
    ensures OnceInv(Apply(s, g, l), m)
  {
    LogStep(s, g, l);
    CountGrows(s.log, EventOf(s, g, l), Started(m));
    CountGrows(s.log, EventOf(s, g, l), Finished(m));
    PlaceExactly(m, g, s.threads[g].pc);
  }

  lemma OrderedStep(s: State, g: nat, l: Label)
    requires CanStep(s, g, l) && Ordered(s)
    ensures Ordered(Apply(s, g, l))
  {
    ShapeStep(s, g, l);
    LogOrdered(s, g, l);
    forall m: Module ensures OnceInv(Apply(s, g, l), m) {
      assert OnceInv(s, m);
      if EventOf(s, g, l) == [Started(m)] || EventOf(s, g, l) == [Finished(m)] {
        OwnOnce(s, g, l, m);
      } else {
        OthersOnce(s, g, l, m);
      }
    }
  }

  lemma {:induction false} RunOrdered(states: seq<State>, k: nat)
    requires Run(states) && k < |states|
    ensures Ordered(states[k])
  {
    if k == 0 {
      forall m: Module ensures OnceInv(INITIAL, m) { }
    } else {
      RunOrdered(states, k - 1);
      RunInv(states, k - 1);
      assert Next(states[k - 1], states[k - 1 + 1]);
      var g, l :| StepBy(states[k - 1], g, l, states[k]);
      OrderedStep(states[k - 1], g, l);
    }
  }

  /** In every run each module starts and finishes at most once, starts only after its predecessor
      has finished, and finishes only after it started. */
  lemma ModuleOrder(states: seq<State>, k: nat, m: Module)
    requires Run(states) && k < |states|
    ensures CountOf(states[k].log, Started(m)) <= 1 && CountOf(states[k].log, Finished(m)) <= 1
    ensures forall j :: 0 <= j < |states[k].log| && states[k].log[j] == Finished(m) ==>
              Started(m) in states[k].log[..j]
    ensures Predecessor(m).Some? ==> forall j :: 0 <= j < |states[k].log| && states[k].log[j] == Started(m) ==>
              Finished(Predecessor(m).value) in states[k].log[..j]
  {
    RunOrdered(states, k);
    assert OnceInv(states[k], m);
    var log := states[k].log;
    forall j | 0 <= j < |log| && log[j] == Finished(m) ensures Started(m) in log[..j] { assert InOrder(log, j); }
    if Predecessor(m).Some? {
      var q := Predecessor(m).value;
      forall j | 0 <= j < |log| && log[j] == Started(m) ensures Finished(q) in log[..j] { assert InOrder(log, j); }
    }
  }

  /** Before a normal return each module has started and finished exactly once. */
  lemma ReturnedOnce(states: seq<State>, k: nat, m: Module)
    requires Run(states) && k < |states| && states[k].outcome == Returned
    ensures CountOf(states[k].log, Started(m)) == 1 && CountOf(states[k].log, Finished(m)) == 1
  {
    var log := states[k].log;
    NormalReturn(states, k);
    ModuleOrder(states, k, m);
    assert Finished(m) in log;
    var j :| 0 <= j < |log| && log[j] == Finished(m);
    assert Started(m) in log[..j];
    assert Started(m) in log;
  }
}
