/** ReduceDegreeOfExpressions: rounds of eliminating a common sub-expression. */
module DegreeReduction {
  import opened Algebra
  import opened Expressions
  import opened Simplification
  import opened Factoring
  import opened Substitution
  import opened Sizes
  import opened SubProducts
  import opened FoundFactors
  import opened Offers
  import opened Candidates
  import opened EliminatedVars
  import opened VariableOrder
  import SubMultisets
  import Replaying
  import opened Wrappers

  // ----- what a candidate is -----

  lemma ChosenIsChoice<E(!new)>(c: Setting<E>, e: Expr<E>, v: seq<int>)
    requires c.Chosen(e, v)
    ensures Choice(e, v) && SubMultisets.TotalWeight(v, DegreesOf(c.g, e.children)) <= c.bound
  {
  }

  /** A candidate is built, within the degree bound, and mentions only variables of e. */
  lemma {:induction false} OfferedProperties<E(!new)>(c: Setting<E>, h: Env<E>, e: Expr<E>, t: Expr<E>)
    requires c.r.Lawful() && Built(c.r, h, e) && c.Offered(e, t) && 0 <= c.bound
    ensures Built(c.r, h, t) && Degree(c.g, t) <= c.bound && Vars(t) <= Vars(e)
  {
    if c.SubOffered(e, t) {
      var v :| c.Chosen(e, v) && t == SubProduct(c.r, e.children, v);
      ChosenIsChoice(c, e, v);
      SubProductBuilt(c.r, h, e, v);
      SubProductDegree(c.r, h, c.g, e, v);
      SubProductVars(c.r, h, e, v);
    } else if !(c.Direct(e) && t == e) {
      var i :| 0 <= i < |e.children| && c.Offered(e.children[i], t);
      OfferedProperties(c, h, e.children[i], t);
      ChildVars(e, i);
    }
  }

  /** A candidate of a clear expression occurs where it was found. */
  lemma {:induction false} OfferedOccurs<E(!new)>(c: Setting<E>, h: Env<E>, e: Expr<E>, t: Expr<E>, w: Expr<E>)
    requires c.r.Lawful() && Built(c.r, h, e) && c.Offered(e, t) && Clear(e)
    ensures Occurs(c.r, e, t, w)
  {
    if c.SubOffered(e, t) {
      var v :| c.Chosen(e, v) && t == SubProduct(c.r, e.children, v);
      ChosenIsChoice(c, e, v);
      SubProductOccurs(c.r, h, e, v, w);
    } else if !(c.Direct(e) && t == e) {
      var i :| 0 <= i < |e.children| && c.Offered(e.children[i], t);
      ClearChild(e, i);
      OfferedOccurs(c, h, e.children[i], t, w);
    }
  }

  /** A candidate is not a leaf. */
  lemma {:induction false} OfferedSize<E(!new)>(c: Setting<E>, h: Env<E>, e: Expr<E>, t: Expr<E>, s: set<Expr<E>>)
    requires c.r.Lawful() && Built(c.r, h, e) && c.Offered(e, t) && Sized(s) && Subs(e) <= s && t in s
    ensures Size(t) >= 2
  {
    if c.SubOffered(e, t) {
      var v :| c.Chosen(e, v) && t == SubProduct(c.r, e.children, v);
      ChosenIsChoice(c, e, v);
      SubProductSize(c.r, h, e, v, s);
    } else if c.Direct(e) && t == e {
      SizePositive(c.r, e);
    } else {
      var i :| 0 <= i < |e.children| && c.Offered(e.children[i], t);
      ChildSubs(e, i);
      OfferedSize(c, h, e.children[i], t, s);
    }
  }

  // ----- rounds -----

  datatype Round<E> = Round(before: seq<Expr<E>>, target: Expr<E>, after: seq<Expr<E>>)

  ghost predicate AllBuilt<E(!new)>(r: Ring<E>, h: Env<E>, es: seq<Expr<E>>) {
    forall i :: 0 <= i < |es| ==> Built(r, h, es[i])
  }

  function Fresh<E(!new)>(r: Ring<E>, h: Env<E>, k: nat): Expr<E> {
    NewVariable(r, h, Eliminated(k))
  }

  /** Round k replaces a candidate by the k-th new variable everywhere. */
  ghost predicate IsRound<E(!new)>(c: Setting<E>, h: Env<E>, rd: Round<E>, k: nat) {
    CandidateOf(c, rd.before, rd.target) && rd.after == SubstituteAll(c.r, rd.before, rd.target, Fresh(c.r, h, k))
  }

  ghost function Current<E(!new)>(exprs: seq<Expr<E>>, rounds: seq<Round<E>>): seq<Expr<E>> {
    if rounds == [] then exprs else rounds[|rounds| - 1].after
  }

  /** A run of the algorithm from exprs. */
  ghost predicate Chain<E(!new)>(c: Setting<E>, h: Env<E>, exprs: seq<Expr<E>>, rounds: seq<Round<E>>) {
    rounds == [] ||
    (var n := |rounds| - 1;
     && Chain(c, h, exprs, rounds[..n])
     && rounds[n].before == Current(exprs, rounds[..n]) && IsRound(c, h, rounds[n], n))
  }

  lemma ChainSnoc<E(!new)>(c: Setting<E>, h: Env<E>, exprs: seq<Expr<E>>, rounds: seq<Round<E>>, rd: Round<E>)
    requires Chain(c, h, exprs, rounds) && rd.before == Current(exprs, rounds) && IsRound(c, h, rd, |rounds|)
    ensures Chain(c, h, exprs, rounds + [rd]) && Current(exprs, rounds + [rd]) == rd.after
  {
    assert (rounds + [rd])[..|rounds|] == rounds;
  }

  /** Round k of a run starts from where the rounds before it led. */
  ghost predicate RoundAt<E(!new)>(c: Setting<E>, h: Env<E>, exprs: seq<Expr<E>>, before: seq<Round<E>>, rd: Round<E>) {
    Chain(c, h, exprs, before) && rd.before == Current(exprs, before) && IsRound(c, h, rd, |before|)
  }

  lemma ChainLast<E(!new)>(c: Setting<E>, h: Env<E>, exprs: seq<Expr<E>>, rounds: seq<Round<E>>)
    requires Chain(c, h, exprs, rounds) && rounds != []
    ensures var n := |rounds| - 1; RoundAt(c, h, exprs, rounds[..n], rounds[n])
  {
  }

  lemma FrontOfFront<T>(s: seq<T>, m: nat)
    requires m < |s|
    ensures s[..|s| - 1][..m] == s[..m]
  {
  }

  /** A beginning of a run is a run. */
  lemma {:induction false} ChainFront<E(!new)>(c: Setting<E>, h: Env<E>, exprs: seq<Expr<E>>, rounds: seq<Round<E>>,
                                               m: nat, front: seq<Round<E>>)
    requires Chain(c, h, exprs, rounds) && m <= |rounds| && front == rounds[..m]
    ensures Chain(c, h, exprs, front)
    decreases |rounds|
  {
    if m < |rounds| {
      ChainLast(c, h, exprs, rounds);
      FrontOfFront(rounds, m);
      ChainFront(c, h, exprs, rounds[..|rounds| - 1], m, front);
    } else {
      assert front == rounds;
    }
  }

  lemma ChainAt<E(!new)>(c: Setting<E>, h: Env<E>, exprs: seq<Expr<E>>, rounds: seq<Round<E>>, k: nat)
    requires Chain(c, h, exprs, rounds) && k < |rounds|
    ensures RoundAt(c, h, exprs, rounds[..k], rounds[k])
  {
    var front := rounds[..k + 1];
    ChainFront(c, h, exprs, rounds, k + 1, front);
    ChainLast(c, h, exprs, front);
    assert front[..k] == rounds[..k];
  }

  /** No round takes place once everything is within the bound: its target is a candidate of an
      expression that exceeds it. */
  lemma RoundsNeeded<E(!new)>(c: Setting<E>, h: Env<E>, exprs: seq<Expr<E>>, rounds: seq<Round<E>>, k: nat)
    returns (i: nat)
    requires Chain(c, h, exprs, rounds) && k < |rounds|
    ensures i < |rounds[k].before| && Degree(c.g, rounds[k].before[i]) > c.bound
    ensures c.Offered(rounds[k].before[i], rounds[k].target)
  {
    ChainAt(c, h, exprs, rounds, k);
    assert CandidateOf(c, rounds[k].before, rounds[k].target);
    i :| 0 <= i < |rounds[k].before| && OverBound(c, rounds[k].before[i])
         && c.Offered(rounds[k].before[i], rounds[k].target);
  }

  lemma FreshBuilt<E(!new)>(r: Ring<E>, h: Env<E>, k: nat)
    ensures Built(r, h, Fresh(r, h, k)) && Vars(Fresh(r, h, k)) == {Eliminated(k)} && Size(Fresh(r, h, k)) == 1
  {
    SizeStep(Fresh(r, h, k));
  }

  /** Built expressions that mention only the first n new variables. */
  ghost predicate Sound<E(!new)>(r: Ring<E>, h: Env<E>, es: seq<Expr<E>>, n: nat) {
    AllBuilt(r, h, es) && forall i :: 0 <= i < |es| ==> ElimsBelow(es[i], n)
  }

  ghost predicate SoundTarget<E(!new)>(c: Setting<E>, h: Env<E>, t: Expr<E>, n: nat) {
    Built(c.r, h, t) && Degree(c.g, t) <= c.bound && ElimsBelow(t, n)
  }

  /** A round keeps its expressions built; its target is built and within the bound. */
  lemma RoundBuilds<E(!new)>(c: Setting<E>, h: Env<E>, rd: Round<E>, k: nat)
    requires c.r.Lawful() && 0 <= c.bound && IsRound(c, h, rd, k) && AllBuilt(c.r, h, rd.before)
    ensures AllBuilt(c.r, h, rd.after) && |rd.after| == |rd.before|
    ensures Built(c.r, h, rd.target) && Degree(c.g, rd.target) <= c.bound
  {
    var v := Fresh(c.r, h, k);
    FreshBuilt(c.r, h, k);
    var j :| 0 <= j < |rd.before| && OverBound(c, rd.before[j]) && c.Offered(rd.before[j], rd.target);
    OfferedProperties(c, h, rd.before[j], rd.target);
    forall i | 0 <= i < |rd.after| ensures Built(c.r, h, rd.after[i]) {
      SubstituteBuilt(c.r, h, rd.before[i], rd.target, v);
    }
  }

  lemma RoundKeeps<E(!new)>(c: Setting<E>, h: Env<E>, rd: Round<E>, k: nat)
    requires c.r.Lawful() && 0 <= c.bound && IsRound(c, h, rd, k) && Sound(c.r, h, rd.before, k)
    ensures Sound(c.r, h, rd.after, k + 1) && |rd.after| == |rd.before| && SoundTarget(c, h, rd.target, k)
  {
    var v := Fresh(c.r, h, k);
    FreshBuilt(c.r, h, k);
    RoundBuilds(c, h, rd, k);
    var j :| 0 <= j < |rd.before| && OverBound(c, rd.before[j]) && c.Offered(rd.before[j], rd.target);
    OfferedProperties(c, h, rd.before[j], rd.target);
    assert ElimsBelow(rd.before[j], k);
    forall i | 0 <= i < |rd.after| ensures ElimsBelow(rd.after[i], k + 1) {
      assert ElimsBelow(rd.before[i], k);
      SubstituteVars(c.r, h, rd.before[i], rd.target, v);
    }
  }

  lemma {:induction false} ChainBuilds<E(!new)>(c: Setting<E>, h: Env<E>, exprs: seq<Expr<E>>, rounds: seq<Round<E>>)
    requires c.r.Lawful() && 0 <= c.bound && Chain(c, h, exprs, rounds) && AllBuilt(c.r, h, exprs)
    ensures AllBuilt(c.r, h, Current(exprs, rounds)) && |Current(exprs, rounds)| == |exprs|
  {
    if rounds != [] {
      var n := |rounds| - 1;
      ChainBuilds(c, h, exprs, rounds[..n]);
      RoundBuilds(c, h, rounds[n], n);
    }
  }

  lemma {:induction false} ChainKeeps<E(!new)>(c: Setting<E>, h: Env<E>, exprs: seq<Expr<E>>, rounds: seq<Round<E>>)
    requires c.r.Lawful() && 0 <= c.bound && Chain(c, h, exprs, rounds) && Sound(c.r, h, exprs, 0)
    ensures Sound(c.r, h, Current(exprs, rounds), |rounds|) && |Current(exprs, rounds)| == |exprs|
  {
    if rounds != [] {
      var n := |rounds| - 1;
      ChainKeeps(c, h, exprs, rounds[..n]);
      RoundKeeps(c, h, rounds[n], n);
    }
  }

  /** Every eliminated expression of a run is within the bound and mentions only variables
      eliminated before it. */
  lemma ChainTargets<E(!new)>(c: Setting<E>, h: Env<E>, exprs: seq<Expr<E>>, rounds: seq<Round<E>>, k: nat)
    requires c.r.Lawful() && 0 <= c.bound && Chain(c, h, exprs, rounds) && Sound(c.r, h, exprs, 0) && k < |rounds|
    ensures Sound(c.r, h, rounds[k].before, k) && |rounds[k].before| == |rounds[k].after| == |exprs|
    ensures SoundTarget(c, h, rounds[k].target, k) && IsRound(c, h, rounds[k], k)
  {
    ChainAt(c, h, exprs, rounds, k);
    ChainKeeps(c, h, exprs, rounds[..k]);
    RoundKeeps(c, h, rounds[k], k);
  }

  // ----- the expressions in play -----

  ghost function RoundPlay<E(!new)>(r: Ring<E>, rd: Round<E>, v: Expr<E>): set<Expr<E>> {
    AllSubs(rd.before) + Subs(rd.target) + Subs(v)
    + set x, y | x in AllSubs(rd.before) && y in Subs(Substitute(r, x, rd.target, v)) :: y
  }

  /** All expressions that a run compares by hash. */
  ghost function PlaySet<E(!new)>(r: Ring<E>, h: Env<E>, rounds: seq<Round<E>>): set<Expr<E>> {
    if rounds == [] then {}
    else
      var n := |rounds| - 1;
      PlaySet(r, h, rounds[..n]) + RoundPlay(r, rounds[n], Fresh(r, h, n))
  }

  lemma RoundPlays<E(!new)>(r: Ring<E>, rd: Round<E>, v: Expr<E>, s: set<Expr<E>>, i: nat)
    requires RoundPlay(r, rd, v) <= s && i < |rd.before|
    ensures Play(r, rd.before[i], rd.target, v, s)
  {
    forall x | x in Subs(rd.before[i]) ensures x in s && Subs(Substitute(r, x, rd.target, v)) <= s {
      assert x in AllSubs(rd.before);
    }
  }

  lemma {:induction false} PlaySetHolds<E(!new)>(r: Ring<E>, h: Env<E>, rounds: seq<Round<E>>, k: nat)
    requires k < |rounds|
    ensures RoundPlay(r, rounds[k], Fresh(r, h, k)) <= PlaySet(r, h, rounds)
  {
    if k < |rounds| - 1 { PlaySetHolds(r, h, rounds[..|rounds| - 1], k); }
  }

  // ----- meaning -----

  /** Assigns to the first n new variables the values of their expressions, in order. */
  ghost function Extended<E(!new)>(r: Ring<E>, env: Env<E>, rounds: seq<Round<E>>, n: nat): Env<E>
    requires n <= |rounds|
  {
    if n == 0 then env
    else
      var env' := Extended(r, env, rounds, n - 1);
      env'[Eliminated(n - 1) := Eval(r, rounds[n - 1].target, env')]
  }

  lemma {:induction false} ExtendedAt<E(!new)>(r: Ring<E>, env: Env<E>, rounds: seq<Round<E>>, m: nat, n: nat, x: Meta)
    requires m <= n <= |rounds| && (x.Eliminated? ==> x.id < m)
    ensures Lookup(r, Extended(r, env, rounds, n), x) == Lookup(r, Extended(r, env, rounds, m), x)
    decreases n
  {
    if m < n { ExtendedAt(r, env, rounds, m, n - 1, x); }
  }

  /** The value of an expression is settled once its variables are. */
  lemma ExtendedEval<E(!new)>(r: Ring<E>, env: Env<E>, rounds: seq<Round<E>>, m: nat, n: nat, e: Expr<E>)
    requires m <= n <= |rounds| && ElimsBelow(e, m)
    ensures Eval(r, e, Extended(r, env, rounds, n)) == Eval(r, e, Extended(r, env, rounds, m))
  {
    forall x | x in Vars(e)
      ensures Lookup(r, Extended(r, env, rounds, n), x) == Lookup(r, Extended(r, env, rounds, m), x)
    {
      ExtendedAt(r, env, rounds, m, n, x);
    }
    EvalVars(r, e, Extended(r, env, rounds, n), Extended(r, env, rounds, m));
  }

  /** The k-th new variable has the value of the k-th eliminated expression. */
  lemma FreshEval<E(!new)>(r: Ring<E>, h: Env<E>, k: nat, env: Env<E>)
    ensures Eval(r, Fresh(r, h, k), env) == Lookup(r, env, Eliminated(k))
  {
  }

  /** The k-th new variable is set to the value its expression has before. */
  lemma ExtendedNew<E(!new)>(r: Ring<E>, env: Env<E>, rounds: seq<Round<E>>, k: nat)
    requires k < |rounds| && ElimsBelow(rounds[k].target, k)
    ensures var final := Extended(r, env, rounds, |rounds|);
            Lookup(r, final, Eliminated(k)) == Eval(r, rounds[k].target, final)
  {
    ExtendedEval(r, env, rounds, k, |rounds|, rounds[k].target);
    ExtendedAt(r, env, rounds, k + 1, |rounds|, Eliminated(k));
  }

  lemma EliminatedValue<E(!new)>(c: Setting<E>, h: Env<E>, exprs: seq<Expr<E>>, rounds: seq<Round<E>>, env: Env<E>,
                                 k: nat)
    requires c.r.Lawful() && 0 <= c.bound && Chain(c, h, exprs, rounds) && Sound(c.r, h, exprs, 0) && k < |rounds|
    ensures var final := Extended(c.r, env, rounds, |rounds|);
            Eval(c.r, Fresh(c.r, h, k), final) == Lookup(c.r, final, Eliminated(k))
              == Eval(c.r, rounds[k].target, final)
  {
    ChainTargets(c, h, exprs, rounds, k);
    ExtendedNew(c.r, env, rounds, k);
    FreshEval(c.r, h, k, Extended(c.r, env, rounds, |rounds|));
  }

  lemma RoundMeaning<E(!new)>(c: Setting<E>, h: Env<E>, exprs: seq<Expr<E>>, rounds: seq<Round<E>>, env: Env<E>, k: nat)
    requires c.r.Lawful() && 0 <= c.bound && Chain(c, h, exprs, rounds) && Sound(c.r, h, exprs, 0) && k < |rounds|
    requires Faithful(c.r, PlaySet(c.r, h, rounds), Extended(c.r, env, rounds, |rounds|))
             && Separated(PlaySet(c.r, h, rounds))
    ensures SameValues(c.r, rounds[k].before, rounds[k].after, Extended(c.r, env, rounds, |rounds|))
  {
    var v, s, rd, final := Fresh(c.r, h, k), PlaySet(c.r, h, rounds), rounds[k], Extended(c.r, env, rounds, |rounds|);
    FreshBuilt(c.r, h, k);
    ChainTargets(c, h, exprs, rounds, k);
    EliminatedValue(c, h, exprs, rounds, env, k);
    PlaySetHolds(c.r, h, rounds, k);
    forall i | 0 <= i < |rd.before| ensures Eval(c.r, rd.before[i], final) == Eval(c.r, rd.after[i], final) {
      RoundPlays(c.r, rd, v, s, i);
      SubstituteValue(c.r, h, rd.before[i], rd.target, v, s, final);
    }
  }

  ghost predicate SameValues<E(!new)>(r: Ring<E>, es: seq<Expr<E>>, es': seq<Expr<E>>, env: Env<E>) {
    |es| == |es'| && forall i :: 0 <= i < |es| ==> Eval(r, es[i], env) == Eval(r, es'[i], env)
  }

  lemma SameValuesTransitive<E(!new)>(r: Ring<E>, a: seq<Expr<E>>, b: seq<Expr<E>>, d: seq<Expr<E>>, env: Env<E>)
    requires SameValues(r, a, b, env) && SameValues(r, b, d, env)
    ensures SameValues(r, a, d, env)
  {
  }

  /** If every round keeps the values under one assignment, so does the run. */
  lemma {:induction false} RunValues<E(!new)>(c: Setting<E>, h: Env<E>, exprs: seq<Expr<E>>, rounds: seq<Round<E>>,
                                              final: Env<E>)
    requires Chain(c, h, exprs, rounds)
    requires forall k :: 0 <= k < |rounds| ==> SameValues(c.r, rounds[k].before, rounds[k].after, final)
    ensures SameValues(c.r, exprs, Current(exprs, rounds), final)
  {
    if rounds != [] {
      var n := |rounds| - 1;
      RunValues(c, h, exprs, rounds[..n], final);
      SameValuesTransitive(c.r, exprs, rounds[n].before, rounds[n].after, final);
    }
  }

  /** Degree reduction preserves meaning: after any number of rounds every reduced expression has
      the value of its original once each new variable is set, in order, to the value of the
      expression it stands for. */
  lemma ReductionMeaning<E(!new)>(c: Setting<E>, h: Env<E>, exprs: seq<Expr<E>>, rounds: seq<Round<E>>, env: Env<E>,
                                  i: nat)
    requires c.r.Lawful() && 0 <= c.bound && Chain(c, h, exprs, rounds) && Sound(c.r, h, exprs, 0) && i < |exprs|
    requires Faithful(c.r, PlaySet(c.r, h, rounds), Extended(c.r, env, rounds, |rounds|))
             && Separated(PlaySet(c.r, h, rounds))
    ensures |Current(exprs, rounds)| == |exprs|
    ensures Eval(c.r, Current(exprs, rounds)[i], Extended(c.r, env, rounds, |rounds|)) == Eval(c.r, exprs[i], env)
  {
    var final := Extended(c.r, env, rounds, |rounds|);
    forall k | 0 <= k < |rounds| ensures SameValues(c.r, rounds[k].before, rounds[k].after, final) {
      RoundMeaning(c, h, exprs, rounds, env, k);
    }
    RunValues(c, h, exprs, rounds, final);
    assert ElimsBelow(exprs[i], 0);
    ExtendedEval(c.r, env, rounds, 0, |rounds|, exprs[i]);
  }

  // ----- termination -----

  ghost function Volume<E(!new)>(es: seq<Expr<E>>): int {
    Total(SizesOf(es))
  }

  /** Equal hashes in play mean equal sizes, and never a constant against a non-constant. */
  ghost predicate Agreeing<E(!new)>(s: set<Expr<E>>) {
    Sized(s) && Separated(s)
  }

  /** A round strictly lowers the total size. */
  lemma RoundShrinks<E(!new)>(c: Setting<E>, h: Env<E>, rd: Round<E>, k: nat, s: set<Expr<E>>)
    requires c.r.Lawful() && 0 <= c.bound && IsRound(c, h, rd, k) && AllBuilt(c.r, h, rd.before)
    requires Agreeing(s) && RoundPlay(c.r, rd, Fresh(c.r, h, k)) <= s
    ensures Volume(rd.after) < Volume(rd.before)
  {
    var v, t, r := Fresh(c.r, h, k), rd.target, c.r;
    FreshBuilt(r, h, k);
    RoundBuilds(c, h, rd, k);
    var j :| 0 <= j < |rd.before| && OverBound(c, rd.before[j]) && c.Offered(rd.before[j], t);
    RoundPlays(r, rd, v, s, j);
    OfferedSize(c, h, rd.before[j], t, s);
    SeparatedClear(r, rd.before[j], s);
    OfferedOccurs(c, h, rd.before[j], t, v);
    OccursShrinks(r, h, rd.before[j], t, v, s);
    var ms, ns := SizesOf(rd.after), SizesOf(rd.before);
    assert ms[j] < ns[j];
    forall i | 0 <= i < |ms| ensures ms[i] <= ns[i] {
      RoundPlays(r, rd, v, s, i);
      SubstituteSize(r, h, rd.before[i], t, v, s);
    }
    TotalShrinks(ms, ns);
  }

  /** Without any cap a run has at most as many rounds as the total size of its input. */
  lemma {:induction false} RunBounded<E(!new)>(c: Setting<E>, h: Env<E>, exprs: seq<Expr<E>>, rounds: seq<Round<E>>,
                                               s: set<Expr<E>>)
    requires c.r.Lawful() && 0 <= c.bound && Chain(c, h, exprs, rounds) && AllBuilt(c.r, h, exprs)
    requires Agreeing(s) && PlaySet(c.r, h, rounds) <= s
    ensures |rounds| + Volume(Current(exprs, rounds)) <= Volume(exprs)
  {
    if rounds != [] {
      var n := |rounds| - 1;
      RunBounded(c, h, exprs, rounds[..n], s);
      ChainBuilds(c, h, exprs, rounds[..n]);
      PlaySetHolds(c.r, h, rounds, n);
      RoundShrinks(c, h, rounds[n], n, s);
    }
  }

  // ----- the algorithm -----

  /** substituteExpr. */
  method SubstituteExpr<E(==,!new)>(r: Ring<E>, e: Expr<E>, t: Expr<E>, v: Expr<E>) returns (res: Expr<E>)
    ensures res == Substitute(r, e, t, v)
    decreases e, 1
  {
    if e.esh == t.esh { return v; }
    var sub := SubstituteSubProduct(r, e, t, v);
    if sub.Some? { return sub.value; }
    if e.children == [] { return e; }
    var cs := SubstituteList(r, e.children, t, v);
    SubstituteStep(r, e, t, v);
    res := if cs == e.children then e else Replaying.Rebuild(r, e, cs);
  }

  /** substituteInChildren and substituteInAll. */
  method SubstituteList<E(==,!new)>(r: Ring<E>, es: seq<Expr<E>>, t: Expr<E>, v: Expr<E>) returns (cs: seq<Expr<E>>)
    ensures cs == SubstituteAll(r, es, t, v)
    decreases es, 0
  {
    cs := [];
    for i := 0 to |es|
      invariant |cs| == i && forall j :: 0 <= j < i ==> cs[j] == Substitute(r, es[j], t, v)
    {
      var c := SubstituteExpr(r, es[i], t, v);
      cs := cs + [c];
    }
  }

  method SubstituteSubProduct<E(==,!new)>(r: Ring<E>, e: Expr<E>, t: Expr<E>, v: Expr<E>) returns (res: Option<Expr<E>>)
    ensures res == Factored(r, e, t, v)
  {
    if !(Nested(Prod, e) && Nested(Prod, t)) { return None; }
    var items, ks, found := FactorOutSubProduct(e.children, e.op.ks, t.children, t.op.ks);
    res := if found then Some(FactoredProduct(r, v, items, ks)) else None;
  }

  /** The first expression above the bound has no candidate. */
  ghost predicate FirstBarren<E(!new)>(c: Setting<E>, current: seq<Expr<E>>) {
    exists i :: 0 <= i < |current| && OverBound(c, current[i])
                && (forall j :: 0 <= j < i ==> !OverBound(c, current[j])) && forall t :: !c.Offered(current[i], t)
  }

  /** Why no target was found: the expressions visited offer nothing. */
  ghost predicate NoTarget<E(!new)>(c: Setting<E>, current: seq<Expr<E>>) {
    (forall t :: !CandidateOf(c, current, t)) || (c.cfg.maxCandidatePerRound <= 0 && FirstBarren(c, current))
  }

  lemma NothingOffered<E(!new)>(c: Setting<E>, current: seq<Expr<E>>, indices: seq<nat>, parts: seq<seq<Expr<E>>>)
    requires Visits(c, current, indices, parts) && Flatten(parts) == []
    ensures NoTarget(c, current)
  {
    if |parts| == |indices| {
      forall t ensures !CandidateOf(c, current, t) { VisitedCandidates(c, current, indices, parts, t); }
    } else {
      assert HashesOf<E>([]) == {};
      assert parts[..|parts|] == parts;
      assert Known(parts, |parts|) == 0;
      FirstIsFirst(c, current, indices);
      forall t ensures !c.Offered(current[indices[0]], t) {
        VisitedOffer(c, current, indices, parts, t);
      }
    }
  }

  lemma FirstIsFirst<E(!new)>(c: Setting<E>, current: seq<Expr<E>>, indices: seq<nat>)
    requires OverIndices(c, current, indices) && indices != []
    ensures OverBound(c, current[indices[0]]) && forall j :: 0 <= j < indices[0] ==> !OverBound(c, current[j])
  {
    forall j: nat | j < indices[0] ensures !OverBound(c, current[j]) {
      assert j !in indices by {
        forall k | 0 <= k < |indices| ensures indices[k] != j { }
      }
    }
  }

  lemma SomeEntry<E(!new)>(cs: seq<Candidate<E>>, es: seq<Expr<E>>)
    requires Tallied(cs, es)
    ensures es != [] ==> cs != []
  {
    if es != [] {
      assert es[0] in es;
      assert HasEntry(cs, es[0].esh);
    }
  }

  /** The candidate of the round, if there is one. */
  method FindTarget<E(==,!new)>(c: Setting<E>, current: seq<Expr<E>>, indices: seq<nat>) returns (best: Option<Expr<E>>)
    requires AllWellFormed(current) && OverIndices(c, current, indices)
    ensures best.Some? ==> Selected(c, current, best.value)
    ensures best.None? ==> NoTarget(c, current)
  {
    var candidates;
    ghost var parts;
    candidates, parts := CollectCandidates(c, current, indices);
    SomeEntry(candidates, Flatten(parts));
    if candidates == [] {
      best := None;
      NothingOffered(c, current, indices, parts);
    } else {
      var pick := SelectMostFrequent(candidates);
      best := Some(pick.expr);
      BestIsMostFrequent(candidates, Flatten(parts), pick);
    }
  }

  lemma SelectedIsCandidate<E(!new)>(c: Setting<E>, current: seq<Expr<E>>, t: Expr<E>)
    requires Selected(c, current, t)
    ensures CandidateOf(c, current, t)
  {
    var indices, parts :| Visits(c, current, indices, parts) && MostFrequent(Flatten(parts), t);
    VisitedCandidates(c, current, indices, parts, t);
  }

  /** The outcome of the first rounds: a panic, a result, or rounds that are still to come. */
  datatype Reduction<E> =
    | Panic
    | Reduced(exprs: seq<Expr<E>>, eliminated: seq<Expr<E>>, newVars: seq<Meta>)
    | Unfinished(exprs: seq<Expr<E>>, eliminated: seq<Expr<E>>, newVars: seq<Meta>)

  /** Why the loop may stop: cap reached, everything within the bound, or nothing to eliminate. */
  ghost predicate MayStop<E(!new)>(c: Setting<E>, current: seq<Expr<E>>, n: nat) {
    || (c.cfg.maxNumElimination > 0 && n >= c.cfg.maxNumElimination)
    || (forall i :: 0 <= i < |current| ==> Degree(c.g, current[i]) <= c.bound)
    || NoTarget(c, current)
  }

  /** The output of a run. */
  ghost predicate Output<E(!new)>(c: Setting<E>, h: Env<E>, exprs: seq<Expr<E>>, rounds: seq<Round<E>>,
                                  current: seq<Expr<E>>, eliminated: seq<Expr<E>>, newVars: seq<Meta>)
  {
    && Chain(c, h, exprs, rounds) && current == Current(exprs, rounds)
    && |eliminated| == |newVars| == |rounds|
    && (forall k :: 0 <= k < |rounds| ==> eliminated[k] == rounds[k].target && newVars[k] == Eliminated(k))
    && AllSelected(c, rounds)
  }

  /** Every round eliminates a most frequent candidate. */
  ghost predicate AllSelected<E(!new)>(c: Setting<E>, rounds: seq<Round<E>>) {
    forall k :: 0 <= k < |rounds| ==> RoundSelects(c, rounds[k])
  }

  ghost predicate RoundSelects<E(!new)>(c: Setting<E>, rd: Round<E>) {
    Selected(c, rd.before, rd.target)
  }

  /** Equal hashes agree in size whatever candidates the run picks. */
  ghost predicate AlwaysAgreeing<E(!new)>(c: Setting<E>, h: Env<E>, exprs: seq<Expr<E>>) {
    forall rounds :: Chain(c, h, exprs, rounds) ==> Agreeing(PlaySet(c.r, h, rounds))
  }

  /** One round: picks a candidate and substitutes it everywhere. */
  method NextRound<E(==,!new)>(c: Setting<E>, h: Env<E>, current: seq<Expr<E>>, k: nat) returns (rd: Option<Round<E>>)
    requires AllWellFormed(current)
    ensures rd.Some? ==> rd.value.before == current && IsRound(c, h, rd.value, k)
    ensures rd.Some? ==> Selected(c, current, rd.value.target)
    ensures rd.None? ==> MayStop(c, current, k)
  {
    var indices := FindOverDegree(c, current);
    if indices == [] { return None; }
    var best := FindTarget(c, current, indices);
    if best.None? { return None; }
    SelectedIsCandidate(c, current, best.value);
    var after := SubstituteList(c.r, current, best.value, Fresh(c.r, h, k));
    rd := Some(Round(current, best.value, after));
  }

  /** The next round, if there is one, extends the output; without one the loop may stop. */
  ghost predicate Upcoming<E(!new)>(c: Setting<E>, h: Env<E>, exprs: seq<Expr<E>>, rounds: seq<Round<E>>,
                                    current: seq<Expr<E>>, eliminated: seq<Expr<E>>, newVars: seq<Meta>,
                                    rd: Option<Round<E>>)
  {
    match rd
    case None => MayStop(c, current, |rounds|)
    case Some(round) =>
      && CandidateOf(c, current, round.target) && (Capped(c) ==> |rounds| < c.cfg.maxNumElimination)
      && Output(c, h, exprs, rounds + [round], round.after, eliminated + [round.target],
                newVars + [Eliminated(|newVars|)])
  }

  /** One iteration of the loop. */
  method Advance<E(==,!new)>(c: Setting<E>, h: Env<E>, current: seq<Expr<E>>, eliminated: seq<Expr<E>>,
                             newVars: seq<Meta>, ghost exprs: seq<Expr<E>>, ghost rounds: seq<Round<E>>)
    returns (rd: Option<Round<E>>)
    requires c.r.Lawful() && AllBuilt(c.r, h, exprs) && 0 <= c.bound
    requires Output(c, h, exprs, rounds, current, eliminated, newVars)
    ensures Upcoming(c, h, exprs, rounds, current, eliminated, newVars, rd)
  {
    if c.cfg.maxNumElimination > 0 && |newVars| >= c.cfg.maxNumElimination { return None; }
    ChainBuilds(c, h, exprs, rounds);
    rd := NextRound(c, h, current, |newVars|);
    if rd.Some? {
      ChainSnoc(c, h, exprs, rounds, rd.value);
      OutputSnoc(c, h, exprs, rounds, current, eliminated, newVars, rd.value);
    }
  }

  predicate Capped<E(!new)>(c: Setting<E>) {
    c.cfg.maxNumElimination > 0
  }

  lemma SelectedSnoc<E(!new)>(c: Setting<E>, rounds: seq<Round<E>>, rd: Round<E>)
    requires AllSelected(c, rounds) && RoundSelects(c, rd)
    ensures AllSelected(c, rounds + [rd])
  {
  }

  lemma NamesSnoc<E(!new)>(rounds: seq<Round<E>>, eliminated: seq<Expr<E>>, newVars: seq<Meta>, rd: Round<E>)
    requires |eliminated| == |newVars| == |rounds|
    requires forall k :: 0 <= k < |rounds| ==> eliminated[k] == rounds[k].target && newVars[k] == Eliminated(k)
    ensures var all := rounds + [rd];
            forall k :: 0 <= k < |all| ==> (eliminated + [rd.target])[k] == all[k].target
                                           && (newVars + [Eliminated(|newVars|)])[k] == Eliminated(k)
  {
  }

  lemma OutputSnoc<E(!new)>(c: Setting<E>, h: Env<E>, exprs: seq<Expr<E>>, rounds: seq<Round<E>>,
                            current: seq<Expr<E>>, eliminated: seq<Expr<E>>, newVars: seq<Meta>, rd: Round<E>)
    requires Output(c, h, exprs, rounds, current, eliminated, newVars)
    requires Chain(c, h, exprs, rounds + [rd]) && Current(exprs, rounds + [rd]) == rd.after
    requires Selected(c, rd.before, rd.target)
    ensures Output(c, h, exprs, rounds + [rd], rd.after, eliminated + [rd.target], newVars + [Eliminated(|newVars|)])
  {
    SelectedSnoc(c, rounds, rd);
    NamesSnoc(rounds, eliminated, newVars, rd);
  }

  lemma TakeRound<E(!new)>(c: Setting<E>, h: Env<E>, exprs: seq<Expr<E>>, rounds: seq<Round<E>>,
                           current: seq<Expr<E>>, eliminated: seq<Expr<E>>, newVars: seq<Meta>, rd: Round<E>)
    requires Upcoming(c, h, exprs, rounds, current, eliminated, newVars, Some(rd))
    ensures Output(c, h, exprs, rounds + [rd], rd.after, eliminated + [rd.target], newVars + [Eliminated(|newVars|)])
    ensures Capped(c) ==> |rounds| < c.cfg.maxNumElimination
  {
  }

  /** The rounds of the loop, at most limit of them. */
  method TakeRounds<E(==,!new)>(c: Setting<E>, h: Env<E>, exprs: seq<Expr<E>>, limit: nat)
    returns (current: seq<Expr<E>>, eliminated: seq<Expr<E>>, newVars: seq<Meta>, rd: Option<Round<E>>,
             ghost rounds: seq<Round<E>>)
    requires c.r.Lawful() && AllBuilt(c.r, h, exprs) && 0 <= c.bound
    ensures Output(c, h, exprs, rounds, current, eliminated, newVars)
    ensures Upcoming(c, h, exprs, rounds, current, eliminated, newVars, rd)
    ensures |rounds| <= limit && (Capped(c) ==> |rounds| <= c.cfg.maxNumElimination)
    ensures rd.Some? ==> |rounds| == limit
  {
    current, eliminated, newVars, rounds := exprs, [], [], [];
    rd := Advance(c, h, current, eliminated, newVars, exprs, rounds);
    while rd.Some? && |newVars| < limit
      invariant Output(c, h, exprs, rounds, current, eliminated, newVars)
      invariant Upcoming(c, h, exprs, rounds, current, eliminated, newVars, rd)
      invariant |rounds| <= limit && (Capped(c) ==> |rounds| <= c.cfg.maxNumElimination)
      decreases limit - |newVars|
    {
      TakeRound(c, h, exprs, rounds, current, eliminated, newVars, rd.value);
      rounds := rounds + [rd.value];
      current, eliminated, newVars := rd.value.after, eliminated + [rd.value.target], newVars + [Eliminated(|newVars|)];
      rd := Advance(c, h, current, eliminated, newVars, exprs, rounds);
    }
  }

  /** After limit rounds there is still a candidate. A cap is then not reached, and the limit is within
      the size of the input unless the run compares expressions that do not agree. */
  ghost predicate StillOpen<E(!new)>(c: Setting<E>, h: Env<E>, exprs: seq<Expr<E>>, rounds: seq<Round<E>>,
                                     current: seq<Expr<E>>, limit: nat)
  {
    && |rounds| == limit && (exists t :: CandidateOf(c, current, t))
    && (Capped(c) ==> limit < c.cfg.maxNumElimination)
    && (limit <= Volume(exprs) || !Agreeing(PlaySet(c.r, h, rounds)))
  }

  lemma SomeUpcoming<E(!new)>(c: Setting<E>, h: Env<E>, exprs: seq<Expr<E>>, rounds: seq<Round<E>>,
                              current: seq<Expr<E>>, eliminated: seq<Expr<E>>, newVars: seq<Meta>, rd: Round<E>)
    requires c.r.Lawful() && AllBuilt(c.r, h, exprs) && 0 <= c.bound && Chain(c, h, exprs, rounds)
    requires Upcoming(c, h, exprs, rounds, current, eliminated, newVars, Some(rd))
    ensures StillOpen(c, h, exprs, rounds, current, |rounds|)
  {
    AgreeingRunEnds(c, h, exprs, rounds);
    assert CandidateOf(c, current, rd.target);
  }

  lemma NoneUpcoming<E(!new)>(c: Setting<E>, h: Env<E>, exprs: seq<Expr<E>>, rounds: seq<Round<E>>,
                              current: seq<Expr<E>>, eliminated: seq<Expr<E>>, newVars: seq<Meta>)
    requires Upcoming(c, h, exprs, rounds, current, eliminated, newVars, None)
    ensures MayStop(c, current, |rounds|)
  {
  }

  /** ReduceDegreeOfExpressions, up to a number of rounds that may be as large as one likes. More
      rounds than the size of the input are met only without a cap, in a run that compares
      expressions of one hash and different sizes, or a constant with an equal hash. */
  method ReduceDegree<E(==,!new)>(c: Setting<E>, h: Env<E>, exprs: seq<Expr<E>>, limit: nat)
    returns (out: Reduction<E>, ghost rounds: seq<Round<E>>)
    requires c.r.Lawful() && AllBuilt(c.r, h, exprs)
    ensures out.Panic? <==> c.bound <= 1 || exists i :: 0 <= i < |exprs| && ListsElim(exprs[i])
    ensures !out.Panic? ==> Output(c, h, exprs, rounds, out.exprs, out.eliminated, out.newVars)
    ensures out.Reduced? ==> MayStop(c, out.exprs, |rounds|) && (Capped(c) ==> |rounds| <= c.cfg.maxNumElimination)
    ensures out.Unfinished? ==> StillOpen(c, h, exprs, rounds, out.exprs, limit)
  {
    rounds := [];
    var elim := HasElim(exprs);
    if elim || c.bound <= 1 { return Panic, rounds; }
    var current, eliminated, newVars, rd;
    current, eliminated, newVars, rd, rounds := TakeRounds(c, h, exprs, limit);
    if rd.None? {
      NoneUpcoming(c, h, exprs, rounds, current, eliminated, newVars);
      return Reduced(current, eliminated, newVars), rounds;
    }
    SomeUpcoming(c, h, exprs, rounds, current, eliminated, newVars, rd.value);
    out := Unfinished(current, eliminated, newVars);
  }

  /** The check at the start is exact where equal hashes mean equal variables: what passes it
      mentions no eliminated variable. */
  lemma CheckedSound<E(!new)>(c: Setting<E>, h: Env<E>, exprs: seq<Expr<E>>)
    requires AllBuilt(c.r, h, exprs)
    requires forall i :: 0 <= i < |exprs| ==> SameVars(Subs(exprs[i])) && !ListsElim(exprs[i])
    ensures Sound(c.r, h, exprs, 0)
  {
    forall i | 0 <= i < |exprs| ensures ElimsBelow(exprs[i], 0) {
      HashesLeaves(c.r, h, exprs[i]);
      CheckIsExact(c.r, h, exprs[i]);
    }
  }

  /** What the caller gets: when the reduction did not panic, every reduced expression has the value of
      its original, and every eliminated one is within the bound and mentions only earlier variables. */
  lemma ReducedMeaning<E(!new)>(c: Setting<E>, h: Env<E>, exprs: seq<Expr<E>>, rounds: seq<Round<E>>,
                                reduced: seq<Expr<E>>, eliminated: seq<Expr<E>>, newVars: seq<Meta>, env: Env<E>)
    requires c.r.Lawful() && c.bound > 1 && AllBuilt(c.r, h, exprs)
    requires forall i :: 0 <= i < |exprs| ==> SameVars(Subs(exprs[i])) && !ListsElim(exprs[i])
    requires Output(c, h, exprs, rounds, reduced, eliminated, newVars)
    requires Faithful(c.r, PlaySet(c.r, h, rounds), Extended(c.r, env, rounds, |rounds|))
    requires Separated(PlaySet(c.r, h, rounds))
    ensures |reduced| == |exprs|
    ensures forall i :: 0 <= i < |exprs| ==>
              Eval(c.r, reduced[i], Extended(c.r, env, rounds, |rounds|)) == Eval(c.r, exprs[i], env)
    ensures forall k :: 0 <= k < |eliminated| ==> SoundTarget(c, h, eliminated[k], k)
  {
    CheckedSound(c, h, exprs);
    ChainKeeps(c, h, exprs, rounds);
    forall i | 0 <= i < |exprs|
      ensures Eval(c.r, reduced[i], Extended(c.r, env, rounds, |rounds|)) == Eval(c.r, exprs[i], env)
    {
      ReductionMeaning(c, h, exprs, rounds, env, i);
    }
    forall k | 0 <= k < |eliminated| ensures SoundTarget(c, h, eliminated[k], k) {
      ChainTargets(c, h, exprs, rounds, k);
    }
  }

  lemma FirstRound<E(!new)>(c: Setting<E>, h: Env<E>, exprs: seq<Expr<E>>, rounds: seq<Round<E>>)
    requires Chain(c, h, exprs, rounds)
    ensures rounds != [] ==> exists i :: 0 <= i < |exprs| && OverBound(c, exprs[i])
  {
    if rounds != [] {
      ChainAt(c, h, exprs, rounds, 0);
      assert rounds[..0] == [];
    }
  }

  /** Expressions within the bound have no rounds, so they agree trivially. */
  lemma WithinBoundAgrees<E(!new)>(c: Setting<E>, h: Env<E>, exprs: seq<Expr<E>>)
    requires forall i :: 0 <= i < |exprs| ==> !OverBound(c, exprs[i])
    ensures AlwaysAgreeing(c, h, exprs)
  {
    forall rounds | Chain(c, h, exprs, rounds) ensures Agreeing(PlaySet(c.r, h, rounds)) {
      FirstRound(c, h, exprs, rounds);
    }
  }

  lemma VolumeNonNegative<E(!new)>(r: Ring<E>, h: Env<E>, es: seq<Expr<E>>)
    requires AllBuilt(r, h, es)
    ensures Volume(es) >= 0
  {
    AllPositive(r, es);
    var ones := seq(|es|, _ => 1);
    TotalIsLoad(ones, SizesOf(es));
    LoadPositive(Sum, ones, SizesOf(es));
  }

  /** A run that compares only agreeing expressions has no more rounds than the size of its input. */
  lemma AgreeingRunEnds<E(!new)>(c: Setting<E>, h: Env<E>, exprs: seq<Expr<E>>, rounds: seq<Round<E>>)
    requires c.r.Lawful() && 0 <= c.bound && AllBuilt(c.r, h, exprs) && Chain(c, h, exprs, rounds)
    ensures Agreeing(PlaySet(c.r, h, rounds)) ==> |rounds| <= Volume(exprs)
  {
    if Agreeing(PlaySet(c.r, h, rounds)) {
      RunBounded(c, h, exprs, rounds, PlaySet(c.r, h, rounds));
      ChainBuilds(c, h, exprs, rounds);
      VolumeNonNegative(c.r, h, Current(exprs, rounds));
    }
  }

  // ----- rounds that find nothing -----

  /** Every candidate of clear expressions is found in one of them. */
  lemma CandidateFound<E(!new)>(c: Setting<E>, h: Env<E>, current: seq<Expr<E>>, t: Expr<E>, w: Expr<E>)
    requires c.r.Lawful() && AllBuilt(c.r, h, current) && CandidateOf(c, current, t)
    requires forall i :: 0 <= i < |current| ==> Clear(current[i])
    ensures exists i :: 0 <= i < |current| && Occurs(c.r, current[i], t, w)
  {
    var i :| 0 <= i < |current| && OverBound(c, current[i]) && c.Offered(current[i], t);
    OfferedOccurs(c, h, current[i], t, w);
  }

  /** No expression of the list has an occurrence of t. */
  ghost predicate Missed<E(!new)>(r: Ring<E>, es: seq<Expr<E>>, t: Expr<E>) {
    forall i :: 0 <= i < |es| ==> !Occurs(r, es[i], t, t)
  }

  lemma MissedRound<E(!new)>(c: Setting<E>, h: Env<E>, rd: Round<E>, k: nat)
    requires IsRound(c, h, rd, k) && Missed(c.r, rd.before, rd.target)
    ensures rd.after == rd.before
  {
    MissedAll(c.r, rd.before, rd.target, Fresh(c.r, h, k));
  }

  lemma MissedAll<E(!new)>(r: Ring<E>, es: seq<Expr<E>>, t: Expr<E>, w: Expr<E>)
    requires Missed(r, es, t)
    ensures SubstituteAll(r, es, t, w) == es
  {
    forall i | 0 <= i < |es| ensures Substitute(r, es[i], t, w) == es[i] {
      if Occurs(r, es[i], t, w) { OccursAlike(r, es[i], t, w, t); }
      MissedUnchanged(r, es[i], t, w);
    }
  }

  /** A candidate that is missed everywhere stays a candidate: there are runs of every length. */
  lemma {:induction false} EndlessRun<E(!new)>(c: Setting<E>, h: Env<E>, exprs: seq<Expr<E>>, t: Expr<E>, n: nat)
    returns (rounds: seq<Round<E>>)
    requires CandidateOf(c, exprs, t) && Missed(c.r, exprs, t)
    ensures |rounds| == n && Chain(c, h, exprs, rounds) && Current(exprs, rounds) == exprs
  {
    if n == 0 { return []; }
    var front := EndlessRun(c, h, exprs, t, n - 1);
    rounds := front + [Round(exprs, t, exprs)];
    EndlessStep(c, h, exprs, t, front, rounds);
  }

  lemma EndlessStep<E(!new)>(c: Setting<E>, h: Env<E>, exprs: seq<Expr<E>>, t: Expr<E>, front: seq<Round<E>>,
                             rounds: seq<Round<E>>)
    requires CandidateOf(c, exprs, t) && Missed(c.r, exprs, t)
    requires Chain(c, h, exprs, front) && Current(exprs, front) == exprs
    requires rounds == front + [Round(exprs, t, exprs)]
    ensures Chain(c, h, exprs, rounds) && Current(exprs, rounds) == exprs
  {
    MissedRoundIsRound(c, h, exprs, t, |front|);
    ChainSnoc(c, h, exprs, front, Round(exprs, t, exprs));
  }

  lemma MissedRoundIsRound<E(!new)>(c: Setting<E>, h: Env<E>, exprs: seq<Expr<E>>, t: Expr<E>, k: nat)
    requires CandidateOf(c, exprs, t) && Missed(c.r, exprs, t)
    ensures IsRound(c, h, Round(exprs, t, exprs), k)
  {
    MissedAll(c.r, exprs, t, Fresh(c.r, h, k));
  }
}
