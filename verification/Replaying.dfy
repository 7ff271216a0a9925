/** Rebuilding a node over new children, and Replay: substitution for variables. */
module Replaying {
  import opened Algebra
  import opened Expressions
  import opened Simplification
  import opened NormalForm

  /** The same operator over other children, through the simplifying constructors. */
  function Rebuild<E(==,!new)>(r: Ring<E>, e: Expr<E>, cs: seq<Expr<E>>): Expr<E> {
    match e.op
    case Nary(kind, ks) => if |ks| == |cs| then NewNary(r, kind, cs, ks) else e
    case PolyEval => if |cs| >= 2 then NewPolyEval(r, cs[0], cs[1..]) else e
    case _ => e
  }

  lemma RebuildValue<E(!new)>(r: Ring<E>, e: Expr<E>, cs: seq<Expr<E>>, s: set<Expr<E>>, env: Env<E>)
    requires r.Lawful() && WellFormed(e) && e.children != [] && |cs| == |e.children| && AllWellFormed(cs)
    requires Faithful(r, s, env) && AllSubs(cs) <= s
    ensures Eval(r, Rebuild(r, e, cs), env) == Apply(r, e.op, Vals(r, cs, env))
  {
    if e.op.Nary? {
      NewNaryValue(r, e.op.kind, cs, e.op.ks, s, env);
    } else {
      NewPolyEvalValue(r, cs[0], cs[1..], env);
      assert Vals(r, cs, env)[1..] == Vals(r, cs[1..], env);
    }
  }

  lemma RebuildHash<E(!new)>(r: Ring<E>, h: Env<E>, e: Expr<E>, cs: seq<Expr<E>>)
    requires r.Lawful() && WellFormed(e) && e.children != [] && |cs| == |e.children| && AllWellFormed(cs)
             && AllHashValid(r, h, cs)
    ensures WellFormed(Rebuild(r, e, cs)) && HashValid(r, h, Rebuild(r, e, cs))
    ensures Rebuild(r, e, cs).esh == Apply(r, e.op, Hashes(cs))
  {
    if e.op.Nary? {
      NewNaryWellFormed(r, e.op.kind, cs, e.op.ks);
      NewNaryHash(r, h, e.op.kind, cs, e.op.ks);
    } else {
      NewPolyEvalHash(r, h, cs[0], cs[1..]);
      assert Hashes(cs)[1..] == Hashes(cs[1..]);
    }
  }

  lemma RebuildNormal<E(!new)>(r: Ring<E>, e: Expr<E>, cs: seq<Expr<E>>)
    requires WellFormed(e) && e.children != [] && |cs| == |e.children| && AllWellFormed(cs) && AllNormal(r, cs)
    ensures Normal(r, Rebuild(r, e, cs)) && WellFormed(Rebuild(r, e, cs))
  {
    if e.op.Nary? { NewNaryNormal(r, e.op.kind, cs, e.op.ks); }
  }

  // ----- Replay -----

  type Translation<E> = map<Meta, Expr<E>>

  /** Replaces every variable in the map; nodes whose children do not change are kept. */
  function Replay<E(==,!new)>(r: Ring<E>, e: Expr<E>, tm: Translation<E>): Expr<E> {
    match e.op
    case Constant(_) => e
    case Variable(m) => if m in tm then tm[m] else e
    case _ =>
      var cs := seq(|e.children|, i requires 0 <= i < |e.children| => Replay(r, e.children[i], tm));
      if cs == e.children then e else Rebuild(r, e, cs)
  }

  ghost function ReplayAll<E(!new)>(r: Ring<E>, es: seq<Expr<E>>, tm: Translation<E>): (cs: seq<Expr<E>>)
    ensures |cs| == |es|
  {
    seq(|es|, i requires 0 <= i < |es| => Replay(r, es[i], tm))
  }

  lemma ReplayStep<E(!new)>(r: Ring<E>, e: Expr<E>, tm: Translation<E>)
    requires e.op.Nary? || e.op.PolyEval?
    ensures var cs := ReplayAll(r, e.children, tm);
            Replay(r, e, tm) == if cs == e.children then e else Rebuild(r, e, cs)
  {
    assert seq(|e.children|, i requires 0 <= i < |e.children| => Replay(r, e.children[i], tm))
      == ReplayAll(r, e.children, tm);
  }

  ghost predicate GoodTranslation<E(!new)>(r: Ring<E>, h: Env<E>, tm: Translation<E>) {
    forall m :: m in tm ==> WellFormed(tm[m]) && HashValid(r, h, tm[m])
  }

  /** The assignment that a translated expression sees. */
  ghost function Translated<E(!new)>(r: Ring<E>, tm: Translation<E>, env: Env<E>): Env<E> {
    map m | m in env.Keys + tm.Keys :: if m in tm then Eval(r, tm[m], env) else env[m]
  }

  /** A replayed expression is well-formed and correctly hashed, whatever collides. */
  lemma {:induction false} ReplayHash<E(!new)>(r: Ring<E>, h: Env<E>, e: Expr<E>, tm: Translation<E>)
    requires r.Lawful() && WellFormed(e) && HashValid(r, h, e) && GoodTranslation(r, h, tm)
    ensures WellFormed(Replay(r, e, tm)) && HashValid(r, h, Replay(r, e, tm))
  {
    if e.op.Nary? || e.op.PolyEval? {
      var cs := ReplayAll(r, e.children, tm);
      forall i | 0 <= i < |cs| ensures WellFormed(cs[i]) && HashValid(r, h, cs[i]) {
        ReplayHash(r, h, e.children[i], tm);
      }
      ReplayStep(r, e, tm);
      RebuildHash(r, h, e, cs);
    }
  }

  /** The set holds every sub-expression of every replayed part of e. */
  ghost predicate ReplayPlay<E(!new)>(r: Ring<E>, e: Expr<E>, tm: Translation<E>, s: set<Expr<E>>) {
    forall x :: x in Subs(e) ==> Subs(Replay(r, x, tm)) <= s
  }

  lemma ReplayPlayChild<E(!new)>(r: Ring<E>, e: Expr<E>, tm: Translation<E>, s: set<Expr<E>>, i: nat)
    requires ReplayPlay(r, e, tm, s) && i < |e.children|
    ensures ReplayPlay(r, e.children[i], tm, s) && Subs(Replay(r, e.children[i], tm)) <= s
  {
    ChildSubs(e, i);
  }

  /** Replay is substitution: its value is the value of e where every translated variable has
      the value of its translation. */
  lemma {:induction false} ReplayValue<E(!new)>(r: Ring<E>, h: Env<E>, e: Expr<E>, tm: Translation<E>, s: set<Expr<E>>,
                                                env: Env<E>)
    requires r.Lawful() && WellFormed(e) && HashValid(r, h, e) && GoodTranslation(r, h, tm)
    requires Faithful(r, s, env) && ReplayPlay(r, e, tm, s)
    ensures Eval(r, Replay(r, e, tm), env) == Eval(r, e, Translated(r, tm, env))
  {
    if e.op.Nary? || e.op.PolyEval? {
      var cs, env' := ReplayAll(r, e.children, tm), Translated(r, tm, env);
      forall i | 0 <= i < |cs|
        ensures WellFormed(cs[i]) && Subs(cs[i]) <= s && Eval(r, cs[i], env) == Eval(r, e.children[i], env')
      {
        ReplayPlayChild(r, e, tm, s, i);
        ReplayHash(r, h, e.children[i], tm);
        ReplayValue(r, h, e.children[i], tm, s, env);
      }
      assert Vals(r, cs, env) == Vals(r, e.children, env');
      ReplayStep(r, e, tm);
      EvalStep(r, e, env');
      if cs == e.children { EvalStep(r, e, env); } else { RebuildValue(r, e, cs, s, env); }
    }
  }

  /** At the hash point the theorem needs no hypothesis: the hash of a replayed expression is
      the value of e at the point where translated variables take the translated hashes. */
  lemma ReplayHashValue<E(!new)>(r: Ring<E>, h: Env<E>, e: Expr<E>, tm: Translation<E>)
    requires r.Lawful() && WellFormed(e) && HashValid(r, h, e) && GoodTranslation(r, h, tm)
    ensures Replay(r, e, tm).esh == Eval(r, e, Translated(r, tm, h))
  {
    var s := set x, y | x in Subs(e) && y in Subs(Replay(r, x, tm)) :: y;
    forall y | y in s ensures HashValid(r, h, y) {
      var x :| x in Subs(e) && y in Subs(Replay(r, x, tm));
      SubsWellFormed(e, x);
      SubsHashValid(r, h, e, x);
      ReplayHash(r, h, x, tm);
      SubsHashValid(r, h, Replay(r, x, tm), y);
    }
    FaithfulAtHashPoint(r, h, s);
    ReplayValue(r, h, e, tm, s, h);
    ReplayHash(r, h, e, tm);
    HashIsEval(r, h, Replay(r, e, tm));
  }

  lemma {:induction false} ReplayNormal<E(!new)>(r: Ring<E>, h: Env<E>, e: Expr<E>, tm: Translation<E>)
    requires r.Lawful() && WellFormed(e) && HashValid(r, h, e) && GoodTranslation(r, h, tm)
    requires Normal(r, e) && forall m :: m in tm ==> Normal(r, tm[m])
    ensures Normal(r, Replay(r, e, tm))
  {
    if e.op.Nary? || e.op.PolyEval? {
      var cs := ReplayAll(r, e.children, tm);
      forall i | 0 <= i < |cs| ensures WellFormed(cs[i]) && Normal(r, cs[i]) {
        ReplayHash(r, h, e.children[i], tm);
        ReplayNormal(r, h, e.children[i], tm);
      }
      ReplayStep(r, e, tm);
      RebuildNormal(r, e, cs);
    }
  }
}
