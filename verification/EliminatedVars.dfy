/** Which variables an expression mentions after substitution. */
module EliminatedVars {
  import opened Algebra
  import opened Expressions
  import opened Simplification
  import opened NormalForm
  import opened Replaying
  import opened Substitution
  import opened SubProducts
  import opened VariableOrder
  import Boards

  ghost function AllVars<E(!new)>(es: seq<Expr<E>>): set<Meta> {
    set i, m | 0 <= i < |es| && m in Vars(es[i]) :: m
  }

  lemma {:induction false} SubsVars<E(!new)>(e: Expr<E>, x: Expr<E>)
    requires x in Subs(e)
    ensures Vars(x) <= Vars(e)
  {
    if x != e {
      var i :| 0 <= i < |e.children| && x in Subs(e.children[i]);
      SubsVars(e.children[i], x);
      ChildVars(e, i);
    }
  }

  lemma AllSubsVars<E(!new)>(es: seq<Expr<E>>, x: Expr<E>)
    requires x in AllSubs(es)
    ensures Vars(x) <= AllVars(es)
  {
    var i :| 0 <= i < |es| && x in Subs(es[i]);
    SubsVars(es[i], x);
  }

  lemma SourcedVars<E(!new)>(x: Expr<E>, items: seq<Expr<E>>)
    requires Sourced(x, items)
    ensures Vars(x) <= AllVars(items)
  {
    if x in AllSubs(items) { AllSubsVars(items, x); }
  }

  lemma NewNaryVars<E(!new)>(r: Ring<E>, kind: Kind, items: seq<Expr<E>>, ks: seq<int>)
    requires |items| == |ks| && Weights(kind, ks) && AllWellFormed(items)
    ensures Vars(NewNary(r, kind, items, ks)) <= AllVars(items)
  {
    SimplifyTerms(r, kind, items, ks);
    var (ts, ns) := Simplify(r, kind, items, ks);
    forall i | 0 <= i < |ts| ensures Vars(ts[i]) <= AllVars(items) { SourcedVars(ts[i], items); }
    FromTermsVars(r, kind, ts, ns, AllVars(items));
  }

  lemma FromTermsVars<E(!new)>(r: Ring<E>, kind: Kind, ts: seq<Expr<E>>, ns: seq<int>, ms: set<Meta>)
    requires |ts| == |ns| && forall i :: 0 <= i < |ts| ==> Vars(ts[i]) <= ms
    ensures Vars(FromTerms(r, kind, ts, ns)) <= ms
  {
  }

  lemma RebuildVars<E(!new)>(r: Ring<E>, e: Expr<E>, cs: seq<Expr<E>>)
    requires WellFormed(e) && e.children != [] && |cs| == |e.children| && AllWellFormed(cs)
    ensures Vars(Rebuild(r, e, cs)) <= AllVars(cs)
  {
    if e.op.Nary? {
      NewNaryVars(r, e.op.kind, cs, e.op.ks);
    } else {
      var x := Rebuild(r, e, cs);
      if |cs| > 2 { assert x.children == cs; }
    }
  }

  lemma FactoredVars<E(!new)>(r: Ring<E>, e: Expr<E>, t: Expr<E>, v: Expr<E>)
    requires WellFormed(e) && WellFormed(v) && Factored(r, e, t, v).Some?
    ensures Vars(Factored(r, e, t, v).value) <= Vars(e) + Vars(v)
  {
    var items, ks := FactoredItems(r, e, t, v);
    if items != [] {
      var all := [v] + items;
      forall i | 0 <= i < |items| ensures WellFormed(items[i]) && Vars(items[i]) <= Vars(e) {
        assert items[i] in e.children;
      }
      assert AllWellFormed(all);
      ConsWeights(ks);
      NewNaryVars(r, Prod, all, [1] + ks);
      ConsVars(v, items, Vars(e));
    }
  }

  lemma ConsVars<E(!new)>(v: Expr<E>, items: seq<Expr<E>>, ms: set<Meta>)
    requires forall i :: 0 <= i < |items| ==> Vars(items[i]) <= ms
    ensures AllVars([v] + items) <= ms + Vars(v)
  {
    var all := [v] + items;
    forall m | m in AllVars(all) ensures m in ms + Vars(v) {
      var i :| 0 <= i < |all| && m in Vars(all[i]);
      if i > 0 { assert all[i] == items[i - 1]; }
    }
  }

  /** Substitution brings in the variables of the replacement only. */
  lemma {:induction false} SubstituteVars<E(!new)>(r: Ring<E>, h: Env<E>, e: Expr<E>, t: Expr<E>, v: Expr<E>)
    requires r.Lawful() && Built(r, h, e) && Built(r, h, v)
    ensures Vars(Substitute(r, e, t, v)) <= Vars(e) + Vars(v)
  {
    if Descends(r, e, t, v) {
      var cs := SubstituteAll(r, e.children, t, v);
      forall i | 0 <= i < |cs| ensures WellFormed(cs[i]) && Vars(cs[i]) <= Vars(e) + Vars(v) {
        SubstituteBuilt(r, h, e.children[i], t, v);
        SubstituteVars(r, h, e.children[i], t, v);
        ChildVars(e, i);
      }
      SubstituteStep(r, e, t, v);
      RebuildVars(r, e, cs);
    } else if e.esh != t.esh && Factored(r, e, t, v).Some? {
      FactoredVars(r, e, t, v);
    }
  }

  lemma SubProductVars<E(!new)>(r: Ring<E>, h: Env<E>, e: Expr<E>, v: seq<int>)
    requires Built(r, h, e) && Choice(e, v)
    ensures Vars(SubProduct(r, e.children, v)) <= Vars(e)
  {
    SubProductTerms(r, h, e, v);
    var ts, ns := KeptItems(e.children, v), KeptKs(v);
    NewNaryVars(r, Prod, ts, ns);
    forall m | m in AllVars(ts) ensures m in Vars(e) {
      var i :| 0 <= i < |ts| && m in Vars(ts[i]);
      assert ts[i] in e.children;
    }
  }

  /** The value depends on the mentioned variables only. */
  lemma {:induction false} EvalVars<E(!new)>(r: Ring<E>, e: Expr<E>, env: Env<E>, env': Env<E>)
    requires forall m :: m in Vars(e) ==> Lookup(r, env, m) == Lookup(r, env', m)
    ensures Eval(r, e, env) == Eval(r, e, env')
  {
    if e.op.Nary? || e.op.PolyEval? {
      forall i | 0 <= i < |e.children| ensures Eval(r, e.children[i], env) == Eval(r, e.children[i], env') {
        ChildVars(e, i);
        EvalVars(r, e.children[i], env, env');
      }
      assert Vals(r, e.children, env) == Vals(r, e.children, env');
      EvalStep(r, e, env);
      EvalStep(r, e, env');
    } else if e.op.Variable? {
      assert e.op.meta in Vars(e);
    }
  }

  // ----- AssertHasNoElimVarMetadata -----

  /** The only eliminated variables mentioned are the first n. */
  ghost predicate ElimsBelow<E(!new)>(e: Expr<E>, n: nat) {
    forall m :: m in Vars(e) && m.Eliminated? ==> m.id < n
  }

  predicate ListsElim<E(==)>(e: Expr<E>) {
    var nodes := Boards.Board(e).nodes;
    exists m :: m in Boards.VariablesOf(nodes, |nodes|) && m.Eliminated?
  }

  method HasElim<E(==)>(exprs: seq<Expr<E>>) returns (found: bool)
    ensures found <==> exists i :: 0 <= i < |exprs| && ListsElim(exprs[i])
  {
    for i := 0 to |exprs|
      invariant forall j :: 0 <= j < i ==> !ListsElim(exprs[j])
    {
      if ListsElim(exprs[i]) { return true; }
    }
    found := false;
  }

  /** Where equal hashes mean equal variables the check finds every eliminated variable. */
  lemma CheckIsExact<E(!new)>(r: Ring<E>, h: Env<E>, e: Expr<E>)
    requires WellFormed(e) && LeavesHashed(r, h, e) && SameVars(Subs(e))
    ensures ListsElim(e) <==> !ElimsBelow(e, 0)
  {
    BoardCovers(r, h, e);
    var nodes := Boards.Board(e).nodes;
    if ListsElim(e) {
      var m :| m in Boards.VariablesOf(nodes, |nodes|) && m.Eliminated?;
      ListsAgree(r, h, e);
      WalkVars([], e);
    }
  }

  lemma BoardCovers<E(!new)>(r: Ring<E>, h: Env<E>, e: Expr<E>)
    requires WellFormed(e) && LeavesHashed(r, h, e) && SameVars(Subs(e))
    ensures forall m :: m in Vars(e) ==> m in Listed(Boards.Board(e).nodes)
  {
    SubsClosed(e);
    forall x | x in Subs(e) ensures WellFormed(x) && LeavesHashed(r, h, x) {
      SubsWellFormed(e, x);
      SubsLeavesHashed(r, h, e, x);
    }
    AnchorWalk(r, h, Boards.Dag([], map[]), e, Subs(e));
  }

  lemma {:induction false} WalkVars<E(!new)>(seen: seq<Meta>, e: Expr<E>)
    ensures forall m :: m in Walk(seen, e) ==> m in seen || m in Vars(e)
    decreases e, 1
  {
    if !e.op.Variable? {
      WalkAllVars(seen, e.children);
      forall m | m in Walk(seen, e) && m !in seen ensures m in Vars(e) {
        assert m in AllVars(e.children);
        var i :| 0 <= i < |e.children| && m in Vars(e.children[i]);
      }
    }
  }

  lemma {:induction false} WalkAllVars<E(!new)>(seen: seq<Meta>, es: seq<Expr<E>>)
    ensures forall m :: m in WalkAll(seen, es) ==> m in seen || m in AllVars(es)
    decreases es, 0
  {
    if es != [] {
      var n := |es| - 1;
      WalkAllVars(seen, es[..n]);
      WalkVars(WalkAll(seen, es[..n]), es[n]);
      forall m | m in AllVars(es[..n]) ensures m in AllVars(es) {
        var i :| 0 <= i < n && m in Vars(es[..n][i]);
        assert m in Vars(es[i]);
      }
    }
  }
}
