/** Replacing a sub-expression, or a sub-product, by another expression. */
module Substitution {
  import opened Algebra
  import opened Expressions
  import opened Simplification
  import opened NormalForm
  import opened Replaying
  import opened Factoring
  import opened Wrappers

  /** What the constructors build: well-formed, normal and correctly hashed. */
  ghost predicate Built<E(!new)>(r: Ring<E>, h: Env<E>, e: Expr<E>) {
    WellFormed(e) && Normal(r, e) && HashValid(r, h, e)
  }

  /** buildFactoredProduct: the replacement times the remaining factors. */
  function FactoredProduct<E(==,!new)>(r: Ring<E>, v: Expr<E>, items: seq<Expr<E>>, ks: seq<int>): Expr<E>
    requires |items| == |ks|
  {
    if items == [] then v else NewNary(r, Prod, [v] + items, [1] + ks)
  }

  /** substituteSubProduct. */
  function Factored<E(==,!new)>(r: Ring<E>, e: Expr<E>, t: Expr<E>, v: Expr<E>): Option<Expr<E>> {
    if Nested(Prod, e) && Nested(Prod, t) then
      match FactorOut(e.children, e.op.ks, t.children, t.op.ks)
      case Some(rest) => Some(FactoredProduct(r, v, rest.0, rest.1))
      case None => None
    else None
  }

  /** substituteExpr. */
  function Substitute<E(==,!new)>(r: Ring<E>, e: Expr<E>, t: Expr<E>, v: Expr<E>): Expr<E>
    decreases e
  {
    if e.esh == t.esh then v
    else if Factored(r, e, t, v).Some? then Factored(r, e, t, v).value
    else if e.children == [] then e
    else
      var cs := seq(|e.children|, i requires 0 <= i < |e.children| => Substitute(r, e.children[i], t, v));
      if cs == e.children then e else Rebuild(r, e, cs)
  }

  ghost function SubstituteAll<E(!new)>(r: Ring<E>, es: seq<Expr<E>>, t: Expr<E>, v: Expr<E>): (cs: seq<Expr<E>>)
    ensures |cs| == |es|
  {
    seq(|es|, i requires 0 <= i < |es| => Substitute(r, es[i], t, v))
  }

  /** The node is handled through its children. */
  ghost predicate Descends<E(!new)>(r: Ring<E>, e: Expr<E>, t: Expr<E>, v: Expr<E>) {
    e.esh != t.esh && Factored(r, e, t, v).None? && e.children != []
  }

  lemma SubstituteStep<E(!new)>(r: Ring<E>, e: Expr<E>, t: Expr<E>, v: Expr<E>)
    requires Descends(r, e, t, v)
    ensures var cs := SubstituteAll(r, e.children, t, v);
            Substitute(r, e, t, v) == if cs == e.children then e else Rebuild(r, e, cs)
  {
    assert seq(|e.children|, i requires 0 <= i < |e.children| => Substitute(r, e.children[i], t, v))
           == SubstituteAll(r, e.children, t, v);
  }

  // ----- the result is built like any other expression -----

  lemma FactoredItems<E(!new)>(r: Ring<E>, e: Expr<E>, t: Expr<E>, v: Expr<E>)
    returns (items: seq<Expr<E>>, ks: seq<int>)
    requires Factored(r, e, t, v).Some?
    ensures Remaining(items, ks, e.children) && Factored(r, e, t, v).value == FactoredProduct(r, v, items, ks)
    ensures FactorOut(e.children, e.op.ks, t.children, t.op.ks) == Some((items, ks))
  {
    var m := Subtract(BuildMap(e.children, e.op.ks), t.children, t.op.ks).value;
    var g := Collect(m, e.children);
    CollectRemaining(m, e.children);
    items, ks := g.items, g.ks;
  }

  lemma ConsWeights(ks: seq<int>)
    requires Weights(Prod, ks)
    ensures Weights(Prod, [1] + ks)
  {
    forall i | 0 <= i < |[1] + ks| ensures Weight(Prod, ([1] + ks)[i]) {
      if i > 0 { assert Weight(Prod, ks[i - 1]); }
    }
  }

  lemma ConsBuilt<E(!new)>(r: Ring<E>, h: Env<E>, v: Expr<E>, items: seq<Expr<E>>)
    requires Built(r, h, v) && forall i :: 0 <= i < |items| ==> Built(r, h, items[i])
    ensures AllWellFormed([v] + items) && AllNormal(r, [v] + items) && AllHashValid(r, h, [v] + items)
  {
    var all := [v] + items;
    forall i | 0 <= i < |all| ensures Built(r, h, all[i]) {
      if i > 0 { assert Built(r, h, items[i - 1]); }
    }
  }

  lemma FactoredBuilt<E(!new)>(r: Ring<E>, h: Env<E>, e: Expr<E>, t: Expr<E>, v: Expr<E>)
    requires r.Lawful() && Built(r, h, e) && Built(r, h, v) && Factored(r, e, t, v).Some?
    ensures Built(r, h, Factored(r, e, t, v).value)
  {
    var items, ks := FactoredItems(r, e, t, v);
    if items != [] {
      var all := [v] + items;
      forall i | 0 <= i < |items| ensures Built(r, h, items[i]) { assert items[i] in e.children; }
      ConsBuilt(r, h, v, items);
      ConsWeights(ks);
      NewNaryNormal(r, Prod, all, [1] + ks);
      NewNaryHash(r, h, Prod, all, [1] + ks);
    }
  }

  lemma {:induction false} SubstituteBuilt<E(!new)>(r: Ring<E>, h: Env<E>, e: Expr<E>, t: Expr<E>, v: Expr<E>)
    requires r.Lawful() && Built(r, h, e) && Built(r, h, v)
    ensures Built(r, h, Substitute(r, e, t, v))
  {
    if Descends(r, e, t, v) {
      var cs := SubstituteAll(r, e.children, t, v);
      forall i | 0 <= i < |cs| ensures Built(r, h, cs[i]) { SubstituteBuilt(r, h, e.children[i], t, v); }
      SubstituteStep(r, e, t, v);
      RebuildNormal(r, e, cs);
      RebuildHash(r, h, e, cs);
    } else if e.esh != t.esh && Factored(r, e, t, v).Some? {
      FactoredBuilt(r, h, e, t, v);
    }
  }

  // ----- the value -----

  /** Equal hashes belong to two constants or to none. */
  ghost predicate Separated<E(!new)>(s: set<Expr<E>>) {
    forall a, b {:trigger SameHash(a, b)} :: a in s && b in s && SameHash(a, b) ==> (a.op.Constant? <==> b.op.Constant?)
  }

  /** Then normal factors have pairwise distinct hashes. */
  lemma TermsDistinct<E(!new)>(r: Ring<E>, kind: Kind, items: seq<Expr<E>>, ks: seq<int>, s: set<Expr<E>>)
    requires NormalTerms(r, kind, items, ks) && Separated(s) && Within(items, s)
    ensures DistinctHashes(items)
  {
    forall i, j | 0 <= i < j < |items| ensures items[i].esh != items[j].esh {
      if SameHash(items[i], items[j]) { }
    }
  }

  lemma NormalDistinct<E(!new)>(r: Ring<E>, e: Expr<E>, s: set<Expr<E>>)
    requires Normal(r, e) && e.op.Nary? && Separated(s) && Within(e.children, s)
    ensures DistinctHashes(e.children)
  {
    TermsDistinct(r, e.op.kind, e.children, e.op.ks, s);
  }

  /** The set holds all parts of e, t and v and of every substituted part of e. */
  ghost predicate Play<E(!new)>(r: Ring<E>, e: Expr<E>, t: Expr<E>, v: Expr<E>, s: set<Expr<E>>) {
    && Subs(e) <= s && Subs(t) <= s && Subs(v) <= s
    && forall x :: x in Subs(e) ==> Subs(Substitute(r, x, t, v)) <= s
  }

  lemma PlayChild<E(!new)>(r: Ring<E>, e: Expr<E>, t: Expr<E>, v: Expr<E>, s: set<Expr<E>>, i: nat)
    requires Play(r, e, t, v, s) && i < |e.children|
    ensures Play(r, e.children[i], t, v, s) && Subs(Substitute(r, e.children[i], t, v)) <= s
  {
    ChildSubs(e, i);
  }

  lemma ChildrenIn<E(!new)>(e: Expr<E>, s: set<Expr<E>>)
    requires Subs(e) <= s
    ensures forall i :: 0 <= i < |e.children| ==> e.children[i] in s && Subs(e.children[i]) <= s
  {
    forall i | 0 <= i < |e.children| ensures e.children[i] in s && Subs(e.children[i]) <= s { ChildSubs(e, i); }
  }

  lemma {:induction false} KeptVals<E(!new)>(r: Ring<E>, cs: seq<Expr<E>>, ks: seq<int>, env: Env<E>)
    requires |cs| == |ks|
    ensures Vals(r, KeptItems(cs, ks), env) == Kept(Vals(r, cs, env), ks)
  {
    if cs != [] {
      var n := |cs| - 1;
      KeptVals(r, cs[..n], ks[..n], env);
      assert Vals(r, cs, env)[..n] == Vals(r, cs[..n], env);
    }
  }

  /** The product equals the target times the remaining factors. */
  lemma FactorOutValue<E(!new)>(r: Ring<E>, e: Expr<E>, t: Expr<E>, items: seq<Expr<E>>, ks: seq<int>, s: set<Expr<E>>,
                                env: Env<E>)
    requires r.Lawful() && WellFormed(e) && Normal(r, e) && WellFormed(t) && Nested(Prod, e) && Nested(Prod, t)
    requires Subs(e) <= s && Subs(t) <= s && Faithful(r, s, env) && Separated(s) && |items| == |ks|
    requires FactorOut(e.children, e.op.ks, t.children, t.op.ks) == Some((items, ks))
    ensures Eval(r, e, env) == r.Mul(Eval(r, t, env), Fold(r, Prod, ks, Vals(r, items, env)))
  {
    var cs, ts := e.children, t.children;
    var vs, ws := Vals(r, cs, env), Vals(r, ts, env);
    ChildrenIn(e, s);
    ChildrenIn(t, s);
    NormalDistinct(r, e, s);
    forall i, j | 0 <= i < |cs| && 0 <= j < |ts| && cs[i].esh == ts[j].esh ensures vs[i] == ws[j] {
      assert SameHash(cs[i], ts[j]);
    }
    var exps := FactorOutFold(r, Prod, cs, e.op.ks, vs, ts, t.op.ks, ws);
    KeptVals(r, cs, exps, env);
    EvalStep(r, e, env);
    EvalStep(r, t, env);
    assert r.At2(Fold(r, Prod, ks, Vals(r, items, env)), Eval(r, t, env));
  }

  lemma ConsSubs<E(!new)>(v: Expr<E>, items: seq<Expr<E>>, s: set<Expr<E>>)
    requires Subs(v) <= s && AllSubs(items) <= s
    ensures AllSubs([v] + items) <= s
  {
    forall y | y in AllSubs([v] + items) ensures y in s {
      var i :| 0 <= i < |[v] + items| && y in Subs(([v] + items)[i]);
      if i > 0 {
        assert y in Subs(items[i - 1]);
        assert y in AllSubs(items);
      }
    }
  }

  lemma FactoredProductValue<E(!new)>(r: Ring<E>, v: Expr<E>, items: seq<Expr<E>>, ks: seq<int>, s: set<Expr<E>>,
                                      env: Env<E>)
    requires r.Lawful() && |items| == |ks| && Weights(Prod, ks) && WellFormed(v) && AllWellFormed(items)
    requires Faithful(r, s, env) && Subs(v) <= s && AllSubs(items) <= s
    ensures Eval(r, FactoredProduct(r, v, items, ks), env)
            == r.Mul(Eval(r, v, env), Fold(r, Prod, ks, Vals(r, items, env)))
  {
    var x := Eval(r, v, env);
    if items == [] {
      assert r.At2(x, r.one) && r.At1(x);
    } else {
      var all := [v] + items;
      ConsSubs(v, items, s);
      ConsWeights(ks);
      NewNaryValue(r, Prod, all, [1] + ks, s, env);
      FlatStep(r, Prod, [v], [1], items, ks, env);
      SingleValue(r, Prod, v, 1, env);
      ActOne(r, Prod, x);
    }
  }

  lemma FactoredValue<E(!new)>(r: Ring<E>, h: Env<E>, e: Expr<E>, t: Expr<E>, v: Expr<E>, s: set<Expr<E>>, env: Env<E>)
    requires r.Lawful() && Built(r, h, e) && Built(r, h, t) && Built(r, h, v) && Factored(r, e, t, v).Some?
    requires Faithful(r, s, env) && Separated(s) && Subs(e) <= s && Subs(t) <= s && Subs(v) <= s
    requires Eval(r, v, env) == Eval(r, t, env)
    ensures Eval(r, Factored(r, e, t, v).value, env) == Eval(r, e, env)
  {
    var items, ks := FactoredItems(r, e, t, v);
    ChildrenIn(e, s);
    forall i | 0 <= i < |items| ensures WellFormed(items[i]) && Subs(items[i]) <= s {
      assert items[i] in e.children;
    }
    FactorOutValue(r, e, t, items, ks, s, env);
    FactoredProductValue(r, v, items, ks, s, env);
  }

  /** Substitution keeps the value wherever the replacement has the value of the target and the
      hashes in play are faithful. */
  lemma {:induction false} SubstituteValue<E(!new)>(r: Ring<E>, h: Env<E>, e: Expr<E>, t: Expr<E>, v: Expr<E>,
                                                    s: set<Expr<E>>, env: Env<E>)
    requires r.Lawful() && Built(r, h, e) && Built(r, h, t) && Built(r, h, v)
    requires Faithful(r, s, env) && Separated(s) && Play(r, e, t, v, s)
    requires Eval(r, v, env) == Eval(r, t, env)
    ensures Eval(r, Substitute(r, e, t, v), env) == Eval(r, e, env)
  {
    if e.esh == t.esh {
      assert SameHash(e, t);
    } else if Descends(r, e, t, v) {
      var cs := SubstituteAll(r, e.children, t, v);
      forall i | 0 <= i < |cs|
        ensures WellFormed(cs[i]) && Subs(cs[i]) <= s && Eval(r, cs[i], env) == Eval(r, e.children[i], env)
      {
        PlayChild(r, e, t, v, s, i);
        SubstituteBuilt(r, h, e.children[i], t, v);
        SubstituteValue(r, h, e.children[i], t, v, s, env);
      }
      assert Vals(r, cs, env) == Vals(r, e.children, env);
      SubstituteStep(r, e, t, v);
      EvalStep(r, e, env);
      RebuildValue(r, e, cs, s, env);
    } else if Factored(r, e, t, v).Some? {
      FactoredValue(r, h, e, t, v, s, env);
    }
  }
}
