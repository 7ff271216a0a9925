/** The simplifying constructors: flattening, grouping of equal hashes, constant folding. */
module Simplification {
  import opened Algebra
  import opened Expressions

  // ----- specification of the simplifier -----

  /** Position of the first item with hash h, or the number of items. */
  function Find<E(==)>(items: seq<Expr<E>>, h: E): (i: nat)
    ensures i <= |items|
    ensures i < |items| ==> items[i].esh == h
    ensures forall j :: 0 <= j < i ==> items[j].esh != h
  {
    if items == [] then 0
    else if items[0].esh == h then 0
    else 1 + Find(items[1..], h)
  }

  /** The grouped non-constant terms and the accumulated constant. */
  datatype Acc<E> = Acc(items: seq<Expr<E>>, ks: seq<int>, konst: E)

  function AddTerm<E(==,!new)>(r: Ring<E>, kind: Kind, acc: Acc<E>, item: Expr<E>, k: int): (acc': Acc<E>)
    requires |acc.items| == |acc.ks|
    ensures |acc'.items| == |acc'.ks|
  {
    if k == 0 then acc
    else if item.op.Constant? then acc.(konst := Join(r, kind, acc.konst, Act(r, kind, item.op.val, k)))
    else
      var i := Find(acc.items, item.esh);
      if i < |acc.items| then acc.(ks := acc.ks[i := acc.ks[i] + k])
      else acc.(items := acc.items + [item], ks := acc.ks + [k])
  }

  function AddTerms<E(==,!new)>(r: Ring<E>, kind: Kind, acc: Acc<E>, items: seq<Expr<E>>, ks: seq<int>): (acc': Acc<E>)
    requires |items| == |ks| && |acc.items| == |acc.ks|
    ensures |acc'.items| == |acc'.ks|
    decreases |items|
  {
    if items == [] then acc
    else
      var n := |items| - 1;
      AddTerm(r, kind, AddTerms(r, kind, acc, items[..n], ks[..n]), items[n], ks[n])
  }

  function Nested<E>(kind: Kind, item: Expr<E>): bool {
    item.op.Nary? && item.op.kind == kind && |item.op.ks| == |item.children|
  }

  /** An item of the same kind contributes its own terms, any other item itself. */
  function TermsOf<E>(kind: Kind, item: Expr<E>): seq<Expr<E>> {
    if Nested(kind, item) then item.children else [item]
  }

  function WeightsOf<E>(kind: Kind, item: Expr<E>, k: int): (ks: seq<int>)
    ensures |ks| == |TermsOf(kind, item)|
  {
    if Nested(kind, item) then Scaled(k, item.op.ks) else [k]
  }

  /** The terms after expanding items of the same kind by one level. */
  function FlatItems<E>(kind: Kind, items: seq<Expr<E>>): seq<Expr<E>> {
    if items == [] then []
    else FlatItems(kind, items[..|items| - 1]) + TermsOf(kind, items[|items| - 1])
  }

  function FlatKs<E>(kind: Kind, items: seq<Expr<E>>, ks: seq<int>): (fs: seq<int>)
    requires |items| == |ks|
    ensures |fs| == |FlatItems(kind, items)|
  {
    if items == [] then []
    else
      var n := |items| - 1;
      FlatKs(kind, items[..n], ks[..n]) + WeightsOf(kind, items[n], ks[n])
  }

  /** Removal of the terms with weight zero. */
  function KeptItems<E>(items: seq<Expr<E>>, ks: seq<int>): seq<Expr<E>>
    requires |items| == |ks|
  {
    if items == [] then []
    else
      var n := |items| - 1;
      KeptItems(items[..n], ks[..n]) + if ks[n] != 0 then [items[n]] else []
  }

  function KeptKs(ks: seq<int>): seq<int> {
    if ks == [] then []
    else
      var n := |ks| - 1;
      KeptKs(ks[..n]) + if ks[n] != 0 then [ks[n]] else []
  }

  lemma {:induction false} KeptLengths<E>(items: seq<Expr<E>>, ks: seq<int>)
    requires |items| == |ks|
    ensures |KeptItems(items, ks)| == |KeptKs(ks)|
  {
    if items != [] { KeptLengths(items[..|items| - 1], ks[..|items| - 1]); }
  }

  /** Some factor with a non-zero exponent has the hash of zero. */
  predicate HasZero<E(==,!new)>(r: Ring<E>, items: seq<Expr<E>>, ks: seq<int>)
    requires |items| == |ks|
  {
    exists i :: 0 <= i < |items| && ks[i] != 0 && items[i].esh == r.zero
  }

  function NewConstant<E>(v: E): Expr<E> {
    Expr(v, Constant(v), [])
  }

  function NewVariable<E(!new)>(r: Ring<E>, h: Env<E>, m: Meta): Expr<E> {
    Expr(Lookup(r, h, m), Variable(m), [])
  }

  /** simplifyLinComb (kind Sum) and simplifyProduct (kind Prod). */
  function Simplify<E(==,!new)>(r: Ring<E>, kind: Kind, items: seq<Expr<E>>,
                                ks: seq<int>): (s: (seq<Expr<E>>, seq<int>))
    requires |items| == |ks|
    ensures |s.0| == |s.1|
  {
    if kind.Prod? && HasZero(r, items, ks) then ([NewConstant(r.zero)], [1])
    else
      var acc := AddTerms(r, kind, Acc([], [], Unit(r, kind)), FlatItems(kind, items), FlatKs(kind, items, ks));
      Finish(r, kind, acc)
  }

  function Finish<E(==,!new)>(r: Ring<E>, kind: Kind, acc: Acc<E>): (s: (seq<Expr<E>>, seq<int>))
    requires |acc.items| == |acc.ks|
    ensures |s.0| == |s.1|
  {
    var items := if acc.konst == Unit(r, kind) then acc.items else acc.items + [NewConstant(acc.konst)];
    var ks := if acc.konst == Unit(r, kind) then acc.ks else acc.ks + [1];
    KeptLengths(items, ks);
    (KeptItems(items, ks), KeptKs(ks))
  }

  /** newLinCombNoSimplify and newProductNoSimplify. */
  function MakeNary<E(!new)>(r: Ring<E>, kind: Kind, items: seq<Expr<E>>, ks: seq<int>): Expr<E>
    requires |items| == |ks|
  {
    Expr(Fold(r, kind, ks, Hashes(items)), Nary(kind, ks), items)
  }

  /** The expression for a list of simplified terms: none, a bare item, or a node. */
  function FromTerms<E(!new)>(r: Ring<E>, kind: Kind, ts: seq<Expr<E>>, ns: seq<int>): Expr<E>
    requires |ts| == |ns|
  {
    if |ts| == 0 then NewConstant(Unit(r, kind))
    else if |ts| == 1 && ns[0] == 1 then ts[0]
    else MakeNary(r, kind, ts, ns)
  }

  /** NewLinComb and NewProduct. */
  function NewNary<E(==,!new)>(r: Ring<E>, kind: Kind, items: seq<Expr<E>>, ks: seq<int>): Expr<E>
    requires |items| == |ks|
  {
    var (ts, ns) := Simplify(r, kind, items, ks);
    FromTerms(r, kind, ts, ns)
  }

  function NewPolyEval<E(!new)>(r: Ring<E>, x: Expr<E>, coeffs: seq<Expr<E>>): Expr<E>
    requires coeffs != []
  {
    if |coeffs| == 1 then coeffs[0]
    else Expr(r.Horner(x.esh, Hashes(coeffs)), PolyEval, [x] + coeffs)
  }

  // ----- the simplifier preserves the value -----

  lemma {:induction false} FoldAppend<T(!new)>(r: Ring<T>, kind: Kind, ks: seq<int>, vs: seq<T>, ks': seq<int>,
                                               vs': seq<T>)
    requires r.Lawful() && |ks| == |vs| && |ks'| == |vs'|
    ensures Fold(r, kind, ks + ks', vs + vs') == Join(r, kind, Fold(r, kind, ks, vs), Fold(r, kind, ks', vs'))
    decreases |ks'|
  {
    if ks' == [] {
      assert ks + ks' == ks && vs + vs' == vs;
      JoinUnit(r, kind, Fold(r, kind, ks, vs));
    } else {
      var n := |ks'| - 1;
      FoldAppend(r, kind, ks, vs, ks'[..n], vs'[..n]);
      assert (ks + ks')[..|ks| + n] == ks + ks'[..n] && (vs + vs')[..|ks| + n] == vs + vs'[..n];
      JoinAssoc(r, kind, Fold(r, kind, ks, vs), Fold(r, kind, ks'[..n], vs'[..n]), Act(r, kind, vs'[n], ks'[n]));
    }
  }

  ghost function AccValue<E(!new)>(r: Ring<E>, kind: Kind, acc: Acc<E>, env: Env<E>): E
    requires |acc.items| == |acc.ks|
  {
    Join(r, kind, Fold(r, kind, acc.ks, Vals(r, acc.items, env)), acc.konst)
  }

  ghost predicate Within<E(!new)>(items: seq<Expr<E>>, s: set<Expr<E>>) {
    forall i :: 0 <= i < |items| ==> items[i] in s
  }

  /** Adding a term whose hash is already present raises the weight of that entry. */
  lemma MergeTermValue<E(!new)>(r: Ring<E>, kind: Kind, acc: Acc<E>, item: Expr<E>, k: int, i: nat, s: set<Expr<E>>,
                                env: Env<E>)
    requires r.Lawful() && |acc.items| == |acc.ks| && Weights(kind, acc.ks) && Weight(kind, k)
    requires Faithful(r, s, env) && Within(acc.items, s) && item in s
    requires i < |acc.items| && acc.items[i].esh == item.esh
    ensures AccValue(r, kind, acc.(ks := acc.ks[i := acc.ks[i] + k]), env)
         == Join(r, kind, AccValue(r, kind, acc, env), Act(r, kind, Eval(r, item, env), k))
  {
    var vs := Vals(r, acc.items, env);
    assert acc.items[i] in s && SameHash(acc.items[i], item);
    FoldBump(r, kind, acc.ks, vs, i, k);
    JoinAssoc(r, kind, Fold(r, kind, acc.ks, vs), acc.konst, Act(r, kind, vs[i], k));
  }

  lemma NewTermValue<E(!new)>(r: Ring<E>, kind: Kind, acc: Acc<E>, item: Expr<E>, k: int, env: Env<E>)
    requires r.Lawful() && |acc.items| == |acc.ks|
    ensures AccValue(r, kind, acc.(items := acc.items + [item], ks := acc.ks + [k]), env)
         == Join(r, kind, AccValue(r, kind, acc, env), Act(r, kind, Eval(r, item, env), k))
  {
    var vs, v := Vals(r, acc.items, env), Eval(r, item, env);
    ValsSnoc(r, acc.items, item, env);
    FoldSnoc(r, kind, acc.ks, vs, k, v);
    JoinAssoc(r, kind, Fold(r, kind, acc.ks, vs), acc.konst, Act(r, kind, v, k));
  }

  lemma AddTermValue<E(!new)>(r: Ring<E>, kind: Kind, acc: Acc<E>, item: Expr<E>, k: int, s: set<Expr<E>>, env: Env<E>)
    requires r.Lawful() && |acc.items| == |acc.ks| && Weights(kind, acc.ks) && Weight(kind, k)
    requires Faithful(r, s, env) && Within(acc.items, s) && item in s
    ensures AccValue(r, kind, AddTerm(r, kind, acc, item, k), env)
         == Join(r, kind, AccValue(r, kind, acc, env), Act(r, kind, Eval(r, item, env), k))
  {
    if k == 0 {
      ActZero(r, kind, Eval(r, item, env));
      JoinUnit(r, kind, AccValue(r, kind, acc, env));
    } else if item.op.Constant? {
      JoinAssoc(r, kind, Fold(r, kind, acc.ks, Vals(r, acc.items, env)), acc.konst, Act(r, kind, item.op.val, k));
    } else {
      var i := Find(acc.items, item.esh);
      if i < |acc.items| {
        MergeTermValue(r, kind, acc, item, k, i, s, env);
      } else {
        NewTermValue(r, kind, acc, item, k, env);
      }
    }
  }

  lemma AddTermWithin<E(!new)>(r: Ring<E>, kind: Kind, acc: Acc<E>, item: Expr<E>, k: int, s: set<Expr<E>>)
    requires |acc.items| == |acc.ks| && Weights(kind, acc.ks) && Weight(kind, k)
    requires Within(acc.items, s) && item in s
    ensures Weights(kind, AddTerm(r, kind, acc, item, k).ks) && Within(AddTerm(r, kind, acc, item, k).items, s)
  {
  }

  lemma {:induction false} AddTermsValue<E(!new)>(r: Ring<E>, kind: Kind, acc: Acc<E>, items: seq<Expr<E>>,
                                                  ks: seq<int>, s: set<Expr<E>>, env: Env<E>)
    requires r.Lawful() && |acc.items| == |acc.ks| && Weights(kind, acc.ks)
    requires |items| == |ks| && Weights(kind, ks)
    requires Faithful(r, s, env) && Within(acc.items, s) && Within(items, s)
    ensures var acc' := AddTerms(r, kind, acc, items, ks);
            && Weights(kind, acc'.ks) && Within(acc'.items, s)
            && AccValue(r, kind, acc', env)
              == Join(r, kind, AccValue(r, kind, acc, env), Fold(r, kind, ks, Vals(r, items, env)))
    decreases |items|
  {
    var v := AccValue(r, kind, acc, env);
    if items == [] {
      JoinUnit(r, kind, v);
    } else {
      var n := |items| - 1;
      AddTermsValue(r, kind, acc, items[..n], ks[..n], s, env);
      var mid := AddTerms(r, kind, acc, items[..n], ks[..n]);
      AddTermValue(r, kind, mid, items[n], ks[n], s, env);
      AddTermWithin(r, kind, mid, items[n], ks[n], s);
      assert Vals(r, items, env)[..n] == Vals(r, items[..n], env);
      JoinAssoc(r, kind, v, Fold(r, kind, ks[..n], Vals(r, items[..n], env)),
                Act(r, kind, Eval(r, items[n], env), ks[n]));
    }
  }

  lemma ScaledWeights(kind: Kind, k: int, ks: seq<int>)
    requires Weight(kind, k) && Weights(kind, ks)
    ensures Weights(kind, Scaled(k, ks))
  {
    forall i | 0 <= i < |ks| ensures Weight(kind, k * ks[i]) {
      assert Weight(kind, ks[i]);
      if kind.Prod? { assert 0 <= k * ks[i]; }
    }
  }

  lemma {:induction false} FlatWeights<E(!new)>(kind: Kind, items: seq<Expr<E>>, ks: seq<int>)
    requires |items| == |ks| && Weights(kind, ks) && AllWellFormed(items)
    ensures Weights(kind, FlatKs(kind, items, ks))
  {
    if items != [] {
      var n := |items| - 1;
      FlatWeights(kind, items[..n], ks[..n]);
      assert WellFormed(items[n]) && Weight(kind, ks[n]);
      if Nested(kind, items[n]) {
        ScaledWeights(kind, ks[n], items[n].op.ks);
      }
    }
  }

  lemma {:induction false} FlatValue<E(!new)>(r: Ring<E>, kind: Kind, items: seq<Expr<E>>, ks: seq<int>, env: Env<E>)
    requires r.Lawful() && |items| == |ks| && Weights(kind, ks) && AllWellFormed(items)
    ensures Fold(r, kind, FlatKs(kind, items, ks), Vals(r, FlatItems(kind, items), env))
            == Fold(r, kind, ks, Vals(r, items, env))
  {
    if items != [] {
      var n := |items| - 1;
      FlatValue(r, kind, items[..n], ks[..n], env);
      assert WellFormed(items[n]) && Weight(kind, ks[n]);
      FlatLast(r, kind, items, ks, env);
      FoldLast(r, kind, items, ks, env);
    }
  }

  lemma FoldLast<E(!new)>(r: Ring<E>, kind: Kind, items: seq<Expr<E>>, ks: seq<int>, env: Env<E>)
    requires |items| == |ks| && items != []
    ensures var n := |items| - 1;
            Fold(r, kind, ks, Vals(r, items, env))
            == Join(r, kind, Fold(r, kind, ks[..n], Vals(r, items[..n], env)),
                    Act(r, kind, Eval(r, items[n], env), ks[n]))
  {
    assert Vals(r, items, env)[..|items| - 1] == Vals(r, items[..|items| - 1], env);
  }

  lemma FlatLast<E(!new)>(r: Ring<E>, kind: Kind, items: seq<Expr<E>>, ks: seq<int>, env: Env<E>)
    requires r.Lawful() && |items| == |ks| && items != [] && WellFormed(items[|items| - 1])
             && Weight(kind, ks[|items| - 1])
    ensures var n := |items| - 1;
            Fold(r, kind, FlatKs(kind, items, ks), Vals(r, FlatItems(kind, items), env))
            == Join(r, kind,
                    Fold(r, kind, FlatKs(kind, items[..n], ks[..n]), Vals(r, FlatItems(kind, items[..n]), env)),
                    Act(r, kind, Eval(r, items[n], env), ks[n]))
  {
    var n := |items| - 1;
    var front, tail := FlatItems(kind, items[..n]), TermsOf(kind, items[n]);
    var frontKs, tailKs := FlatKs(kind, items[..n], ks[..n]), WeightsOf(kind, items[n], ks[n]);
    assert FlatItems(kind, items) == front + tail && FlatKs(kind, items, ks) == frontKs + tailKs;
    FlatStep(r, kind, front, frontKs, tail, tailKs, env);
    TermsValue(r, kind, items[n], ks[n], env);
  }

  lemma FlatStep<E(!new)>(r: Ring<E>, kind: Kind, front: seq<Expr<E>>, frontKs: seq<int>, tail: seq<Expr<E>>,
                          tailKs: seq<int>, env: Env<E>)
    requires r.Lawful() && |front| == |frontKs| && |tail| == |tailKs|
    ensures Fold(r, kind, frontKs + tailKs, Vals(r, front + tail, env))
         == Join(r, kind, Fold(r, kind, frontKs, Vals(r, front, env)), Fold(r, kind, tailKs, Vals(r, tail, env)))
  {
    assert Vals(r, front + tail, env) == Vals(r, front, env) + Vals(r, tail, env);
    FoldAppend(r, kind, frontKs, Vals(r, front, env), tailKs, Vals(r, tail, env));
  }

  lemma TermsValue<E(!new)>(r: Ring<E>, kind: Kind, item: Expr<E>, k: int, env: Env<E>)
    requires r.Lawful() && WellFormed(item) && Weight(kind, k)
    ensures Fold(r, kind, WeightsOf(kind, item, k), Vals(r, TermsOf(kind, item), env))
            == Act(r, kind, Eval(r, item, env), k)
  {
    if Nested(kind, item) {
      FoldScaled(r, kind, k, item.op.ks, Vals(r, item.children, env));
      EvalStep(r, item, env);
    } else {
      SingleValue(r, kind, item, k, env);
    }
  }

  lemma SingleValue<E(!new)>(r: Ring<E>, kind: Kind, item: Expr<E>, k: int, env: Env<E>)
    requires r.Lawful()
    ensures Fold(r, kind, [k], Vals(r, [item], env)) == Act(r, kind, Eval(r, item, env), k)
  {
    var v := Eval(r, item, env);
    assert Vals(r, [item], env) == [v];
    FoldSnoc(r, kind, [], [], k, v);
    assert [] + [k] == [k] && [] + [v] == [v];
    JoinUnit(r, kind, Act(r, kind, v, k));
  }

  lemma {:induction false} KeptValue<E(!new)>(r: Ring<E>, kind: Kind, items: seq<Expr<E>>, ks: seq<int>, env: Env<E>)
    requires r.Lawful() && |items| == |ks|
    ensures |KeptItems(items, ks)| == |KeptKs(ks)|
    ensures Fold(r, kind, KeptKs(ks), Vals(r, KeptItems(items, ks), env)) == Fold(r, kind, ks, Vals(r, items, env))
  {
    KeptLengths(items, ks);
    if items != [] {
      var n := |items| - 1;
      KeptValue(r, kind, items[..n], ks[..n], env);
      assert Vals(r, items, env)[..n] == Vals(r, items[..n], env);
      var v := Eval(r, items[n], env);
      if ks[n] == 0 {
        ActZero(r, kind, v);
        assert KeptItems(items, ks) == KeptItems(items[..n], ks[..n]) && KeptKs(ks) == KeptKs(ks[..n]);
        JoinUnit(r, kind, Fold(r, kind, ks[..n], Vals(r, items[..n], env)));
      } else {
        ValsSnoc(r, KeptItems(items[..n], ks[..n]), items[n], env);
        FoldSnoc(r, kind, KeptKs(ks[..n]), Vals(r, KeptItems(items[..n], ks[..n]), env), ks[n], v);
      }
    }
  }

  lemma FinishValue<E(!new)>(r: Ring<E>, kind: Kind, acc: Acc<E>, env: Env<E>)
    requires r.Lawful() && |acc.items| == |acc.ks|
    ensures var s := Finish(r, kind, acc);
            Fold(r, kind, s.1, Vals(r, s.0, env)) == AccValue(r, kind, acc, env)
  {
    if acc.konst == Unit(r, kind) {
      JoinUnit(r, kind, Fold(r, kind, acc.ks, Vals(r, acc.items, env)));
      KeptValue(r, kind, acc.items, acc.ks, env);
    } else {
      var c := NewConstant(acc.konst);
      ValsSnoc(r, acc.items, c, env);
      FoldSnoc(r, kind, acc.ks, Vals(r, acc.items, env), 1, acc.konst);
      ActOne(r, kind, acc.konst);
      KeptValue(r, kind, acc.items + [c], acc.ks + [1], env);
    }
  }

  lemma {:induction false} ZeroFactor<T(!new)>(r: Ring<T>, ks: seq<int>, vs: seq<T>, i: nat)
    requires r.Lawful() && |ks| == |vs| && i < |ks| && 0 < ks[i] && vs[i] == r.zero
    ensures Fold(r, Prod, ks, vs) == r.zero
  {
    var n := |ks| - 1;
    if i < n {
      ZeroFactor(r, ks[..n], vs[..n], i);
      MulZero(r, r.Pow(vs[n], ks[n]));
    } else {
      MulZero(r, r.Pow(r.zero, ks[n] - 1));
      MulZero(r, Fold(r, Prod, ks[..n], vs[..n]));
    }
  }

  /** Every flattened term is an item or a child of an item. */
  lemma {:induction false} FlatWithin<E(!new)>(kind: Kind, items: seq<Expr<E>>, s: set<Expr<E>>)
    requires AllSubs(items) <= s
    ensures Within(FlatItems(kind, items), s)
  {
    if items != [] {
      var n := |items| - 1;
      forall x | x in AllSubs(items[..n]) ensures x in s {
        var i :| 0 <= i < n && x in Subs(items[..n][i]);
        assert x in Subs(items[i]);
        assert x in AllSubs(items);
      }
      FlatWithin(kind, items[..n], s);
      assert items[n] in Subs(items[n]);
      assert items[n] in AllSubs(items);
      forall i | 0 <= i < |items[n].children| ensures items[n].children[i] in s {
        ChildSubs(items[n], i);
        assert items[n].children[i] in AllSubs(items);
      }
    }
  }

  /** Simplification keeps the value of the combination at every assignment at which the
      hashes of the items and of their sub-expressions are faithful. */
  lemma SimplifyValue<E(!new)>(r: Ring<E>, kind: Kind, items: seq<Expr<E>>, ks: seq<int>, s: set<Expr<E>>, env: Env<E>)
    requires r.Lawful() && |items| == |ks| && Weights(kind, ks) && AllWellFormed(items)
    requires Faithful(r, s, env) && AllSubs(items) <= s
    ensures var t := Simplify(r, kind, items, ks);
            Fold(r, kind, t.1, Vals(r, t.0, env)) == Fold(r, kind, ks, Vals(r, items, env))
  {
    if kind.Prod? && HasZero(r, items, ks) {
      var i :| 0 <= i < |items| && ks[i] != 0 && items[i].esh == r.zero;
      assert Weight(kind, ks[i]);
      assert items[i] in Subs(items[i]);
      assert items[i] in AllSubs(items) && ZeroHash(r, items[i]);
      ZeroFactor(r, ks, Vals(r, items, env), i);
      SingleValue(r, kind, NewConstant(r.zero), 1, env);
      ActOne(r, kind, r.zero);
    } else {
      var init := Acc([], [], Unit(r, kind));
      FlatWithin(kind, items, s);
      FlatValue(r, kind, items, ks, env);
      FlatWeights(kind, items, ks);
      AddTermsValue(r, kind, init, FlatItems(kind, items), FlatKs(kind, items, ks), s, env);
      FinishValue(r, kind, AddTerms(r, kind, init, FlatItems(kind, items), FlatKs(kind, items, ks)), env);
      JoinUnit(r, kind, Unit(r, kind));
      JoinUnit(r, kind, Fold(r, kind, ks, Vals(r, items, env)));
    }
  }

  lemma FromTermsValue<E(!new)>(r: Ring<E>, kind: Kind, ts: seq<Expr<E>>, ns: seq<int>, env: Env<E>)
    requires r.Lawful() && |ts| == |ns|
    ensures Eval(r, FromTerms(r, kind, ts, ns), env) == Fold(r, kind, ns, Vals(r, ts, env))
  {
    if |ts| == 1 && ns[0] == 1 {
      assert ts == [ts[0]] && ns == [1];
      SingleValue(r, kind, ts[0], 1, env);
      ActOne(r, kind, Eval(r, ts[0], env));
    } else if |ts| != 0 {
      EvalStep(r, MakeNary(r, kind, ts, ns), env);
    }
  }

  lemma NewNaryValue<E(!new)>(r: Ring<E>, kind: Kind, items: seq<Expr<E>>, ks: seq<int>, s: set<Expr<E>>, env: Env<E>)
    requires r.Lawful() && |items| == |ks| && Weights(kind, ks) && AllWellFormed(items)
    requires Faithful(r, s, env) && AllSubs(items) <= s
    ensures Eval(r, NewNary(r, kind, items, ks), env) == Fold(r, kind, ks, Vals(r, items, env))
  {
    SimplifyValue(r, kind, items, ks, s, env);
    var (ts, ns) := Simplify(r, kind, items, ks);
    FromTermsValue(r, kind, ts, ns, env);
  }

  lemma NewPolyEvalValue<E(!new)>(r: Ring<E>, x: Expr<E>, coeffs: seq<Expr<E>>, env: Env<E>)
    requires r.Lawful() && coeffs != []
    ensures Eval(r, NewPolyEval(r, x, coeffs), env) == r.Horner(Eval(r, x, env), Vals(r, coeffs, env))
  {
    if |coeffs| == 1 {
      var c := Eval(r, coeffs[0], env);
      assert Vals(r, coeffs, env) == [c];
      assert [c][1..] == [];
      assert r.Horner(Eval(r, x, env), []) == r.zero;
      MulZero(r, Eval(r, x, env));
      assert r.At1(c);
    } else {
      EvalStep(r, NewPolyEval(r, x, coeffs), env);
      assert Vals(r, [x] + coeffs, env)[1..] == Vals(r, coeffs, env);
    }
  }
}
