/** Degrees, and the sub-products of a product that degree reduction may eliminate. */
module SubProducts {
  import opened Algebra
  import opened Expressions
  import opened Simplification
  import opened NormalForm
  import opened Substitution
  import opened Sizes
  import SubMultisets

  // ----- degrees -----

  /** The caller's degree of each variable. */
  datatype DegreeGetter = DegreeGetter(fn: Meta -> nat) {
    function Of(m: Meta): nat { fn(m) }
  }

  function MaxOf(ns: seq<int>): (m: int)
    ensures forall i :: 0 <= i < |ns| ==> ns[i] <= m
  {
    if ns == [] then 0
    else
      var m := MaxOf(ns[..|ns| - 1]);
      if m < ns[|ns| - 1] then ns[|ns| - 1] else m
  }

  function OpDegree<E>(op: Op<E>, ns: seq<int>, g: DegreeGetter): int {
    match op
    case Constant(_) => 0
    case Variable(m) => g.Of(m)
    case Nary(kind, ks) => if kind.Prod? && |ks| == |ns| then SubMultisets.TotalWeight(ks, ns) else MaxOf(ns)
    case PolyEval => MaxOf(ns)
  }

  function Degree<E>(g: DegreeGetter, e: Expr<E>): int {
    OpDegree(e.op, seq(|e.children|, i requires 0 <= i < |e.children| => Degree(g, e.children[i])), g)
  }

  function DegreesOf<E>(g: DegreeGetter, es: seq<Expr<E>>): (ns: seq<int>)
    ensures |ns| == |es|
  {
    seq(|es|, i requires 0 <= i < |es| => Degree(g, es[i]))
  }

  lemma DegreeStep<E(!new)>(g: DegreeGetter, e: Expr<E>)
    ensures Degree(g, e) == OpDegree(e.op, DegreesOf(g, e.children), g)
  {
    assert seq(|e.children|, i requires 0 <= i < |e.children| => Degree(g, e.children[i])) == DegreesOf(g, e.children);
  }

  lemma {:induction false} MaxNonNegative(ns: seq<int>)
    requires forall i :: 0 <= i < |ns| ==> 0 <= ns[i]
    ensures 0 <= MaxOf(ns)
  {
    if ns != [] { MaxNonNegative(ns[..|ns| - 1]); }
  }

  lemma {:induction false} DegreeNonNegative<E(!new)>(g: DegreeGetter, e: Expr<E>)
    requires WellFormed(e)
    ensures 0 <= Degree(g, e)
  {
    var ns := DegreesOf(g, e.children);
    forall i | 0 <= i < |ns| ensures 0 <= ns[i] { DegreeNonNegative(g, e.children[i]); }
    DegreeStep(g, e);
    MaxNonNegative(ns);
    if e.op.Nary? && e.op.kind.Prod? {
      assert forall i :: 0 <= i < |e.op.ks| ==> Weight(Prod, e.op.ks[i]);
      var zeros := seq(|ns|, _ => 0);
      SubMultisets.WeightZero(zeros, ns);
      SubMultisets.WeightMonotone(zeros, e.op.ks, ns);
    }
  }

  // ----- sub-products -----

  /** buildSubProductFromExponents: the product of the factors with positive exponent. */
  function SubProduct<E(==,!new)>(r: Ring<E>, cs: seq<Expr<E>>, v: seq<int>): Expr<E>
    requires |v| == |cs|
  {
    KeptLengths(cs, v);
    NewNary(r, Prod, KeptItems(cs, v), KeptKs(v))
  }

  /** A choice of exponents below those of the product, neither empty nor a single factor. */
  ghost predicate Choice<E(!new)>(e: Expr<E>, v: seq<int>) {
    && Nested(Prod, e) && |v| == |e.op.ks|
    && (forall i :: 0 <= i < |v| ==> 0 <= v[i] <= e.op.ks[i])
    && (exists i :: 0 <= i < |v| && v[i] != 0)
    && KeptKs(v) != [1]
  }

  lemma {:induction false} KeptNonEmpty(v: seq<int>, i: nat)
    requires i < |v| && v[i] != 0
    ensures KeptKs(v) != []
  {
    if i < |v| - 1 { KeptNonEmpty(v[..|v| - 1], i); }
  }

  /** Dropping factors keeps a list of terms normal. */
  lemma KeptNormal<E(!new)>(r: Ring<E>, cs: seq<Expr<E>>, ks: seq<int>, v: seq<int>)
    requires NormalTerms(r, Prod, cs, ks) && |v| == |ks| && forall i :: 0 <= i < |v| ==> 0 <= v[i] <= ks[i]
    ensures |KeptItems(cs, v)| == |KeptKs(v)| && NormalTerms(r, Prod, KeptItems(cs, v), KeptKs(v))
    ensures forall i :: 0 <= i < |KeptItems(cs, v)| ==> KeptItems(cs, v)[i] in cs
  {
    KeptShape(Prod, cs, v);
    var ts := KeptItems(cs, v);
    forall i | 0 <= i < |ts| ensures !Nested(Prod, ts[i]) && (!ts[i].op.Constant? ==> ts[i].esh != r.zero) {
      assert ts[i] in cs;
    }
    KeptConstants(r, cs, ks, v);
  }

  lemma KeptConstants<E(!new)>(r: Ring<E>, cs: seq<Expr<E>>, ks: seq<int>, v: seq<int>)
    requires NormalTerms(r, Prod, cs, ks) && |v| == |ks| && forall i :: 0 <= i < |v| ==> 0 <= v[i] <= ks[i]
    ensures var ts := KeptItems(cs, v);
            |ts| == |KeptKs(v)| && forall i :: 0 <= i < |ts| && ts[i].op.Constant? ==>
              i == |ts| - 1 && KeptKs(v)[i] == 1 && ts[i].op.val != Unit(r, Prod)
  {
    KeptLengths(cs, v);
    if cs != [] {
      var n := |cs| - 1;
      var front := KeptItems(cs[..n], v[..n]);
      KeptLengths(cs[..n], v[..n]);
      KeptShape(Prod, cs[..n], v[..n]);
      forall i | 0 <= i < |front| ensures !front[i].op.Constant? {
        assert front[i] in cs[..n];
      }
    }
  }

  ghost predicate PlainConstants<E(!new)>(items: seq<Expr<E>>) {
    forall i :: 0 <= i < |items| && items[i].op.Constant? ==> items[i] == NewConstant(items[i].op.val)
  }

  lemma {:induction false} FlatItemsIdentity<E(!new)>(kind: Kind, items: seq<Expr<E>>)
    requires forall i :: 0 <= i < |items| ==> !Nested(kind, items[i])
    ensures FlatItems(kind, items) == items
  {
    if items != [] {
      var n := |items| - 1;
      FlatItemsIdentity(kind, items[..n]);
      assert TermsOf(kind, items[n]) == [items[n]];
      assert items == items[..n] + [items[n]];
    }
  }

  lemma {:induction false} FlatKsIdentity<E(!new)>(kind: Kind, items: seq<Expr<E>>, ks: seq<int>)
    requires |items| == |ks| && forall i :: 0 <= i < |items| ==> !Nested(kind, items[i])
    ensures FlatKs(kind, items, ks) == ks
  {
    if items != [] {
      var n := |items| - 1;
      FlatKsIdentity(kind, items[..n], ks[..n]);
      assert WeightsOf(kind, items[n], ks[n]) == [ks[n]];
      assert ks == ks[..n] + [ks[n]];
    }
  }

  lemma {:induction false} KeptIdentity<E(!new)>(items: seq<Expr<E>>, ks: seq<int>)
    requires |items| == |ks| && forall i :: 0 <= i < |ks| ==> ks[i] != 0
    ensures KeptItems(items, ks) == items && KeptKs(ks) == ks
  {
    if items != [] {
      var n := |items| - 1;
      KeptIdentity(items[..n], ks[..n]);
      assert items == items[..n] + [items[n]] && ks == ks[..n] + [ks[n]];
    }
  }

  lemma AppendTerm<E(!new)>(r: Ring<E>, kind: Kind, acc: Acc<E>, item: Expr<E>, k: int)
    requires |acc.items| == |acc.ks| && k != 0 && !item.op.Constant?
    requires forall j :: 0 <= j < |acc.items| ==> acc.items[j].esh != item.esh
    ensures AddTerm(r, kind, acc, item, k) == Acc(acc.items + [item], acc.ks + [k], acc.konst)
  {
    assert Find(acc.items, item.esh) == |acc.items|;
  }

  lemma AddTermsStep<E(!new)>(r: Ring<E>, kind: Kind, acc: Acc<E>, items: seq<Expr<E>>, ks: seq<int>, mid: Acc<E>)
    requires |items| == |ks| && items != [] && |acc.items| == |acc.ks| && |mid.items| == |mid.ks|
    requires mid == AddTerms(r, kind, acc, items[..|items| - 1], ks[..|items| - 1])
    ensures AddTerms(r, kind, acc, items, ks) == AddTerm(r, kind, mid, items[|items| - 1], ks[|items| - 1])
  {
  }

  ghost predicate PlainTerms<E(!new)>(items: seq<Expr<E>>, ks: seq<int>) {
    && |items| == |ks| && DistinctTerms(items)
    && forall i :: 0 <= i < |items| ==> ks[i] != 0 && !items[i].op.Constant?
  }

  lemma PlainLast<E(!new)>(items: seq<Expr<E>>, ks: seq<int>)
    requires PlainTerms(items, ks) && items != []
    ensures var n := |items| - 1;
            && PlainTerms(items[..n], ks[..n])
            && forall j :: 0 <= j < n ==> items[..n][j].esh != items[n].esh
  {
  }

  lemma {:induction false} GroupIdentity<E(!new)>(r: Ring<E>, kind: Kind, items: seq<Expr<E>>, ks: seq<int>)
    requires PlainTerms(items, ks)
    ensures AddTerms(r, kind, Acc([], [], Unit(r, kind)), items, ks) == Acc(items, ks, Unit(r, kind))
  {
    if items != [] {
      var n := |items| - 1;
      var mid := Acc(items[..n], ks[..n], Unit(r, kind));
      PlainLast(items, ks);
      GroupIdentity(r, kind, items[..n], ks[..n]);
      AddTermsStep(r, kind, Acc([], [], Unit(r, kind)), items, ks, mid);
      AppendTerm(r, kind, mid, items[n], ks[n]);
      assert items == items[..n] + [items[n]] && ks == ks[..n] + [ks[n]];
    }
  }

  lemma AddConstant<E(!new)>(r: Ring<E>, items: seq<Expr<E>>, ks: seq<int>, c: E)
    requires r.Lawful() && |items| == |ks|
    ensures AddTerm(r, Prod, Acc(items, ks, r.one), NewConstant(c), 1) == Acc(items, ks, c)
  {
    ActOne(r, Prod, c);
    assert r.At1(c);
  }

  lemma GroupWithConstant<E(!new)>(r: Ring<E>, items: seq<Expr<E>>, ks: seq<int>, c: E)
    requires r.Lawful() && |items| == |ks| && items != [] && PlainTerms(items[..|items| - 1], ks[..|items| - 1])
    requires items[|items| - 1] == NewConstant(c) && ks[|items| - 1] == 1
    ensures AddTerms(r, Prod, Acc([], [], r.one), items, ks) == Acc(items[..|items| - 1], ks[..|items| - 1], c)
  {
    var n := |items| - 1;
    GroupIdentity(r, Prod, items[..n], ks[..n]);
    AddTermsStep(r, Prod, Acc([], [], r.one), items, ks, Acc(items[..n], ks[..n], r.one));
    AddConstant(r, items[..n], ks[..n], c);
  }

  lemma FinishIdentity<E(!new)>(r: Ring<E>, kind: Kind, items: seq<Expr<E>>, ks: seq<int>, c: E)
    requires |items| == |ks| && forall i :: 0 <= i < |ks| ==> ks[i] != 0
    ensures Finish(r, kind, Acc(items, ks, c)) == if c == Unit(r, kind) then (items, ks)
            else (items + [NewConstant(c)], ks + [1])
  {
    FinishForm(r, kind, Acc(items, ks, c));
    KeptIdentity(items, ks);
  }

  lemma SimplifyFlat<E(!new)>(r: Ring<E>, items: seq<Expr<E>>, ks: seq<int>)
    requires |items| == |ks| && !HasZero(r, items, ks) && forall i :: 0 <= i < |items| ==> !Nested(Prod, items[i])
    ensures Simplify(r, Prod, items, ks) == Finish(r, Prod, AddTerms(r, Prod, Acc([], [], r.one), items, ks))
  {
    FlatItemsIdentity(Prod, items);
    FlatKsIdentity(Prod, items, ks);
  }

  lemma NormalFront<E(!new)>(r: Ring<E>, items: seq<Expr<E>>, ks: seq<int>)
    requires NormalTerms(r, Prod, items, ks) && items != []
    ensures PlainTerms(items[..|items| - 1], ks[..|items| - 1])
    ensures !items[|items| - 1].op.Constant? ==> PlainTerms(items, ks)
  {
  }

  /** The terms grouped by the simplifier, without the constant at the end. */
  lemma GroupNormal<E(!new)>(r: Ring<E>, items: seq<Expr<E>>, ks: seq<int>)
    returns (front: seq<Expr<E>>, frontKs: seq<int>, c: E)
    requires r.Lawful() && NormalTerms(r, Prod, items, ks) && PlainConstants(items) && items != []
    ensures PlainTerms(front, frontKs)
    ensures AddTerms(r, Prod, Acc([], [], r.one), items, ks) == Acc(front, frontKs, c)
    ensures (items, ks) == if c == r.one then (front, frontKs) else (front + [NewConstant(c)], frontKs + [1])
  {
    var n := |items| - 1;
    NormalFront(r, items, ks);
    if items[n].op.Constant? {
      front, frontKs, c := items[..n], ks[..n], items[n].op.val;
      assert items[n] == NewConstant(c) && ks[n] == 1 && c != r.one;
      GroupWithConstant(r, items, ks, c);
      assert items == front + [NewConstant(c)] && ks == frontKs + [1];
    } else {
      front, frontKs, c := items, ks, r.one;
      GroupIdentity(r, Prod, items, ks);
    }
  }

  /** Simplification does nothing to normal factors without a zero among them. */
  lemma SimplifyIdentity<E(!new)>(r: Ring<E>, items: seq<Expr<E>>, ks: seq<int>)
    requires r.Lawful() && NormalTerms(r, Prod, items, ks) && PlainConstants(items) && !HasZero(r, items, ks)
             && items != []
    ensures Simplify(r, Prod, items, ks) == (items, ks)
  {
    SimplifyFlat(r, items, ks);
    var front, frontKs, c := GroupNormal(r, items, ks);
    FinishIdentity(r, Prod, front, frontKs, c);
  }

  // ----- what a sub-product is -----

  lemma BuiltConstants<E(!new)>(r: Ring<E>, h: Env<E>, cs: seq<Expr<E>>)
    requires AllWellFormed(cs) && AllHashValid(r, h, cs)
    ensures PlainConstants(cs)
  {
    forall i | 0 <= i < |cs| && cs[i].op.Constant? ensures cs[i] == NewConstant(cs[i].op.val) {
      assert WellFormed(cs[i]) && HashValid(r, h, cs[i]);
    }
  }

  lemma {:induction false} KeptSource<E(!new)>(cs: seq<Expr<E>>, v: seq<int>, j: nat) returns (i: nat)
    requires |cs| == |v| && j < |KeptKs(v)|
    ensures |KeptItems(cs, v)| == |KeptKs(v)| && i < |cs| && v[i] != 0
    ensures KeptItems(cs, v)[j] == cs[i] && KeptKs(v)[j] == v[i]
    decreases |cs|
  {
    KeptLengths(cs, v);
    var n := |cs| - 1;
    KeptLengths(cs[..n], v[..n]);
    if j < |KeptKs(v[..n])| { i := KeptSource(cs[..n], v[..n], j); } else { i := n; }
  }

  /** The factors of a sub-product are normal and built. */
  lemma SubProductTerms<E(!new)>(r: Ring<E>, h: Env<E>, e: Expr<E>, v: seq<int>)
    requires Built(r, h, e) && Choice(e, v)
    ensures var ts, ns := KeptItems(e.children, v), KeptKs(v);
            && |ts| == |ns| && ts != [] && ns != [1] && NormalTerms(r, Prod, ts, ns) && PlainConstants(ts)
            && (forall i :: 0 <= i < |ts| ==> ts[i] in e.children && Built(r, h, ts[i]))
  {
    var ts, ns := KeptItems(e.children, v), KeptKs(v);
    var i :| 0 <= i < |v| && v[i] != 0;
    KeptNonEmpty(v, i);
    KeptNormal(r, e.children, e.op.ks, v);
    forall i | 0 <= i < |ts| ensures Built(r, h, ts[i]) {
      assert ts[i] in e.children;
    }
    BuiltConstants(r, h, ts);
  }

  /** A product with a factor that hashes to zero hashes to zero. */
  lemma ZeroProduct<E(!new)>(r: Ring<E>, h: Env<E>, e: Expr<E>, v: seq<int>)
    requires r.Lawful() && Built(r, h, e) && Choice(e, v)
    ensures |KeptItems(e.children, v)| == |KeptKs(v)|
    ensures HasZero(r, KeptItems(e.children, v), KeptKs(v)) ==> e.esh == r.zero
  {
    KeptLengths(e.children, v);
    var ts, ns := KeptItems(e.children, v), KeptKs(v);
    if HasZero(r, ts, ns) {
      var j :| 0 <= j < |ts| && ns[j] != 0 && ts[j].esh == r.zero;
      var i := KeptSource(e.children, v, j);
      assert Hashes(e.children)[i] == r.zero && e.op.ks[i] > 0;
      ZeroFactor(r, e.op.ks, Hashes(e.children), i);
    }
  }

  /** A sub-product is the plain node over its factors, unless one of them is the constant
      zero; then it is that constant and the whole product hashes to zero as well. */
  lemma SubProductForm<E(!new)>(r: Ring<E>, h: Env<E>, e: Expr<E>, v: seq<int>)
    requires r.Lawful() && Built(r, h, e) && Choice(e, v)
    ensures var ts, ns := KeptItems(e.children, v), KeptKs(v);
            |ts| == |ns| &&
            if HasZero(r, ts, ns) then SubProduct(r, e.children, v) == NewConstant(r.zero) && e.esh == r.zero
            else SubProduct(r, e.children, v) == MakeNary(r, Prod, ts, ns)
  {
    SubProductTerms(r, h, e, v);
    ZeroProduct(r, h, e, v);
    var ts, ns := KeptItems(e.children, v), KeptKs(v);
    if !HasZero(r, ts, ns) { SimplifyIdentity(r, ts, ns); }
  }

  lemma SubProductBuilt<E(!new)>(r: Ring<E>, h: Env<E>, e: Expr<E>, v: seq<int>)
    requires r.Lawful() && Built(r, h, e) && Choice(e, v)
    ensures Built(r, h, SubProduct(r, e.children, v))
  {
    SubProductTerms(r, h, e, v);
    var ts, ns := KeptItems(e.children, v), KeptKs(v);
    assert Weights(Prod, ns) && AllWellFormed(ts) && AllNormal(r, ts) && AllHashValid(r, h, ts);
    NewNaryNormal(r, Prod, ts, ns);
    NewNaryHash(r, h, Prod, ts, ns);
  }

  lemma {:induction false} KeptWeight<E(!new)>(g: DegreeGetter, cs: seq<Expr<E>>, v: seq<int>)
    requires |cs| == |v|
    ensures |KeptItems(cs, v)| == |KeptKs(v)|
    ensures SubMultisets.TotalWeight(KeptKs(v), DegreesOf(g, KeptItems(cs, v)))
            == SubMultisets.TotalWeight(v, DegreesOf(g, cs))
  {
    KeptLengths(cs, v);
    if cs != [] {
      var n := |cs| - 1;
      KeptWeight(g, cs[..n], v[..n]);
      assert DegreesOf(g, cs)[..n] == DegreesOf(g, cs[..n]);
      var ts, ns := KeptItems(cs[..n], v[..n]), KeptKs(v[..n]);
      if v[n] != 0 {
        assert DegreesOf(g, ts + [cs[n]]) == DegreesOf(g, ts) + [Degree(g, cs[n])];
        assert (ns + [v[n]])[..|ns|] == ns && (DegreesOf(g, ts) + [Degree(g, cs[n])])[..|ns|] == DegreesOf(g, ts);
      } else {
        assert KeptItems(cs, v) == ts && KeptKs(v) == ns;
      }
    }
  }

  /** The degree of a sub-product is the weight the iterator gave it, or zero. */
  lemma SubProductDegree<E(!new)>(r: Ring<E>, h: Env<E>, g: DegreeGetter, e: Expr<E>, v: seq<int>)
    requires r.Lawful() && Built(r, h, e) && Choice(e, v)
    ensures var d := Degree(g, SubProduct(r, e.children, v));
            d == SubMultisets.TotalWeight(v, DegreesOf(g, e.children)) || d == 0
  {
    SubProductForm(r, h, e, v);
    KeptWeight(g, e.children, v);
    DegreeStep(g, SubProduct(r, e.children, v));
  }

  lemma SubProductSize<E(!new)>(r: Ring<E>, h: Env<E>, e: Expr<E>, v: seq<int>, s: set<Expr<E>>)
    requires r.Lawful() && Built(r, h, e) && Choice(e, v) && Sized(s) && e in s && SubProduct(r, e.children, v) in s
    ensures Size(SubProduct(r, e.children, v)) >= 2
  {
    var t := SubProduct(r, e.children, v);
    SubProductForm(r, h, e, v);
    SubProductTerms(r, h, e, v);
    SubProductBuilt(r, h, e, v);
    SizePositive(r, t);
    SizePositive(r, e);
    assert SameHash(e, t) ==> Size(t) == Size(e);
  }
}
