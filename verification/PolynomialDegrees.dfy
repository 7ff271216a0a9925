/** What the degree of an expression means: with polynomials of the given degrees for the columns,
    the value of the expression is a polynomial of at most its degree. */
module PolynomialDegrees {
  import opened Algebra
  import opened Expressions
  import opened SubProducts
  import opened Polynomials
  import opened Simplification
  import SubMultisets

  // ----- the maximum -----

  lemma {:induction false} MaxAttained(ns: seq<int>) returns (i: nat)
    requires ns != [] && forall j :: 0 <= j < |ns| ==> 0 <= ns[j]
    ensures i < |ns| && MaxOf(ns) == ns[i]
    decreases |ns|
  {
    var n := |ns| - 1;
    i := n;
    if n > 0 {
      var k := MaxAttained(ns[..n]);
      if MaxOf(ns[..n]) >= ns[n] { i := k; }
    }
  }

  /** The degree of a linear combination or of a polynomial evaluation is that of one of its
      children, and no child exceeds it. */
  lemma MaxDegree<E(!new)>(g: DegreeGetter, e: Expr<E>) returns (i: nat)
    requires WellFormed(e) && (Nested(Sum, e) || e.op.PolyEval?)
    ensures i < |e.children| && Degree(g, e) == Degree(g, e.children[i])
    ensures forall j :: 0 <= j < |e.children| ==> Degree(g, e.children[j]) <= Degree(g, e)
  {
    var ns := DegreesOf(g, e.children);
    forall j | 0 <= j < |ns| ensures 0 <= ns[j] { DegreeNonNegative(g, e.children[j]); }
    DegreeStep(g, e);
    assert Arity(e.op, |e.children|);
    i := MaxAttained(ns);
    forall j | 0 <= j < |e.children| ensures Degree(g, e.children[j]) <= Degree(g, e) { assert ns[j] <= MaxOf(ns); }
  }

  // ----- the polynomial of an expression -----

  /** The polynomial of e when each column is a polynomial, and zero if not listed. */
  function Coeffs<E(!new)>(r: Ring<E>, ps: map<Meta, seq<E>>, e: Expr<E>): seq<E> {
    match e.op
    case Constant(v) => [v]
    case Variable(m) => if m in ps then ps[m] else []
    case _ =>
      PolyApply(r, e.op, seq(|e.children|, i requires 0 <= i < |e.children| => Coeffs(r, ps, e.children[i])))
  }

  function PolyApply<E(!new)>(r: Ring<E>, op: Op<E>, qs: seq<seq<E>>): seq<E> {
    match op
    case Nary(kind, ks) => if |ks| == |qs| then Combine(r, kind, ks, qs) else []
    case PolyEval => if qs == [] then [] else Compose(r, qs[0], qs[1..])
    case _ => []
  }

  function AllCoeffs<E(!new)>(r: Ring<E>, ps: map<Meta, seq<E>>, es: seq<Expr<E>>): (qs: seq<seq<E>>)
    ensures |qs| == |es|
  {
    seq(|es|, i requires 0 <= i < |es| => Coeffs(r, ps, es[i]))
  }

  lemma CoeffsStep<E(!new)>(r: Ring<E>, ps: map<Meta, seq<E>>, e: Expr<E>)
    requires e.op.Nary? || e.op.PolyEval?
    ensures Coeffs(r, ps, e) == PolyApply(r, e.op, AllCoeffs(r, ps, e.children))
  {
    assert seq(|e.children|, i requires 0 <= i < |e.children| => Coeffs(r, ps, e.children[i]))
        == AllCoeffs(r, ps, e.children);
  }

  /** The assignment in which every column has the value of its polynomial at x. */
  ghost function AtPoint<E(!new)>(r: Ring<E>, ps: map<Meta, seq<E>>, x: E): Env<E> {
    map m | m in ps :: r.Horner(x, ps[m])
  }

  /** The value of the expression at any point is that of its polynomial. */
  lemma {:induction false} CoeffsValue<E(!new)>(r: Ring<E>, ps: map<Meta, seq<E>>, e: Expr<E>, x: E)
    requires r.Lawful()
    ensures Eval(r, e, AtPoint(r, ps, x)) == r.Horner(x, Coeffs(r, ps, e))
  {
    var env := AtPoint(r, ps, x);
    match e.op
    case Constant(v) => ConstantAt(r, v, x);
    case Variable(m) =>
    case _ =>
      var vs, qs := Vals(r, e.children, env), AllCoeffs(r, ps, e.children);
      forall i | 0 <= i < |vs| ensures vs[i] == ValuesAt(r, qs, x)[i] { CoeffsValue(r, ps, e.children[i], x); }
      assert vs == ValuesAt(r, qs, x);
      EvalStep(r, e, env);
      CoeffsStep(r, ps, e);
      ApplyAt(r, e.op, qs, x);
  }

  lemma ApplyAt<E(!new)>(r: Ring<E>, op: Op<E>, qs: seq<seq<E>>, x: E)
    requires r.Lawful() && (op.Nary? || op.PolyEval?)
    ensures Apply(r, op, ValuesAt(r, qs, x)) == r.Horner(x, PolyApply(r, op, qs))
  {
    if op.Nary? {
      if |op.ks| == |qs| { CombineAt(r, op.kind, op.ks, qs, x); }
    } else if qs != [] {
      ComposeAt(r, qs[0], qs[1..], x);
      assert ValuesAt(r, qs, x)[1..] == ValuesAt(r, qs[1..], x);
    }
  }

  // ----- its degree -----

  /** The degree of c0 + c1 x + c2 x^2 + ... for a point of degree d and coefficients of degrees ns. */
  function HornerDegree(d: int, ns: seq<int>): int {
    if ns == [] then 0
    else if |ns| == 1 then ns[0]
    else
      var rest := HornerDegree(d, ns[1..]) + d;
      if rest < ns[0] then ns[0] else rest
  }

  /** Like the degree, but for a polynomial evaluation the degree it has as a polynomial. */
  function Growth<E>(g: DegreeGetter, e: Expr<E>): int {
    OpGrowth(e.op, seq(|e.children|, i requires 0 <= i < |e.children| => Growth(g, e.children[i])), g)
  }

  function OpGrowth<E>(op: Op<E>, ns: seq<int>, g: DegreeGetter): int {
    if op.PolyEval? && ns != [] then HornerDegree(ns[0], ns[1..]) else OpDegree(op, ns, g)
  }

  function GrowthsOf<E>(g: DegreeGetter, es: seq<Expr<E>>): (ns: seq<int>)
    ensures |ns| == |es|
  {
    seq(|es|, i requires 0 <= i < |es| => Growth(g, es[i]))
  }

  lemma GrowthStep<E(!new)>(g: DegreeGetter, e: Expr<E>)
    ensures Growth(g, e) == OpGrowth(e.op, GrowthsOf(g, e.children), g)
  {
    assert seq(|e.children|, i requires 0 <= i < |e.children| => Growth(g, e.children[i])) == GrowthsOf(g, e.children);
  }

  ghost predicate AllUpTo<E>(qs: seq<seq<E>>, ns: seq<int>) {
    |qs| == |ns| && forall i :: 0 <= i < |qs| ==> 0 <= ns[i] && UpTo(qs[i], ns[i])
  }

  lemma {:induction false} SumUpTo<E(!new)>(r: Ring<E>, ks: seq<int>, qs: seq<seq<E>>, ns: seq<int>)
    requires |ks| == |qs| && AllUpTo(qs, ns)
    ensures 0 <= MaxOf(ns) && UpTo(Combine(r, Sum, ks, qs), MaxOf(ns))
  {
    if ks != [] { SumUpTo(r, ks[..|ks| - 1], qs[..|ks| - 1], ns[..|ks| - 1]); }
  }

  lemma {:induction false} ProductUpTo<E(!new)>(r: Ring<E>, ks: seq<int>, qs: seq<seq<E>>, ns: seq<int>)
    requires |ks| == |qs| && AllUpTo(qs, ns) && Weights(Prod, ks)
    ensures var d := SubMultisets.TotalWeight(ks, ns); 0 <= d && UpTo(Combine(r, Prod, ks, qs), d)
  {
    if ks != [] {
      var n := |ks| - 1;
      assert Weight(Prod, ks[n]);
      ProductUpTo(r, ks[..n], qs[..n], ns[..n]);
      PowerUpTo(r, qs[n], ks[n], ns[n]);
      TimesUpTo(r, Combine(r, Prod, ks[..n], qs[..n]), Power(r, qs[n], ks[n]),
                SubMultisets.TotalWeight(ks[..n], ns[..n]), ks[n] * ns[n]);
    }
  }

  lemma {:induction false} ComposeUpTo<E(!new)>(r: Ring<E>, x: seq<E>, d: nat, qs: seq<seq<E>>, ns: seq<int>)
    requires UpTo(x, d) && AllUpTo(qs, ns)
    ensures 0 <= HornerDegree(d, ns) && UpTo(Compose(r, x, qs), HornerDegree(d, ns))
  {
    if |qs| == 1 {
      assert qs[1..] == [];
    } else if qs != [] {
      ComposeUpTo(r, x, d, qs[1..], ns[1..]);
      TimesUpTo(r, Compose(r, x, qs[1..]), x, HornerDegree(d, ns[1..]), d);
    }
  }

  /** The columns of e are polynomials of at most the given degrees. */
  ghost predicate Columns<E(!new)>(g: DegreeGetter, ps: map<Meta, seq<E>>) {
    forall m :: m in ps ==> UpTo(ps[m], g.Of(m))
  }

  lemma {:induction false} CoeffsUpTo<E(!new)>(r: Ring<E>, g: DegreeGetter, ps: map<Meta, seq<E>>, e: Expr<E>)
    requires WellFormed(e) && Columns(g, ps)
    ensures 0 <= Growth(g, e) && UpTo(Coeffs(r, ps, e), Growth(g, e))
  {
    GrowthStep(g, e);
    if e.op.Nary? || e.op.PolyEval? {
      var qs, ns := AllCoeffs(r, ps, e.children), GrowthsOf(g, e.children);
      forall i | 0 <= i < |qs| ensures 0 <= ns[i] && UpTo(qs[i], ns[i]) { CoeffsUpTo(r, g, ps, e.children[i]); }
      CoeffsStep(r, ps, e);
      assert Arity(e.op, |e.children|);
      ApplyUpTo(r, g, e.op, qs, ns);
    }
  }

  lemma ApplyUpTo<E(!new)>(r: Ring<E>, g: DegreeGetter, op: Op<E>, qs: seq<seq<E>>, ns: seq<int>)
    requires Arity(op, |qs|) && AllUpTo(qs, ns) && (op.Nary? || op.PolyEval?)
    ensures 0 <= OpGrowth(op, ns, g) && UpTo(PolyApply(r, op, qs), OpGrowth(op, ns, g))
  {
    if op.PolyEval? {
      ComposeUpTo(r, qs[0], ns[0], qs[1..], ns[1..]);
    } else if op.kind.Sum? {
      SumUpTo(r, op.ks, qs, ns);
    } else {
      ProductUpTo(r, op.ks, qs, ns);
    }
  }

  // ----- the computed degree -----

  /** Every point of a polynomial evaluation below e has degree zero. */
  ghost predicate ConstantPoints<E(!new)>(g: DegreeGetter, e: Expr<E>) {
    && (e.op.PolyEval? && e.children != [] ==> Degree(g, e.children[0]) == 0)
    && forall i :: 0 <= i < |e.children| ==> ConstantPoints(g, e.children[i])
  }

  lemma {:induction false} HornerDegreeBound(d: nat, ns: seq<int>, bound: int)
    requires forall i :: 0 <= i < |ns| ==> 0 <= ns[i]
    ensures HornerDegree(d, ns) <= bound <==>
            if ns == [] then 0 <= bound else forall i :: 0 <= i < |ns| ==> TermDegree(d, ns, i) <= bound
    decreases |ns|
  {
    if |ns| > 1 {
      var tail := ns[1..];
      HornerDegreeBound(d, tail, bound - d);
      forall i | 0 <= i < |tail| ensures TermDegree(d, tail, i) <= bound - d <==> TermDegree(d, ns, i + 1) <= bound {
        assert (i + 1) * d == i * d + d;
      }
      if HornerDegree(d, ns) <= bound {
        forall i | 0 <= i < |ns| ensures TermDegree(d, ns, i) <= bound {
          if i > 0 { assert TermDegree(d, tail, i - 1) <= bound - d; }
        }
      }
      if forall i :: 0 <= i < |ns| ==> TermDegree(d, ns, i) <= bound {
        assert TermDegree(d, ns, 0) <= bound;
        forall i | 0 <= i < |tail| ensures TermDegree(d, tail, i) <= bound - d {
          assert TermDegree(d, ns, i + 1) <= bound;
        }
      }
    } else if |ns| == 1 {
      assert TermDegree(d, ns, 0) == ns[0];
    }
  }

  /** The degree of the i-th term of a polynomial evaluation. */
  function TermDegree(d: int, ns: seq<int>, i: nat): int
    requires i < |ns|
  {
    ns[i] + i * d
  }

  lemma {:induction false} ConstantPointsGrow<E(!new)>(g: DegreeGetter, e: Expr<E>)
    requires WellFormed(e) && ConstantPoints(g, e)
    ensures Growth(g, e) == Degree(g, e)
  {
    GrowthStep(g, e);
    DegreeStep(g, e);
    forall i | 0 <= i < |e.children| ensures GrowthsOf(g, e.children)[i] == DegreesOf(g, e.children)[i] {
      ConstantPointsGrow(g, e.children[i]);
    }
    assert GrowthsOf(g, e.children) == DegreesOf(g, e.children);
    if e.op.PolyEval? {
      assert Arity(e.op, |e.children|);
      forall i | 0 <= i < |e.children| ensures 0 <= DegreesOf(g, e.children)[i] { DegreeNonNegative(g, e.children[i]); }
      FlatHorner(DegreesOf(g, e.children));
    }
  }

  /** At a point of degree zero the degree is the maximum. */
  lemma FlatHorner(ns: seq<int>)
    requires 2 <= |ns| && ns[0] == 0 && forall i :: 0 <= i < |ns| ==> 0 <= ns[i]
    ensures HornerDegree(0, ns[1..]) == MaxOf(ns)
  {
    var tail := ns[1..];
    HornerDegreeBound(0, tail, MaxOf(ns));
    forall i | 0 <= i < |tail| ensures TermDegree(0, tail, i) <= MaxOf(ns) { assert ns[i + 1] <= MaxOf(ns); }
    var k := MaxAttained(ns);
    HornerDegreeBound(0, tail, HornerDegree(0, tail));
    if k > 0 {
      assert TermDegree(0, tail, k - 1) <= HornerDegree(0, tail);
    } else {
      assert TermDegree(0, tail, 0) <= HornerDegree(0, tail);
    }
  }

  /** What the degree promises: if each column is a polynomial of at most its degree, and the points
      of polynomial evaluations are constant, the expression is a polynomial of at most its degree. */
  lemma DegreeMeaning<E(!new)>(r: Ring<E>, g: DegreeGetter, ps: map<Meta, seq<E>>, e: Expr<E>) returns (q: seq<E>)
    requires r.Lawful() && WellFormed(e) && Columns(g, ps) && ConstantPoints(g, e)
    ensures UpTo(q, Degree(g, e))
    ensures forall x :: Eval(r, e, AtPoint(r, ps, x)) == r.Horner(x, q)
  {
    q := Coeffs(r, ps, e);
    CoeffsUpTo(r, g, ps, e);
    ConstantPointsGrow(g, e);
    forall x ensures Eval(r, e, AtPoint(r, ps, x)) == r.Horner(x, q) { CoeffsValue(r, ps, e, x); }
  }

  /** For a polynomial evaluation whose children are as they should be, the computed degree covers
      the degree it has as a polynomial exactly when no term exceeds it. */
  lemma PolyEvalExactly<E(!new)>(g: DegreeGetter, e: Expr<E>)
    requires WellFormed(e) && e.op.PolyEval?
    requires forall i :: 0 <= i < |e.children| ==> ConstantPoints(g, e.children[i])
    ensures var ns := DegreesOf(g, e.children);
            Growth(g, e) <= Degree(g, e) <==>
            forall i :: 0 <= i < |ns| - 1 ==> TermDegree(ns[0], ns[1..], i) <= MaxOf(ns)
  {
    var ns := DegreesOf(g, e.children);
    GrowthStep(g, e);
    DegreeStep(g, e);
    assert Arity(e.op, |e.children|);
    forall i | 0 <= i < |ns| ensures GrowthsOf(g, e.children)[i] == ns[i] && 0 <= ns[i] {
      ConstantPointsGrow(g, e.children[i]);
      DegreeNonNegative(g, e.children[i]);
    }
    assert GrowthsOf(g, e.children) == ns;
    HornerDegreeBound(ns[0], ns[1..], MaxOf(ns));
  }
}
