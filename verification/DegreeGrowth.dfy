/** The degree is not too large either: over the integers an expression without subtraction grows at
    least like the power that its degree names. And an input on which it is too small. */
module DegreeGrowth {
  import opened Algebra
  import opened Expressions
  import opened Simplification
  import opened SubProducts
  import opened VariableOrder
  import opened Polynomials
  import opened PolynomialDegrees
  import SubMultisets

  /** Constants and coefficients are positive; evaluations have at least two coefficients. */
  ghost predicate NoSubtraction(e: Expr<int>) {
    && (match e.op
        case Constant(v) => v >= 1
        case Variable(_) => true
        case Nary(kind, ks) => kind.Sum? ==> forall i :: 0 <= i < |ks| ==> ks[i] >= 1
        case PolyEval => |e.children| >= 3)
    && forall i :: 0 <= i < |e.children| ==> NoSubtraction(e.children[i])
  }

  /** Every column of e is x to the power of its degree. */
  ghost predicate Monomials(g: DegreeGetter, e: Expr<int>, x: int, env: Env<int>) {
    forall m :: m in Vars(e) ==> m in env && env[m] == Integers().Pow(x, g.Of(m))
  }

  // ----- powers of integers -----

  lemma MulAtLeast(a: int, b: int, c: int, d: int)
    requires a >= c >= 0 && b >= d >= 0
    ensures a * b >= c * d
  {
    assert a * b >= c * b && c * b >= c * d;
  }

  lemma {:induction false} PowPositive(x: int, n: int)
    requires x >= 1
    ensures Integers().Pow(x, n) >= 1
    decreases n
  {
    if n > 0 {
      PowPositive(x, n - 1);
      MulAtLeast(Integers().Pow(x, n - 1), x, 1, 1);
    }
  }

  lemma {:induction false} PowMonotone(a: int, b: int, n: int)
    requires a >= b >= 1
    ensures Integers().Pow(a, n) >= Integers().Pow(b, n) >= 1
    decreases n
  {
    PowPositive(b, n);
    if n > 0 {
      PowMonotone(a, b, n - 1);
      MulAtLeast(Integers().Pow(a, n - 1), a, Integers().Pow(b, n - 1), b);
    }
  }

  // ----- one node -----

  ghost predicate AllAtLeast(vs: seq<int>, ns: seq<int>, x: int) {
    |vs| == |ns| && forall i :: 0 <= i < |vs| ==> 0 <= ns[i] && vs[i] >= Integers().Pow(x, ns[i]) >= 1
  }

  lemma {:induction false} SumAtLeast(ks: seq<int>, vs: seq<int>, j: nat)
    requires |ks| == |vs| && forall i :: 0 <= i < |ks| ==> ks[i] >= 1 && vs[i] >= 1
    ensures Fold(Integers(), Sum, ks, vs) >= 0
    ensures j < |vs| ==> Fold(Integers(), Sum, ks, vs) >= vs[j]
  {
    if ks != [] {
      var n := |ks| - 1;
      SumAtLeast(ks[..n], vs[..n], j);
      MulAtLeast(ks[n], vs[n], 1, vs[n]);
    }
  }

  lemma {:induction false} ProductAtLeast(ks: seq<int>, vs: seq<int>, ns: seq<int>, x: int)
    requires |ks| == |vs| && AllAtLeast(vs, ns, x) && Weights(Prod, ks) && x >= 1
    ensures var d := SubMultisets.TotalWeight(ks, ns);
            0 <= d && Fold(Integers(), Prod, ks, vs) >= Integers().Pow(x, d)
  {
    if ks != [] {
      var q, n := Integers(), |ks| - 1;
      assert Weight(Prod, ks[n]);
      ProductAtLeast(ks[..n], vs[..n], ns[..n], x);
      IntegersLawful();
      var d := SubMultisets.TotalWeight(ks[..n], ns[..n]);
      PowMonotone(vs[n], q.Pow(x, ns[n]), ks[n]);
      PowPow(q, x, ns[n], ks[n]);
      assert ns[n] * ks[n] == ks[n] * ns[n];
      PowAdd(q, x, d, ks[n] * ns[n]);
      PowPositive(x, d);
      MulAtLeast(Fold(q, Prod, ks[..n], vs[..n]), q.Pow(vs[n], ks[n]), q.Pow(x, d), q.Pow(x, ks[n] * ns[n]));
    }
  }

  lemma {:induction false} HornerAtLeast(p: int, cs: seq<int>, j: nat)
    requires p >= 1 && forall i :: 0 <= i < |cs| ==> cs[i] >= 1
    ensures cs != [] ==> Integers().Horner(p, cs) >= 1
    ensures j < |cs| ==> Integers().Horner(p, cs) >= cs[j]
    ensures |cs| >= 2 ==> Integers().Horner(p, cs) >= p
    decreases |cs|
  {
    if |cs| == 1 {
      assert cs[1..] == [];
    } else if cs != [] {
      HornerAtLeast(p, cs[1..], if j > 0 then j - 1 else 0);
      var rest := Integers().Horner(p, cs[1..]);
      MulAtLeast(rest, p, 1, p);
      MulAtLeast(rest, p, rest, 1);
      if 0 < j < |cs| { assert cs[1..][j - 1] == cs[j]; }
    }
  }

  lemma ApplyAtLeast(g: DegreeGetter, op: Op<int>, vs: seq<int>, ns: seq<int>, x: int)
    requires Arity(op, |vs|) && AllAtLeast(vs, ns, x) && x >= 1 && (op.Nary? || op.PolyEval?)
    requires op.Nary? && op.kind.Sum? ==> forall i :: 0 <= i < |op.ks| ==> op.ks[i] >= 1
    requires op.PolyEval? ==> |vs| >= 3
    ensures 0 <= OpDegree(op, ns, g) && Apply(Integers(), op, vs) >= Integers().Pow(x, OpDegree(op, ns, g))
  {
    if op.Nary? && op.kind.Prod? {
      ProductAtLeast(op.ks, vs, ns, x);
    } else {
      var j := MaxAttained(ns);
      if op.Nary? {
        SumAtLeast(op.ks, vs, j);
      } else {
        HornerAtLeast(vs[0], vs[1..], if j > 0 then j - 1 else 0);
        if j > 0 { assert vs[1..][j - 1] == vs[j]; }
      }
    }
  }

  /** With x to the power of its degree for every column, the value is at least x to the power of the
      computed degree. */
  lemma {:induction false} DegreeReached(g: DegreeGetter, e: Expr<int>, x: int, env: Env<int>)
    requires WellFormed(e) && NoSubtraction(e) && x >= 1 && Monomials(g, e, x, env)
    ensures 0 <= Degree(g, e) && Eval(Integers(), e, env) >= Integers().Pow(x, Degree(g, e)) >= 1
  {
    DegreeStep(g, e);
    DegreeNonNegative(g, e);
    PowPositive(x, Degree(g, e));
    if e.op.Nary? || e.op.PolyEval? {
      var vs, ns := Vals(Integers(), e.children, env), DegreesOf(g, e.children);
      forall i | 0 <= i < |vs| ensures 0 <= ns[i] && vs[i] >= Integers().Pow(x, ns[i]) >= 1 {
        ChildVars(e, i);
        DegreeReached(g, e.children[i], x, env);
      }
      EvalStep(Integers(), e, env);
      assert Arity(e.op, |e.children|);
      ApplyAtLeast(g, e.op, vs, ns, x);
    } else if e.op.Variable? {
      assert e.op.meta in Vars(e);
    }
  }

  // ----- the exact condition -----

  lemma {:induction false} HornerGrows(p: int, d: nat, cs: seq<int>, ns: seq<int>, x: int)
    requires x >= 1 && p >= Integers().Pow(x, d) && AllAtLeast(cs, ns, x) && cs != []
    ensures 0 <= HornerDegree(d, ns) && Integers().Horner(p, cs) >= Integers().Pow(x, HornerDegree(d, ns))
    decreases |cs|
  {
    PowPositive(x, d);
    if |cs| == 1 {
      assert cs[1..] == [];
    } else {
      HornerGrows(p, d, cs[1..], ns[1..], x);
      var rest, n := Integers().Horner(p, cs[1..]), HornerDegree(d, ns[1..]);
      PowPositive(x, n);
      MulAtLeast(rest, p, Integers().Pow(x, n), Integers().Pow(x, d));
      IntegersLawful();
      PowAdd(Integers(), x, n, d);
    }
  }

  lemma ApplyGrows(g: DegreeGetter, op: Op<int>, vs: seq<int>, ns: seq<int>, x: int)
    requires Arity(op, |vs|) && AllAtLeast(vs, ns, x) && x >= 1 && (op.Nary? || op.PolyEval?)
    requires op.Nary? && op.kind.Sum? ==> forall i :: 0 <= i < |op.ks| ==> op.ks[i] >= 1
    ensures 0 <= OpGrowth(op, ns, g) && Apply(Integers(), op, vs) >= Integers().Pow(x, OpGrowth(op, ns, g))
  {
    if op.PolyEval? {
      HornerGrows(vs[0], ns[0], vs[1..], ns[1..], x);
    } else {
      ApplyAtLeast(g, op, vs, ns, x);
    }
  }

  /** The value is even at least x to the power of the degree that e has as a polynomial. */
  lemma {:induction false} GrowthReached(g: DegreeGetter, e: Expr<int>, x: int, env: Env<int>)
    requires WellFormed(e) && NoSubtraction(e) && x >= 1 && Monomials(g, e, x, env)
    ensures 0 <= Growth(g, e) && Eval(Integers(), e, env) >= Integers().Pow(x, Growth(g, e)) >= 1
  {
    GrowthStep(g, e);
    if e.op.Nary? || e.op.PolyEval? {
      var vs, ns := Vals(Integers(), e.children, env), GrowthsOf(g, e.children);
      forall i | 0 <= i < |vs| ensures 0 <= ns[i] && vs[i] >= Integers().Pow(x, ns[i]) >= 1 {
        ChildVars(e, i);
        GrowthReached(g, e.children[i], x, env);
      }
      EvalStep(Integers(), e, env);
      assert Arity(e.op, |e.children|);
      ApplyGrows(g, e.op, vs, ns, x);
    } else if e.op.Variable? {
      assert e.op.meta in Vars(e);
    }
    PowPositive(x, Growth(g, e));
  }

  function AbsoluteSum(q: seq<int>): nat {
    if q == [] then 0 else AbsoluteSum(q[1..]) + if q[0] < 0 then -q[0] else q[0]
  }

  lemma BelowStep(h: int, rest: nat, low: int, x: int, q: int, c: nat)
    requires h <= rest * low && x >= 1 && low >= 1 && q <= c
    ensures h * x + q <= (rest + c) * (low * x)
  {
    assert h * x <= (rest * low) * x;
    assert (rest * low) * x == rest * (low * x);
    assert low * x >= 1;
    assert c <= c * (low * x);
    assert (rest + c) * (low * x) == rest * (low * x) + c * (low * x);
  }

  /** A polynomial of degree d grows at most like x to the power d. */
  lemma {:induction false} PolynomialBelow(q: seq<int>, d: nat, x: int)
    requires UpTo(q, d) && x >= 1
    ensures Integers().Horner(x, q) <= AbsoluteSum(q) * Integers().Pow(x, d)
    decreases |q|
  {
    if |q| == 1 {
      assert q[1..] == [];
      PowPositive(x, d);
      MulAtLeast(Integers().Pow(x, d), AbsoluteSum(q), 1, AbsoluteSum(q));
    } else if q != [] {
      PolynomialBelow(q[1..], d - 1, x);
      PowPositive(x, d - 1);
      BelowStep(Integers().Horner(x, q[1..]), AbsoluteSum(q[1..]), Integers().Pow(x, d - 1), x, q[0],
                if q[0] < 0 then -q[0] else q[0]);
    }
  }

  lemma Overtakes(value: int, power: int, size: nat, poly: int)
    requires value >= power * (size + 1) && poly <= size * power && power >= 1
    ensures poly < value
  {
    assert power * (size + 1) == size * power + power;
  }

  /** Each column is the monomial of its degree. */
  ghost function MonomialColumns(g: DegreeGetter, e: Expr<int>): map<Meta, seq<int>> {
    map m | m in Vars(e) :: Monomial(g.Of(m))
  }

  function Monomial(n: nat): (q: seq<int>)
    ensures |q| == n + 1
  {
    if n == 0 then [1] else [0] + Monomial(n - 1)
  }

  lemma {:induction false} MonomialAt(n: nat, x: int)
    ensures Integers().Horner(x, Monomial(n)) == Integers().Pow(x, n)
  {
    if n == 0 {
      assert [1][1..] == [];
    } else {
      MonomialAt(n - 1, x);
      assert Monomial(n)[1..] == Monomial(n - 1);
    }
  }

  lemma ColumnsAreMonomials(g: DegreeGetter, e: Expr<int>, x: int)
    ensures Columns(g, MonomialColumns(g, e))
    ensures Monomials(g, e, x, AtPoint(Integers(), MonomialColumns(g, e), x))
  {
    forall m | m in Vars(e) ensures Integers().Horner(x, Monomial(g.Of(m))) == Integers().Pow(x, g.Of(m)) {
      MonomialAt(g.Of(m), x);
    }
  }

  /** q has the values of e when each column is the monomial of its degree. */
  ghost predicate HasValues(g: DegreeGetter, e: Expr<int>, q: seq<int>) {
    forall x: int :: Eval(Integers(), e, AtPoint(Integers(), MonomialColumns(g, e), x)) == Integers().Horner(x, q)
  }

  lemma TooFewCoefficients(g: DegreeGetter, e: Expr<int>, q: seq<int>, d: nat)
    requires WellFormed(e) && NoSubtraction(e) && UpTo(q, d) && d < Growth(g, e)
    ensures !HasValues(g, e, q)
  {
    var x := AbsoluteSum(q) + 1;
    var env := AtPoint(Integers(), MonomialColumns(g, e), x);
    ColumnsAreMonomials(g, e, x);
    GrowthReached(g, e, x, env);
    PolynomialBelow(q, d, x);
    PowAbove(x, d, Growth(g, e));
    PowPositive(x, d);
    Overtakes(Eval(Integers(), e, env), Integers().Pow(x, d), AbsoluteSum(q), Integers().Horner(x, q));
  }

  lemma {:induction false} PowAbove(x: int, m: nat, n: nat)
    requires x >= 1 && m < n
    ensures Integers().Pow(x, n) >= Integers().Pow(x, m + 1)
    decreases n
  {
    if m + 1 < n {
      PowAbove(x, m, n - 1);
      PowPositive(x, n - 1);
      MulAtLeast(Integers().Pow(x, n - 1), x, Integers().Pow(x, n - 1), 1);
    }
  }

  /** For an expression without subtraction: it is a polynomial of at most the computed degree if and
      only if its growth, which only polynomial evaluations can raise above it, is at most that. */
  lemma DegreeExactly(g: DegreeGetter, e: Expr<int>)
    requires WellFormed(e) && NoSubtraction(e)
    ensures (exists q :: UpTo(q, Degree(g, e)) && HasValues(g, e, q)) <==> Growth(g, e) <= Degree(g, e)
  {
    DegreeNonNegative(g, e);
    if Growth(g, e) <= Degree(g, e) {
      var ps := MonomialColumns(g, e);
      var q := Coeffs(Integers(), ps, e);
      IntegersLawful();
      ColumnsAreMonomials(g, e, 1);
      CoeffsUpTo(Integers(), g, ps, e);
      forall x: int ensures Eval(Integers(), e, AtPoint(Integers(), ps, x)) == Integers().Horner(x, q) {
        CoeffsValue(Integers(), ps, e, x);
      }
      assert UpTo(q, Degree(g, e)) && HasValues(g, e, q);
    } else {
      forall q | UpTo(q, Degree(g, e)) ensures !HasValues(g, e, q) {
        TooFewCoefficients(g, e, q, Degree(g, e));
      }
    }
  }

  // ----- a degree that is too small -----

  const COLUMN := Column("x")

  function X(): Expr<int> { Expr(5, Variable(COLUMN), []) }

  /** 0 + 0 x + 1 x^2, evaluated at the column x. */
  function Square(): Expr<int> {
    NewPolyEval(Integers(), X(), [NewConstant(0), NewConstant(0), NewConstant(1)])
  }

  lemma SquareHorner(x: int)
    ensures Integers().Horner(x, [0, 0, 1]) == x * x
  {
    assert [0, 0, 1][1..] == [0, 1] && [0, 1][1..] == [1] && [1][1..] == [];
    assert Integers().Horner(x, [1]) == 1;
    assert Integers().Horner(x, [0, 1]) == x;
  }

  lemma SquareChildren()
    ensures Square().op.PolyEval?
    ensures Square().children == [X(), NewConstant(0), NewConstant(0), NewConstant(1)]
  {
  }

  lemma SquareVals(x: int)
    ensures Vals(Integers(), Square().children, map[COLUMN := x]) == [x, 0, 0, 1]
  {
    SquareChildren();
  }

  lemma SquareValue(x: int)
    ensures Eval(Integers(), Square(), map[COLUMN := x]) == x * x
  {
    SquareChildren();
    EvalStep(Integers(), Square(), map[COLUMN := x]);
    SquareVals(x);
    assert [x, 0, 0, 1][1..] == [0, 0, 1];
    SquareHorner(x);
  }

  lemma SquareDegree(g: DegreeGetter)
    requires g.Of(COLUMN) == 1
    ensures Degree(g, Square()) == 1
  {
    var cs := Square().children;
    SquareChildren();
    DegreeStep(g, X());
    DegreeStep(g, NewConstant(0));
    DegreeStep(g, NewConstant(1));
    var ns := DegreesOf(g, cs);
    assert ns == [1, 0, 0, 0];
    DegreeStep(g, Square());
    var k := MaxAttained(ns);
    assert ns[0] <= MaxOf(ns);
  }

  lemma LinearAt(q: seq<int>, x: int) returns (a: int, b: int)
    requires |q| <= 2
    ensures a == (if |q| > 0 then q[0] else 0) && b == (if |q| > 1 then q[1] else 0)
    ensures Integers().Horner(x, q) == a + b * x
  {
    a, b := if |q| > 0 then q[0] else 0, if |q| > 1 then q[1] else 0;
    if |q| == 1 {
      assert q[1..] == [];
    } else if |q| == 2 {
      assert q[1..] == [q[1]] && q[1..][1..] == [];
      assert Integers().Horner(x, [q[1]]) == q[1];
    }
  }

  /** The square is computed to have degree 1, but no polynomial of degree 1 has its values. */
  lemma DegreeTooSmall(g: DegreeGetter, q: seq<int>) returns (x: int)
    requires g.Of(COLUMN) == 1 && UpTo(q, Degree(g, Square()))
    ensures Eval(Integers(), Square(), map[COLUMN := x]) != Integers().Horner(x, q)
  {
    SquareDegree(g);
    var a, b := LinearAt(q, 0);
    x := if a != 0 then 0 else if b != 1 then 1 else 2;
    a, b := LinearAt(q, x);
    SquareValue(x);
  }
}
