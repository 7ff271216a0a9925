/** Commutative rings and the tower "base field inside extension field".

    The field libraries are taken as an arbitrary commutative ring given by its
    operations; every theorem of the project holds for all of them.  The laws are
    stated through the predicates At1, At2, At3 and IntAt, so that a proof uses a
    law exactly at the points it names.
 */
module Algebra {

  datatype Ring<!T(!new)> = Ring(zero: T, one: T, addFn: (T, T) -> T, subFn: (T, T) -> T,
                                 mulFn: (T, T) -> T, intFn: int -> T)
  {
    function Add(x: T, y: T): T { addFn(x, y) }
    function Sub(x: T, y: T): T { subFn(x, y) }
    function Mul(x: T, y: T): T { mulFn(x, y) }
    function OfInt(n: int): T { intFn(n) }

    /** The ring laws at one, two and three elements and at two integers. */
    ghost predicate At1(x: T) {
      && Add(zero, x) == x
      && Mul(one, x) == x
      && Sub(x, x) == zero
    }

    ghost predicate At2(x: T, y: T) {
      && Add(x, y) == Add(y, x)
      && Mul(x, y) == Mul(y, x)
      && Sub(x, y) == Add(x, Mul(OfInt(-1), y))
    }

    ghost predicate At3(x: T, y: T, z: T) {
      && Add(Add(x, y), z) == Add(x, Add(y, z))
      && Mul(Mul(x, y), z) == Mul(x, Mul(y, z))
      && Mul(x, Add(y, z)) == Add(Mul(x, y), Mul(x, z))
    }

    ghost predicate IntAt(m: int, n: int) {
      && OfInt(m + n) == Add(OfInt(m), OfInt(n))
      && OfInt(m * n) == Mul(OfInt(m), OfInt(n))
    }

    ghost predicate Lawful() {
      && OfInt(0) == zero
      && OfInt(1) == one
      && (forall x {:trigger At1(x)} :: At1(x))
      && (forall x, y {:trigger At2(x, y)} :: At2(x, y))
      && (forall x, y, z {:trigger At3(x, y, z)} :: At3(x, y, z))
      && (forall m: int, n: int {:trigger IntAt(m, n)} :: IntAt(m, n))
    }

    /** The power with a natural exponent; a non-positive exponent gives one. */
    function Pow(x: T, n: int): T
      decreases n
    {
      if n <= 0 then one else Mul(Pow(x, n - 1), x)
    }

    /** Horner evaluation at x of the polynomial with these coefficients, constant first. */
    function Horner(x: T, cs: seq<T>): T {
      if cs == [] then zero else Add(Mul(Horner(x, cs[1..]), x), cs[0])
    }

    /** The first n terms of the same polynomial, as a sum of coefficient times power. */
    function PowerSum(x: T, cs: seq<T>, n: nat): T
      requires n <= |cs|
    {
      if n == 0 then zero else Add(PowerSum(x, cs, n - 1), Mul(cs[n - 1], Pow(x, n - 1)))
    }
  }

  // ----- elementary consequences of the laws -----

  lemma MulSwap<T(!new)>(r: Ring<T>, a: T, b: T, c: T, d: T)
    requires r.Lawful()
    ensures r.Mul(r.Mul(a, b), r.Mul(c, d)) == r.Mul(r.Mul(a, c), r.Mul(b, d))
  {
    assert r.At3(a, b, r.Mul(c, d)) && r.At3(b, c, d) && r.At2(b, c) && r.At3(c, b, d);
    assert r.At3(a, c, r.Mul(b, d));
  }

  lemma MulZero<T(!new)>(r: Ring<T>, x: T)
    requires r.Lawful()
    ensures r.Mul(r.zero, x) == r.zero && r.Mul(x, r.zero) == r.zero
  {
    var y := r.Mul(x, r.zero);
    assert r.At1(r.zero) && r.At3(x, r.zero, r.zero) && r.At2(x, r.zero);
    assert y == r.Add(y, y);
    var m := r.Mul(r.OfInt(-1), y);
    assert r.At1(y) && r.At2(y, y);
    assert r.Add(y, m) == r.zero;
    assert r.At3(y, y, m) && r.At2(y, r.zero);
  }

  lemma Distribute<T(!new)>(r: Ring<T>, x: T, y: T, z: T)
    requires r.Lawful()
    ensures r.Mul(r.Add(x, y), z) == r.Add(r.Mul(x, z), r.Mul(y, z))
  {
    assert r.At2(r.Add(x, y), z) && r.At3(z, x, y) && r.At2(z, x) && r.At2(z, y);
  }

  lemma {:induction false} PowAdd<T(!new)>(r: Ring<T>, x: T, m: nat, n: nat)
    requires r.Lawful()
    ensures r.Pow(x, m + n) == r.Mul(r.Pow(x, m), r.Pow(x, n))
    decreases n
  {
    if n == 0 {
      assert r.At1(r.Pow(x, m)) && r.At2(r.one, r.Pow(x, m));
    } else {
      PowAdd(r, x, m, n - 1);
      assert r.At3(r.Pow(x, m), r.Pow(x, n - 1), x);
    }
  }

  lemma {:induction false} PowMul<T(!new)>(r: Ring<T>, x: T, y: T, n: nat)
    requires r.Lawful()
    ensures r.Pow(r.Mul(x, y), n) == r.Mul(r.Pow(x, n), r.Pow(y, n))
  {
    if n == 0 {
      assert r.At1(r.one);
    } else {
      PowMul(r, x, y, n - 1);
      MulSwap(r, r.Pow(x, n - 1), r.Pow(y, n - 1), x, y);
    }
  }

  lemma {:induction false} PowPow<T(!new)>(r: Ring<T>, x: T, m: nat, n: nat)
    requires r.Lawful()
    ensures 0 <= m * n && r.Pow(r.Pow(x, m), n) == r.Pow(x, m * n)
    decreases n
  {
    if n > 0 {
      PowPow(r, x, m, n - 1);
      assert m * n == m * (n - 1) + m;
      PowAdd(r, x, m * (n - 1), m);
    }
  }

  lemma PowOne<T(!new)>(r: Ring<T>, x: T)
    requires r.Lawful()
    ensures r.Pow(x, 1) == x
  {
    assert r.Pow(x, 0) == r.one;
    assert r.At1(x);
  }

  lemma {:induction false} OnePow<T(!new)>(r: Ring<T>, n: nat)
    requires r.Lawful()
    ensures r.Pow(r.one, n) == r.one
  {
    if n > 0 {
      OnePow(r, n - 1);
      assert r.At1(r.one);
    }
  }

  /** Appending a leading coefficient to a Horner evaluation. */
  lemma {:induction false} HornerSnoc<T(!new)>(r: Ring<T>, x: T, cs: seq<T>, c: T)
    requires r.Lawful()
    ensures r.Horner(x, cs + [c]) == r.Add(r.Horner(x, cs), r.Mul(c, r.Pow(x, |cs|)))
  {
    var all := cs + [c];
    if cs == [] {
      assert all[1..] == [];
      MulZero(r, x);
      assert r.At2(c, r.one) && r.At1(c);
    } else {
      assert all[1..] == cs[1..] + [c];
      HornerSnoc(r, x, cs[1..], c);
      var h, p := r.Horner(x, cs[1..]), r.Pow(x, |cs| - 1);
      var t := r.Mul(c, p);
      Distribute(r, h, t, x);
      assert r.At3(c, p, x);
      var hx, tx := r.Mul(h, x), r.Mul(t, x);
      assert r.At3(hx, tx, cs[0]) && r.At2(tx, cs[0]) && r.At3(hx, cs[0], tx);
    }
  }

  /** The power-sum form and the Horner form of a polynomial agree. */
  lemma {:induction false} PowerSumIsHorner<T(!new)>(r: Ring<T>, x: T, cs: seq<T>, n: nat)
    requires r.Lawful() && n <= |cs|
    ensures r.PowerSum(x, cs, n) == r.Horner(x, cs[..n])
  {
    if n > 0 {
      PowerSumIsHorner(r, x, cs, n - 1);
      HornerSnoc(r, x, cs[..n - 1], cs[n - 1]);
      assert cs[..n - 1] + [cs[n - 1]] == cs[..n];
    }
  }

  // ----- linear combinations and products as one kind of fold -----

  /** Sum: linear combination with integer coefficients.  Prod: product with integer exponents. */
  datatype Kind = Sum | Prod

  function Unit<T(!new)>(r: Ring<T>, kind: Kind): T {
    if kind.Sum? then r.zero else r.one
  }

  function Join<T(!new)>(r: Ring<T>, kind: Kind, x: T, y: T): T {
    if kind.Sum? then r.Add(x, y) else r.Mul(x, y)
  }

  /** k times v for sums, v to the k for products. */
  function Act<T(!new)>(r: Ring<T>, kind: Kind, v: T, k: int): T {
    if kind.Sum? then r.Mul(r.OfInt(k), v) else r.Pow(v, k)
  }

  predicate Weight(kind: Kind, k: int) {
    kind.Prod? ==> 0 <= k
  }

  predicate Weights(kind: Kind, ks: seq<int>) {
    forall i :: 0 <= i < |ks| ==> Weight(kind, ks[i])
  }

  function Fold<T(!new)>(r: Ring<T>, kind: Kind, ks: seq<int>, vs: seq<T>): T
    requires |ks| == |vs|
  {
    if ks == [] then Unit(r, kind)
    else
      var n := |ks| - 1;
      Join(r, kind, Fold(r, kind, ks[..n], vs[..n]), Act(r, kind, vs[n], ks[n]))
  }

  lemma JoinUnit<T(!new)>(r: Ring<T>, kind: Kind, x: T)
    requires r.Lawful()
    ensures Join(r, kind, Unit(r, kind), x) == x
    ensures Join(r, kind, x, Unit(r, kind)) == x
  {
    assert r.At1(x) && r.At2(x, r.zero) && r.At2(x, r.one);
  }

  lemma JoinAssoc<T(!new)>(r: Ring<T>, kind: Kind, x: T, y: T, z: T)
    requires r.Lawful()
    ensures Join(r, kind, Join(r, kind, x, y), z) == Join(r, kind, x, Join(r, kind, y, z))
    ensures Join(r, kind, Join(r, kind, x, y), z) == Join(r, kind, Join(r, kind, x, z), y)
  {
    assert r.At3(x, y, z) && r.At2(y, z) && r.At3(x, z, y);
  }

  lemma JoinComm<T(!new)>(r: Ring<T>, kind: Kind, x: T, y: T)
    requires r.Lawful()
    ensures Join(r, kind, x, y) == Join(r, kind, y, x)
  {
    assert r.At2(x, y);
  }

  lemma ActSum<T(!new)>(r: Ring<T>, kind: Kind, v: T, j: int, k: int)
    requires r.Lawful() && Weight(kind, j) && Weight(kind, k)
    ensures Act(r, kind, v, j + k) == Join(r, kind, Act(r, kind, v, j), Act(r, kind, v, k))
  {
    if kind.Sum? {
      assert r.IntAt(j, k);
      Distribute(r, r.OfInt(j), r.OfInt(k), v);
    } else {
      PowAdd(r, v, j, k);
    }
  }

  lemma ActAct<T(!new)>(r: Ring<T>, kind: Kind, v: T, j: int, k: int)
    requires r.Lawful() && Weight(kind, j) && Weight(kind, k)
    ensures Act(r, kind, Act(r, kind, v, k), j) == Act(r, kind, v, j * k)
  {
    if kind.Sum? {
      assert r.IntAt(j, k) && r.At3(r.OfInt(j), r.OfInt(k), v);
    } else {
      PowPow(r, v, k, j);
      assert k * j == j * k;
    }
  }

  lemma ActJoin<T(!new)>(r: Ring<T>, kind: Kind, v: T, w: T, k: int)
    requires r.Lawful() && Weight(kind, k)
    ensures Act(r, kind, Join(r, kind, v, w), k) == Join(r, kind, Act(r, kind, v, k), Act(r, kind, w, k))
  {
    if kind.Sum? { assert r.At3(r.OfInt(k), v, w); } else { PowMul(r, v, w, k); }
  }

  lemma ActZero<T(!new)>(r: Ring<T>, kind: Kind, v: T)
    requires r.Lawful()
    ensures Act(r, kind, v, 0) == Unit(r, kind)
  {
    MulZero(r, v);
  }

  lemma ActOne<T(!new)>(r: Ring<T>, kind: Kind, v: T)
    requires r.Lawful()
    ensures Act(r, kind, v, 1) == v
  {
    assert r.At1(v);
    PowOne(r, v);
  }

  lemma ActUnit<T(!new)>(r: Ring<T>, kind: Kind, k: int)
    requires r.Lawful() && Weight(kind, k)
    ensures Act(r, kind, Unit(r, kind), k) == Unit(r, kind)
  {
    if kind.Sum? { MulZero(r, r.OfInt(k)); } else { OnePow(r, k); }
  }

  lemma FoldSnoc<T(!new)>(r: Ring<T>, kind: Kind, ks: seq<int>, vs: seq<T>, k: int, v: T)
    requires |ks| == |vs|
    ensures Fold(r, kind, ks + [k], vs + [v]) == Join(r, kind, Fold(r, kind, ks, vs), Act(r, kind, v, k))
  {
    assert (ks + [k])[..|ks|] == ks && (vs + [v])[..|vs|] == vs;
  }

  /** Raising one weight by d joins d more copies of that value. */
  lemma {:induction false} FoldBump<T(!new)>(r: Ring<T>, kind: Kind, ks: seq<int>, vs: seq<T>, i: nat, d: int)
    requires r.Lawful() && |ks| == |vs| && i < |ks| && Weights(kind, ks) && Weight(kind, d)
    ensures Fold(r, kind, ks[i := ks[i] + d], vs) == Join(r, kind, Fold(r, kind, ks, vs), Act(r, kind, vs[i], d))
  {
    var n := |ks| - 1;
    var ks' := ks[i := ks[i] + d];
    var f := Fold(r, kind, ks[..n], vs[..n]);
    if i == n {
      assert ks'[..n] == ks[..n];
      ActSum(r, kind, vs[n], ks[n], d);
      JoinAssoc(r, kind, f, Act(r, kind, vs[n], ks[n]), Act(r, kind, vs[n], d));
    } else {
      assert ks'[..n] == ks[..n][i := ks[i] + d];
      FoldBump(r, kind, ks[..n], vs[..n], i, d);
      JoinAssoc(r, kind, f, Act(r, kind, vs[i], d), Act(r, kind, vs[n], ks[n]));
    }
  }

  /** A weight applied to a whole fold distributes over its weights. */
  function Scaled(k: int, ks: seq<int>): (s: seq<int>)
    ensures |s| == |ks|
  {
    seq(|ks|, i requires 0 <= i < |ks| => k * ks[i])
  }

  lemma {:induction false} FoldScaled<T(!new)>(r: Ring<T>, kind: Kind, k: int, ks: seq<int>, vs: seq<T>)
    requires r.Lawful() && |ks| == |vs| && Weights(kind, ks) && Weight(kind, k)
    ensures Fold(r, kind, Scaled(k, ks), vs) == Act(r, kind, Fold(r, kind, ks, vs), k)
  {
    if ks == [] {
      ActUnit(r, kind, k);
    } else {
      var n := |ks| - 1;
      assert Scaled(k, ks)[..n] == Scaled(k, ks[..n]);
      FoldScaled(r, kind, k, ks[..n], vs[..n]);
      ActJoin(r, kind, Fold(r, kind, ks[..n], vs[..n]), Act(r, kind, vs[n], ks[n]), k);
      ActAct(r, kind, vs[n], k, ks[n]);
    }
  }

  // ----- the tower base field < extension field -----

  /** The extension field with its base field: `lift` embeds, `isBase` recognises an
      embedded element and `toBase` reads its base coordinate. */
  datatype Tower<!F(!new), !E(!new)> = Tower(base: Ring<F>, ext: Ring<E>, liftFn: F -> E,
                                             isBaseFn: E -> bool, toBaseFn: E -> F)
  {
    function Lift(x: F): E { liftFn(x) }
    predicate IsBase(e: E) { isBaseFn(e) }
    function ToBase(e: E): F { toBaseFn(e) }

    ghost predicate LiftAt(x: F, y: F) {
      && Lift(base.Add(x, y)) == ext.Add(Lift(x), Lift(y))
      && Lift(base.Sub(x, y)) == ext.Sub(Lift(x), Lift(y))
      && Lift(base.Mul(x, y)) == ext.Mul(Lift(x), Lift(y))
      && IsBase(Lift(x))
    }

    ghost predicate BaseAt(e: E) {
      IsBase(e) ==> Lift(ToBase(e)) == e
    }

    ghost predicate IntLiftAt(n: int) {
      Lift(base.OfInt(n)) == ext.OfInt(n)
    }

    ghost predicate Lawful() {
      && base.Lawful()
      && ext.Lawful()
      && Lift(base.zero) == ext.zero
      && Lift(base.one) == ext.one
      && (forall x, y {:trigger LiftAt(x, y)} :: LiftAt(x, y))
      && (forall e {:trigger BaseAt(e)} :: BaseAt(e))
      && (forall n: int {:trigger IntLiftAt(n)} :: IntLiftAt(n))
    }

    function LiftAll(xs: seq<F>): (es: seq<E>)
      ensures |es| == |xs|
    {
      seq(|xs|, i requires 0 <= i < |xs| => Lift(xs[i]))
    }
  }

  lemma {:induction false} LiftPow<F(!new), E(!new)>(t: Tower<F, E>, x: F, n: int)
    requires t.Lawful()
    ensures t.Lift(t.base.Pow(x, n)) == t.ext.Pow(t.Lift(x), n)
    decreases n
  {
    if n > 0 {
      LiftPow(t, x, n - 1);
      assert t.LiftAt(t.base.Pow(x, n - 1), x);
    }
  }

  lemma LiftAct<F(!new), E(!new)>(t: Tower<F, E>, kind: Kind, x: F, k: int)
    requires t.Lawful()
    ensures t.Lift(Act(t.base, kind, x, k)) == Act(t.ext, kind, t.Lift(x), k)
  {
    if kind.Sum? {
      assert t.IntLiftAt(k) && t.LiftAt(t.base.OfInt(k), x);
    } else {
      LiftPow(t, x, k);
    }
  }

  lemma {:induction false} LiftFold<F(!new), E(!new)>(t: Tower<F, E>, kind: Kind, ks: seq<int>, vs: seq<F>)
    requires t.Lawful() && |ks| == |vs|
    ensures t.Lift(Fold(t.base, kind, ks, vs)) == Fold(t.ext, kind, ks, t.LiftAll(vs))
  {
    if ks != [] {
      var n := |ks| - 1;
      LiftFold(t, kind, ks[..n], vs[..n]);
      LiftAct(t, kind, vs[n], ks[n]);
      assert t.LiftAll(vs)[..n] == t.LiftAll(vs[..n]);
      assert t.LiftAt(Fold(t.base, kind, ks[..n], vs[..n]), Act(t.base, kind, vs[n], ks[n]));
    }
  }

  lemma {:induction false} LiftHorner<F(!new), E(!new)>(t: Tower<F, E>, x: F, cs: seq<F>)
    requires t.Lawful()
    ensures t.Lift(t.base.Horner(x, cs)) == t.ext.Horner(t.Lift(x), t.LiftAll(cs))
  {
    if cs != [] {
      LiftHorner(t, x, cs[1..]);
      assert t.LiftAll(cs)[1..] == t.LiftAll(cs[1..]);
      var h := t.base.Horner(x, cs[1..]);
      assert t.LiftAt(h, x) && t.LiftAt(t.base.Mul(h, x), cs[0]);
    }
  }

  // ----- the integers as a ring -----

  function Integers(): Ring<int> {
    Ring(0, 1, (x, y) => x + y, (x, y) => x - y, (x, y) => x * y, n => n)
  }

  lemma IntegersLawful()
    ensures Integers().Lawful()
  {
    var q := Integers();
    forall x, y, z ensures q.At3(x, y, z) {
      assert x * y * z == x * (y * z) && x * (y + z) == x * y + x * z;
    }
  }
}
