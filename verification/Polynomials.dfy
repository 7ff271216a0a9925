/** Polynomials in one variable over a ring, as lists of coefficients with the constant first. */
module Polynomials {
  import opened Algebra

  function Longer(m: nat, n: nat): nat {
    if m < n then n else m
  }

  function Plus<T(!new)>(r: Ring<T>, a: seq<T>, b: seq<T>): (p: seq<T>)
    ensures |p| == Longer(|a|, |b|)
  {
    if a == [] then b else if b == [] then a else [r.Add(a[0], b[0])] + Plus(r, a[1..], b[1..])
  }

  function Scale<T(!new)>(r: Ring<T>, c: T, a: seq<T>): (p: seq<T>)
    ensures |p| == |a|
  {
    if a == [] then [] else [r.Mul(c, a[0])] + Scale(r, c, a[1..])
  }

  function Times<T(!new)>(r: Ring<T>, a: seq<T>, b: seq<T>): (p: seq<T>)
    ensures |p| <= if a == [] || b == [] then |a| else |a| + |b| - 1
  {
    if a == [] then [] else Plus(r, Scale(r, a[0], b), [r.zero] + Times(r, a[1..], b))
  }

  function Power<T(!new)>(r: Ring<T>, a: seq<T>, n: int): seq<T>
    decreases n
  {
    if n <= 0 then [r.one] else Times(r, Power(r, a, n - 1), a)
  }

  /** The linear combination (kind Sum) or the product of powers (kind Prod). */
  function Combine<T(!new)>(r: Ring<T>, kind: Kind, ks: seq<int>, ps: seq<seq<T>>): seq<T>
    requires |ks| == |ps|
  {
    if ks == [] then [Unit(r, kind)]
    else
      var n := |ks| - 1;
      var front := Combine(r, kind, ks[..n], ps[..n]);
      if kind.Sum? then Plus(r, front, Scale(r, r.OfInt(ks[n]), ps[n])) else Times(r, front, Power(r, ps[n], ks[n]))
  }

  /** The polynomial with these coefficients, themselves polynomials, at a polynomial. */
  function Compose<T(!new)>(r: Ring<T>, x: seq<T>, cs: seq<seq<T>>): seq<T> {
    if cs == [] then [] else Plus(r, Times(r, Compose(r, x, cs[1..]), x), cs[0])
  }

  // ----- values -----

  lemma AddSwap<T(!new)>(r: Ring<T>, a: T, b: T, c: T, d: T)
    requires r.Lawful()
    ensures r.Add(r.Add(a, b), r.Add(c, d)) == r.Add(r.Add(a, c), r.Add(b, d))
  {
    assert r.At3(a, b, r.Add(c, d)) && r.At3(b, c, d) && r.At2(b, c) && r.At3(c, b, d);
    assert r.At3(a, c, r.Add(b, d));
  }

  lemma {:induction false} PlusAt<T(!new)>(r: Ring<T>, a: seq<T>, b: seq<T>, x: T)
    requires r.Lawful()
    ensures r.Horner(x, Plus(r, a, b)) == r.Add(r.Horner(x, a), r.Horner(x, b))
  {
    if a == [] {
      assert r.At1(r.Horner(x, b));
    } else if b == [] {
      assert r.At1(r.Horner(x, a)) && r.At2(r.zero, r.Horner(x, a));
    } else {
      PlusAt(r, a[1..], b[1..], x);
      var u, v := r.Horner(x, a[1..]), r.Horner(x, b[1..]);
      assert Plus(r, a, b)[1..] == Plus(r, a[1..], b[1..]);
      Distribute(r, u, v, x);
      AddSwap(r, r.Mul(u, x), r.Mul(v, x), a[0], b[0]);
    }
  }

  lemma {:induction false} ScaleAt<T(!new)>(r: Ring<T>, c: T, a: seq<T>, x: T)
    requires r.Lawful()
    ensures r.Horner(x, Scale(r, c, a)) == r.Mul(c, r.Horner(x, a))
  {
    if a == [] {
      MulZero(r, c);
    } else {
      ScaleAt(r, c, a[1..], x);
      var u := r.Horner(x, a[1..]);
      assert Scale(r, c, a)[1..] == Scale(r, c, a[1..]);
      assert r.At3(c, u, x) && r.At3(c, r.Mul(u, x), a[0]);
    }
  }

  lemma ShiftAt<T(!new)>(r: Ring<T>, a: seq<T>, x: T)
    requires r.Lawful()
    ensures r.Horner(x, [r.zero] + a) == r.Mul(r.Horner(x, a), x)
  {
    assert ([r.zero] + a)[1..] == a;
    var u := r.Mul(r.Horner(x, a), x);
    assert r.At1(u) && r.At2(r.zero, u);
  }

  lemma {:induction false} TimesAt<T(!new)>(r: Ring<T>, a: seq<T>, b: seq<T>, x: T)
    requires r.Lawful()
    ensures r.Horner(x, Times(r, a, b)) == r.Mul(r.Horner(x, a), r.Horner(x, b))
  {
    var v := r.Horner(x, b);
    if a == [] {
      MulZero(r, v);
    } else {
      TimesAt(r, a[1..], b, x);
      ScaleAt(r, a[0], b, x);
      ShiftAt(r, Times(r, a[1..], b), x);
      PlusAt(r, Scale(r, a[0], b), [r.zero] + Times(r, a[1..], b), x);
      ProductStep(r, r.Horner(x, a[1..]), a[0], v, x);
    }
  }

  lemma ProductStep<T(!new)>(r: Ring<T>, u: T, a: T, v: T, x: T)
    requires r.Lawful()
    ensures r.Add(r.Mul(a, v), r.Mul(r.Mul(u, v), x)) == r.Mul(r.Add(r.Mul(u, x), a), v)
  {
    Distribute(r, r.Mul(u, x), a, v);
    assert r.At3(u, v, x) && r.At2(v, x) && r.At3(u, x, v);
    assert r.At2(r.Mul(a, v), r.Mul(r.Mul(u, v), x));
  }

  lemma ConstantAt<T(!new)>(r: Ring<T>, c: T, x: T)
    requires r.Lawful()
    ensures r.Horner(x, [c]) == c
  {
    assert [c][1..] == [];
    MulZero(r, x);
    assert r.At1(c);
  }

  lemma {:induction false} PowerAt<T(!new)>(r: Ring<T>, a: seq<T>, n: int, x: T)
    requires r.Lawful()
    ensures r.Horner(x, Power(r, a, n)) == r.Pow(r.Horner(x, a), n)
    decreases n
  {
    if n <= 0 {
      ConstantAt(r, r.one, x);
    } else {
      PowerAt(r, a, n - 1, x);
      TimesAt(r, Power(r, a, n - 1), a, x);
    }
  }

  function ValuesAt<T(!new)>(r: Ring<T>, ps: seq<seq<T>>, x: T): (vs: seq<T>)
    ensures |vs| == |ps|
  {
    seq(|ps|, i requires 0 <= i < |ps| => r.Horner(x, ps[i]))
  }

  lemma {:induction false} CombineAt<T(!new)>(r: Ring<T>, kind: Kind, ks: seq<int>, ps: seq<seq<T>>, x: T)
    requires r.Lawful() && |ks| == |ps|
    ensures r.Horner(x, Combine(r, kind, ks, ps)) == Fold(r, kind, ks, ValuesAt(r, ps, x))
  {
    if ks == [] {
      ConstantAt(r, Unit(r, kind), x);
    } else {
      var n := |ks| - 1;
      CombineAt(r, kind, ks[..n], ps[..n], x);
      assert ValuesAt(r, ps, x)[..n] == ValuesAt(r, ps[..n], x);
      var front := Combine(r, kind, ks[..n], ps[..n]);
      if kind.Sum? {
        ScaleAt(r, r.OfInt(ks[n]), ps[n], x);
        PlusAt(r, front, Scale(r, r.OfInt(ks[n]), ps[n]), x);
      } else {
        PowerAt(r, ps[n], ks[n], x);
        TimesAt(r, front, Power(r, ps[n], ks[n]), x);
      }
    }
  }

  lemma {:induction false} ComposeAt<T(!new)>(r: Ring<T>, p: seq<T>, cs: seq<seq<T>>, x: T)
    requires r.Lawful()
    ensures r.Horner(x, Compose(r, p, cs)) == r.Horner(r.Horner(x, p), ValuesAt(r, cs, x))
  {
    if cs != [] {
      ComposeAt(r, p, cs[1..], x);
      assert ValuesAt(r, cs, x)[1..] == ValuesAt(r, cs[1..], x);
      TimesAt(r, Compose(r, p, cs[1..]), p, x);
      PlusAt(r, Times(r, Compose(r, p, cs[1..]), p), cs[0], x);
    }
  }

  // ----- degrees -----

  /** The polynomial has no power above d. */
  predicate UpTo<T>(p: seq<T>, d: int) {
    |p| <= d + 1
  }

  lemma TimesUpTo<T(!new)>(r: Ring<T>, a: seq<T>, b: seq<T>, m: nat, n: nat)
    requires UpTo(a, m) && UpTo(b, n)
    ensures UpTo(Times(r, a, b), m + n)
  {
  }

  lemma {:induction false} PowerUpTo<T(!new)>(r: Ring<T>, a: seq<T>, n: nat, d: nat)
    requires UpTo(a, d)
    ensures 0 <= n * d && UpTo(Power(r, a, n), n * d)
  {
    if n > 0 {
      PowerUpTo(r, a, n - 1, d);
      assert n * d == (n - 1) * d + d;
      TimesUpTo(r, Power(r, a, n - 1), a, (n - 1) * d, d);
    }
  }
}
