/** Which candidates an expression offers, told from its sub-expressions alone. */
module OfferMeaning {
  import opened Algebra
  import opened Expressions
  import opened Simplification
  import opened NormalForm
  import opened SubProducts
  import opened SubMultisets
  import opened Offers

  // ----- degrees grow towards the root -----

  lemma ChildDegree<E(!new)>(r: Ring<E>, g: DegreeGetter, e: Expr<E>, i: nat)
    requires WellFormed(e) && Normal(r, e) && i < |e.children|
    ensures Degree(g, e.children[i]) <= Degree(g, e)
  {
    var ns := DegreesOf(g, e.children);
    DegreeStep(g, e);
    assert Arity(e.op, |e.children|);
    if Nested(Prod, e) {
      forall j | 0 <= j < |ns| ensures 0 <= ns[j] { DegreeNonNegative(g, e.children[j]); }
      var one := seq(|ns|, j => if j == i then 1 else 0);
      assert forall j :: 0 <= j < |ns| ==> e.op.ks[j] != 0 && Weight(Prod, e.op.ks[j]);
      WeightMonotone(one, e.op.ks, ns);
      OneWeight(one, ns, i);
    } else {
      assert ns[i] <= MaxOf(ns);
    }
  }

  lemma {:induction false} OneWeight(one: seq<int>, ns: seq<int>, i: nat)
    requires |one| == |ns| && i < |one| && forall j :: 0 <= j < |one| ==> one[j] == if j == i then 1 else 0
    ensures TotalWeight(one, ns) == ns[i]
    decreases |one|
  {
    var n := |one| - 1;
    if i < n { OneWeight(one[..n], ns[..n], i); } else { WeightZero(one[..n], ns[..n]); }
  }

  lemma {:induction false} SubDegree<E(!new)>(r: Ring<E>, g: DegreeGetter, e: Expr<E>, x: Expr<E>)
    requires WellFormed(e) && Normal(r, e) && x in Subs(e)
    ensures Degree(g, x) <= Degree(g, e)
  {
    if x != e {
      var i :| 0 <= i < |e.children| && x in Subs(e.children[i]);
      SubDegree(r, g, e.children[i], x);
      ChildDegree(r, g, e, i);
    }
  }

  // ----- the offers of a node -----

  /** The positions from i on whose factor has the degree a factor must have. */
  ghost function HeavyFactors<E(!new)>(c: Setting<E>, x: Expr<E>, i: nat): set<nat> {
    set j: nat | i <= j < |x.children| && Degree(c.g, x.children[j]) >= c.cfg.minWeightForTerm
  }

  /** v chooses some but not all factors of the product x, and more than one factor to the first
      power; only heavy factors, and of these the last nLast if there is such a limit. */
  ghost predicate Selects<E(!new)>(c: Setting<E>, x: Expr<E>, v: seq<int>) {
    && Nested(Prod, x) && |v| == |x.op.ks| == |x.children|
    && (forall i :: 0 <= i < |v| ==> 0 <= v[i] <= x.op.ks[i])
    && v != x.op.ks && (exists i :: 0 <= i < |v| && v[i] != 0) && KeptKs(v) != [1]
    && (forall i :: 0 <= i < |v| && v[i] != 0 ==>
          i in HeavyFactors(c, x, i) && (c.cfg.nLast > 0 ==> |HeavyFactors(c, x, i)| <= c.cfg.nLast))
  }

  /** The chosen product has an admissible degree. */
  ghost predicate Admits<E(!new)>(c: Setting<E>, x: Expr<E>, v: seq<int>) {
    Selects(c, x, v)
    && c.cfg.minDegreeForCandidate <= Degree(c.g, MakeNary(c.r, Prod, x.children, v)) <= c.bound
  }

  ghost predicate PartOffered<E(!new)>(c: Setting<E>, x: Expr<E>, t: Expr<E>) {
    exists v :: Admits(c, x, v) && IsSub(c.r, x.children, v, t)
  }

  ghost predicate WholeOffered<E(!new)>(c: Setting<E>, x: Expr<E>, t: Expr<E>) {
    (x.op.Nary? || x.op.PolyEval?) && 1 <= Degree(c.g, x) <= c.bound && t == x
  }

  lemma AdmitsExactly<E(!new)>(c: Setting<E>, x: Expr<E>, v: seq<int>)
    requires WellFormed(x)
    ensures c.Chosen(x, v) <==> Admits(c, x, v)
  {
    assert Arity(x.op, |x.children|);
    if Nested(Prod, x) && |v| == |x.children| {
      var f := c.FrameOf(x);
      DegreeStep(c.g, MakeNary(c.r, Prod, x.children, v));
      forall i | 0 <= i < |v|
        ensures f.Eligible(i) <==>
                  i in HeavyFactors(c, x, i) && (c.cfg.nLast > 0 ==> |HeavyFactors(c, x, i)| <= c.cfg.nLast)
      {
        CountedIsHeavy(f, i);
        assert HeavyFrom(f, i) == HeavyFactors(c, x, i);
      }
    }
  }

  lemma PartExactly<E(!new)>(c: Setting<E>, x: Expr<E>, t: Expr<E>)
    requires WellFormed(x)
    ensures c.SubOffered(x, t) <==> PartOffered(c, x, t)
  {
    forall v ensures c.Chosen(x, v) <==> Admits(c, x, v) { AdmitsExactly(c, x, v); }
    if c.SubOffered(x, t) {
      var v :| c.Chosen(x, v) && t == SubProduct(c.r, x.children, v);
      assert Admits(c, x, v) && IsSub(c.r, x.children, v, t);
    }
    if PartOffered(c, x, t) {
      var v :| Admits(c, x, v) && IsSub(c.r, x.children, v, t);
      assert c.Chosen(x, v) && t == SubProduct(c.r, x.children, v);
    }
  }

  // ----- the offers of an expression -----

  /** t is the compound x itself, or a product of some of its factors, of admissible degree. */
  ghost predicate OfferedBy<E(!new)>(c: Setting<E>, x: Expr<E>, t: Expr<E>) {
    Degree(c.g, x) >= c.cfg.minDegreeForCandidate && (WholeOffered(c, x, t) || PartOffered(c, x, t))
  }

  lemma {:induction false} OfferedHas<E(!new)>(c: Setting<E>, e: Expr<E>, t: Expr<E>) returns (x: Expr<E>)
    requires WellFormed(e) && c.Offered(e, t)
    ensures x in Subs(e) && OfferedBy(c, x, t)
  {
    PartExactly(c, e, t);
    if OfferedBy(c, e, t) {
      x := e;
    } else {
      var i :| 0 <= i < |e.children| && c.Offered(e.children[i], t);
      x := OfferedHas(c, e.children[i], t);
      ChildSubs(e, i);
    }
  }

  lemma {:induction false} HasOffered<E(!new)>(c: Setting<E>, e: Expr<E>, t: Expr<E>, x: Expr<E>)
    requires WellFormed(e) && Normal(c.r, e) && x in Subs(e) && OfferedBy(c, x, t)
    ensures c.Offered(e, t)
  {
    SubDegree(c.r, c.g, e, x);
    if x == e {
      PartExactly(c, e, t);
    } else {
      var i :| 0 <= i < |e.children| && x in Subs(e.children[i]);
      HasOffered(c, e.children[i], t, x);
    }
  }

  /** An expression offers exactly what one of its sub-expressions of sufficient degree offers:
      the pruned descent misses nothing. */
  lemma OfferedExactly<E(!new)>(c: Setting<E>, e: Expr<E>, t: Expr<E>)
    requires WellFormed(e) && Normal(c.r, e)
    ensures c.Offered(e, t) <==> exists x :: x in Subs(e) && OfferedBy(c, x, t)
  {
    if c.Offered(e, t) { var x := OfferedHas(c, e, t); }
    if exists x :: x in Subs(e) && OfferedBy(c, x, t) {
      var x :| x in Subs(e) && OfferedBy(c, x, t);
      HasOffered(c, e, t, x);
    }
  }
}
