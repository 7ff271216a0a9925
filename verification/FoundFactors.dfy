/** When the search for a target's factors in a product succeeds. Factors are counted by hash and a
    later factor overwrites the count of an earlier one, so the search can miss a sub-product. */
module FoundFactors {
  import opened Algebra
  import opened Expressions
  import opened Simplification
  import opened NormalForm
  import opened Factoring
  import opened Substitution
  import opened Sizes
  import opened SubProducts

  // ----- any target -----

  /** What the target asks for under one hash. */
  ghost function Need<E(!new)>(ts: seq<Expr<E>>, ns: seq<int>, h: E): int
    requires |ts| == |ns|
  {
    if ts == [] then 0
    else
      var n := |ts| - 1;
      Need(ts[..n], ns[..n], h) + if ts[n].esh == h then ns[n] else 0
  }

  /** The map has what the target asks for. */
  ghost predicate Enough<E(!new)>(m: map<E, int>, ts: seq<Expr<E>>, ns: seq<int>)
    requires |ts| == |ns|
  {
    forall j :: 0 <= j < |ts| ==> Has(m, ts[j].esh, Need(ts, ns, ts[j].esh))
  }

  lemma {:induction false} SubtractLeaves<E(!new)>(m: map<E, int>, ts: seq<Expr<E>>, ns: seq<int>, h: E)
    requires |ts| == |ns| && Subtract(m, ts, ns).Some?
    ensures var m' := Subtract(m, ts, ns).value;
            (h in m' <==> h in m) && ExponentIn(m', h) == ExponentIn(m, h) - Need(ts, ns, h)
    decreases |ts|
  {
    if ts != [] { SubtractLeaves(m, ts[..|ts| - 1], ns[..|ts| - 1], h); }
  }

  lemma NeedGrows<E(!new)>(ts: seq<Expr<E>>, ns: seq<int>, h: E)
    requires |ts| == |ns| && ts != [] && Weights(Prod, ns)
    ensures var n := |ts| - 1; Need(ts[..n], ns[..n], h) <= Need(ts, ns, h)
  {
    assert Weight(Prod, ns[|ts| - 1]);
  }

  lemma EnoughFront<E(!new)>(m: map<E, int>, ts: seq<Expr<E>>, ns: seq<int>)
    requires |ts| == |ns| && ts != [] && Weights(Prod, ns) && Enough(m, ts, ns)
    ensures var n := |ts| - 1; Enough(m, ts[..n], ns[..n])
  {
    var n := |ts| - 1;
    forall j | 0 <= j < n ensures Has(m, ts[..n][j].esh, Need(ts[..n], ns[..n], ts[..n][j].esh)) {
      assert Has(m, ts[j].esh, Need(ts, ns, ts[j].esh));
      NeedGrows(ts, ns, ts[j].esh);
    }
  }

  lemma NeedSnoc<E(!new)>(ts: seq<Expr<E>>, ns: seq<int>, t: Expr<E>, k: int, h: E)
    requires |ts| == |ns|
    ensures Need(ts + [t], ns + [k], h) == Need(ts, ns, h) + if t.esh == h then k else 0
  {
    assert (ts + [t])[..|ts|] == ts && (ns + [k])[..|ts|] == ns;
  }

  lemma EnoughSnoc<E(!new)>(m: map<E, int>, ts: seq<Expr<E>>, ns: seq<int>, t: Expr<E>, k: int)
    requires |ts| == |ns| && Enough(m, ts, ns) && Has(m, t.esh, Need(ts, ns, t.esh) + k)
    ensures Enough(m, ts + [t], ns + [k])
  {
    var all, allNs := ts + [t], ns + [k];
    forall j | 0 <= j < |all| ensures Has(m, all[j].esh, Need(all, allNs, all[j].esh)) {
      NeedSnoc(ts, ns, t, k, all[j].esh);
      if j < |ts| { assert Has(m, ts[j].esh, Need(ts, ns, ts[j].esh)); }
    }
  }

  /** Subtraction succeeds exactly when the map has what the target asks for, hash by hash. */
  lemma {:induction false} SubtractExactly<E(!new)>(m: map<E, int>, ts: seq<Expr<E>>, ns: seq<int>)
    requires |ts| == |ns| && Weights(Prod, ns)
    ensures Subtract(m, ts, ns).Some? <==> Enough(m, ts, ns)
    decreases |ts|
  {
    if ts != [] {
      var n := |ts| - 1;
      SubtractExactly(m, ts[..n], ns[..n]);
      if Subtract(m, ts[..n], ns[..n]).Some? {
        SubtractLeaves(m, ts[..n], ns[..n], ts[n].esh);
        if Has(m, ts[n].esh, Need(ts, ns, ts[n].esh)) {
          EnoughSnoc(m, ts[..n], ns[..n], ts[n], ns[n]);
          assert ts == ts[..n] + [ts[n]] && ns == ns[..n] + [ns[n]];
        }
      } else if Enough(m, ts, ns) {
        EnoughFront(m, ts, ns);
      }
    }
  }

  // ----- a sub-product of the product itself -----

  lemma {:induction false} NeedKept<E(!new)>(cs: seq<Expr<E>>, v: seq<int>, h: E)
    requires |cs| == |v|
    ensures |KeptItems(cs, v)| == |KeptKs(v)| && Need(KeptItems(cs, v), KeptKs(v), h) == Need(cs, v, h)
  {
    KeptLengths(cs, v);
    if cs != [] {
      var n := |cs| - 1;
      NeedKept(cs[..n], v[..n], h);
      var ts, ns := KeptItems(cs[..n], v[..n]), KeptKs(v[..n]);
      if v[n] != 0 { NeedSnoc(ts, ns, cs[n], v[n], h); } else { assert ts + [] == ts && ns + [] == ns; }
    }
  }

  lemma {:induction false} KeptHas<E(!new)>(cs: seq<Expr<E>>, v: seq<int>, i: nat)
    requires |cs| == |v| && i < |cs| && v[i] != 0
    ensures cs[i] in KeptItems(cs, v)
  {
    if i < |cs| - 1 { KeptHas(cs[..|cs| - 1], v[..|cs| - 1], i); }
  }

  lemma {:induction false} NeedNone<E(!new)>(cs: seq<Expr<E>>, v: seq<int>, h: E)
    requires |cs| == |v| && forall i :: 0 <= i < |cs| ==> cs[i].esh != h
    ensures Need(cs, v, h) == 0
  {
    if cs != [] { NeedNone(cs[..|cs| - 1], v[..|cs| - 1], h); }
  }

  lemma {:induction false} NeedOne<E(!new)>(cs: seq<Expr<E>>, v: seq<int>, i: nat)
    requires |cs| == |v| && DistinctHashes(cs) && i < |cs|
    ensures Need(cs, v, cs[i].esh) == v[i]
  {
    var n := |cs| - 1;
    if i < n { NeedOne(cs[..n], v[..n], i); } else { NeedNone(cs[..n], v[..n], cs[n].esh); }
  }

  /** Two factors of the choice share the hash of the last factor, whose exponent is one. */
  ghost predicate Overdrawn<E(!new)>(cs: seq<Expr<E>>, v: seq<int>)
    requires |cs| == |v|
  {
    exists i :: 0 <= i < |cs| - 1 && cs[i].esh == cs[|cs| - 1].esh && v[i] + v[|cs| - 1] > 1
  }

  /** In a normal product only the last factor, a constant, can share a hash. */
  lemma FrontDistinct<E(!new)>(r: Ring<E>, cs: seq<Expr<E>>, ks: seq<int>)
    requires NormalTerms(r, Prod, cs, ks) && cs != []
    ensures DistinctHashes(cs[..|cs| - 1])
    ensures forall i :: 0 <= i < |cs| - 1 && cs[i].esh == cs[|cs| - 1].esh ==> ks[|cs| - 1] == 1
    ensures forall i, j :: 0 <= i < j < |cs| && cs[i].esh == cs[j].esh ==> j == |cs| - 1
  {
    var n := |cs| - 1;
    forall i, j | 0 <= i < j < n ensures cs[..n][i].esh != cs[..n][j].esh {
      assert !cs[i].op.Constant? && !cs[j].op.Constant?;
    }
  }

  /** What the product counts and what the choice needs, at the hash of a factor before the last. */
  lemma CountsAt<E(!new)>(r: Ring<E>, cs: seq<Expr<E>>, ks: seq<int>, v: seq<int>, i: nat)
    requires NormalTerms(r, Prod, cs, ks) && |v| == |cs| && i < |cs| - 1
    ensures var n, h := |cs| - 1, cs[i].esh;
            && h in BuildMap(cs, ks)
            && BuildMap(cs, ks)[h] == (if cs[n].esh == h then 1 else ks[i])
            && Need(cs, v, h) == v[i] + if cs[n].esh == h then v[n] else 0
  {
    var n := |cs| - 1;
    FrontDistinct(r, cs, ks);
    BuildMapHas(cs, ks, i);
    BuildMapAt(cs[..n], ks[..n], i);
    BuildMapHas(cs[..n], ks[..n], i);
    NeedOne(cs[..n], v[..n], i);
  }

  /** The same at the last factor when its hash is its own. */
  lemma CountsAtLast<E(!new)>(cs: seq<Expr<E>>, ks: seq<int>, v: seq<int>)
    requires |cs| == |ks| == |v| && cs != [] && forall i :: 0 <= i < |cs| - 1 ==> cs[i].esh != cs[|cs| - 1].esh
    ensures var n := |cs| - 1;
            && cs[n].esh in BuildMap(cs, ks) && BuildMap(cs, ks)[cs[n].esh] == ks[n]
            && Need(cs, v, cs[n].esh) == v[n]
  {
    var n := |cs| - 1;
    NeedNone(cs[..n], v[..n], cs[n].esh);
  }

  lemma EnoughKept<E(!new)>(m: map<E, int>, cs: seq<Expr<E>>, v: seq<int>)
    requires |cs| == |v|
    ensures |KeptItems(cs, v)| == |KeptKs(v)|
    ensures Enough(m, KeptItems(cs, v), KeptKs(v)) <==>
            forall i :: 0 <= i < |cs| && v[i] != 0 ==> Has(m, cs[i].esh, Need(cs, v, cs[i].esh))
  {
    KeptLengths(cs, v);
    var ts, ns := KeptItems(cs, v), KeptKs(v);
    if Enough(m, ts, ns) {
      forall i | 0 <= i < |cs| && v[i] != 0 ensures Has(m, cs[i].esh, Need(cs, v, cs[i].esh)) {
        KeptHas(cs, v, i);
        NeedKept(cs, v, cs[i].esh);
      }
    }
    if forall i :: 0 <= i < |cs| && v[i] != 0 ==> Has(m, cs[i].esh, Need(cs, v, cs[i].esh)) {
      forall j | 0 <= j < |ts| ensures Has(m, ts[j].esh, Need(ts, ns, ts[j].esh)) {
        var i := KeptSource(cs, v, j);
        NeedKept(cs, v, cs[i].esh);
      }
    }
  }

  /** The search finds a sub-product of a normal product in it, exactly unless the choice takes more
      than one in all from the last factor and a factor of the same hash. */
  lemma TermsFound<E(!new)>(r: Ring<E>, cs: seq<Expr<E>>, ks: seq<int>, v: seq<int>)
    requires NormalTerms(r, Prod, cs, ks) && |v| == |cs| && forall i :: 0 <= i < |v| ==> 0 <= v[i] <= ks[i]
    ensures |KeptItems(cs, v)| == |KeptKs(v)|
    ensures FactorOut(cs, ks, KeptItems(cs, v), KeptKs(v)).Some? <==> !Overdrawn(cs, v)
  {
    var m := BuildMap(cs, ks);
    KeptWeights(v);
    EnoughKept(m, cs, v);
    SubtractExactly(m, KeptItems(cs, v), KeptKs(v));
    forall i | 0 <= i < |cs| && v[i] != 0
      ensures Has(m, cs[i].esh, Need(cs, v, cs[i].esh)) || Overdrawn(cs, v)
    {
      FactorCounted(r, cs, ks, v, i);
    }
    if Overdrawn(cs, v) {
      var n := |cs| - 1;
      var i :| 0 <= i < n && cs[i].esh == cs[n].esh && v[i] + v[n] > 1;
      CountsAt(r, cs, ks, v, i);
    }
  }

  lemma FactorCounted<E(!new)>(r: Ring<E>, cs: seq<Expr<E>>, ks: seq<int>, v: seq<int>, i: nat)
    requires NormalTerms(r, Prod, cs, ks) && |v| == |cs| && i < |cs|
    requires forall i :: 0 <= i < |v| ==> 0 <= v[i] <= ks[i]
    ensures Has(BuildMap(cs, ks), cs[i].esh, Need(cs, v, cs[i].esh)) || Overdrawn(cs, v)
  {
    var n := |cs| - 1;
    if i < n {
      CountsAt(r, cs, ks, v, i);
    } else if forall j :: 0 <= j < n ==> cs[j].esh != cs[n].esh {
      CountsAtLast(cs, ks, v);
    } else {
      var j :| 0 <= j < n && cs[j].esh == cs[n].esh;
      CountsAt(r, cs, ks, v, j);
    }
  }

  lemma {:induction false} KeptWeights(v: seq<int>)
    requires Weights(Prod, v)
    ensures Weights(Prod, KeptKs(v))
  {
    if v != [] {
      forall i | 0 <= i < |v| ensures Weight(Prod, v[i]) { }
      KeptWeights(v[..|v| - 1]);
    }
  }

  // ----- products and their sub-products -----

  /** substituteSubProduct finds a sub-product of e in e, or e hashes to it, exactly unless the
      choice is overdrawn. */
  lemma SubProductFound<E(!new)>(r: Ring<E>, h: Env<E>, e: Expr<E>, v: seq<int>, w: Expr<E>)
    requires r.Lawful() && Built(r, h, e) && Choice(e, v)
    ensures var t := SubProduct(r, e.children, v);
            e.esh == t.esh || (Factored(r, e, t, w).Some? <==> !Overdrawn(e.children, v))
  {
    TermsFound(r, e.children, e.op.ks, v);
    SubProductForm(r, h, e, v);
  }

  lemma PairChoice<E(!new)>(r: Ring<E>, e: Expr<E>, i: nat) returns (v: seq<int>)
    requires Normal(r, e) && Nested(Prod, e) && i < |e.children| - 1
    requires e.children[i].esh == e.children[|e.children| - 1].esh
    ensures Choice(e, v) && Overdrawn(e.children, v)
  {
    var n := |e.children| - 1;
    v := seq(n + 1, j => if j == i || j == n then 1 else 0);
    forall j | 0 <= j < |v| ensures 0 <= v[j] <= e.op.ks[j] { assert Weight(Prod, e.op.ks[j]); }
    KeptNonEmpty(v[..n], i);
    assert v[i] + v[n] > 1;
  }

  /** Every sub-product of a product is found in it exactly when no two factors share a hash, that
      is, when no constant factor is the hash of another factor. */
  lemma AllFoundExactly<E(!new)>(r: Ring<E>, h: Env<E>, e: Expr<E>)
    requires Built(r, h, e) && Nested(Prod, e)
    ensures (forall v :: Choice(e, v) ==> Finds(e, v)) <==> DistinctHashes(e.children)
  {
    forall v | Choice(e, v) ensures Finds(e, v) <==> !Overdrawn(e.children, v) {
      TermsFound(r, e.children, e.op.ks, v);
    }
    if !DistinctHashes(e.children) {
      var i, j :| 0 <= i < j < |e.children| && e.children[i].esh == e.children[j].esh;
      FrontDistinct(r, e.children, e.op.ks);
      var v := PairChoice(r, e, i);
      assert Choice(e, v) && !Finds(e, v);
    }
  }

  ghost predicate Finds<E(!new)>(e: Expr<E>, v: seq<int>)
    requires Choice(e, v)
  {
    KeptLengths(e.children, v);
    FactorOut(e.children, e.op.ks, KeptItems(e.children, v), KeptKs(v)).Some?
  }

  // ----- what a round finds -----

  /** No product below e has two factors of one hash; the caller can check this. */
  ghost predicate Clear<E(!new)>(e: Expr<E>) {
    forall x :: x in Subs(e) && Nested(Prod, x) ==> DistinctHashes(x.children)
  }

  /** Clear is exact: every sub-product of every product below e is found in it. */
  lemma ClearExactly<E(!new)>(r: Ring<E>, h: Env<E>, e: Expr<E>)
    requires forall x :: x in Subs(e) ==> Built(r, h, x)
    ensures Clear(e) <==> forall x, v :: x in Subs(e) && Choice(x, v) ==> Finds(x, v)
  {
    forall x | x in Subs(e) && Nested(Prod, x)
      ensures (forall v :: Choice(x, v) ==> Finds(x, v)) <==> DistinctHashes(x.children)
    {
      AllFoundExactly(r, h, x);
    }
  }

  lemma ClearChild<E(!new)>(e: Expr<E>, i: nat)
    requires Clear(e) && i < |e.children|
    ensures Clear(e.children[i])
  {
    ChildSubs(e, i);
  }

  lemma {:induction false} SeparatedClear<E(!new)>(r: Ring<E>, e: Expr<E>, s: set<Expr<E>>)
    requires Normal(r, e) && Separated(s) && Subs(e) <= s
    ensures Clear(e)
  {
    forall x | x in Subs(e) && Nested(Prod, x) ensures DistinctHashes(x.children) {
      if x == e {
        ChildrenIn(e, s);
        NormalDistinct(r, e, s);
      } else {
        var i :| 0 <= i < |e.children| && x in Subs(e.children[i]);
        ChildSubs(e, i);
        SeparatedClear(r, e.children[i], s);
      }
    }
  }

  /** A sub-product of a clear expression is found again. */
  lemma SubProductOccurs<E(!new)>(r: Ring<E>, h: Env<E>, e: Expr<E>, v: seq<int>, w: Expr<E>)
    requires r.Lawful() && Built(r, h, e) && Choice(e, v) && Clear(e)
    ensures Occurs(r, e, SubProduct(r, e.children, v), w)
  {
    SubProductFound(r, h, e, v, w);
    assert e in Subs(e);
  }

  /** Where the target is not found nothing changes. */
  lemma {:induction false} MissedUnchanged<E(!new)>(r: Ring<E>, e: Expr<E>, t: Expr<E>, w: Expr<E>)
    requires !Occurs(r, e, t, w)
    ensures Substitute(r, e, t, w) == e
  {
    if e.children != [] {
      forall i | 0 <= i < |e.children| ensures Substitute(r, e.children[i], t, w) == e.children[i] {
        MissedUnchanged(r, e.children[i], t, w);
      }
      assert SubstituteAll(r, e.children, t, w) == e.children;
      SubstituteStep(r, e, t, w);
    }
  }

  /** Whether the target is found does not depend on its replacement. */
  lemma {:induction false} OccursAlike<E(!new)>(r: Ring<E>, e: Expr<E>, t: Expr<E>, w: Expr<E>, w': Expr<E>)
    requires Occurs(r, e, t, w)
    ensures Occurs(r, e, t, w')
  {
    if e.esh != t.esh && Factored(r, e, t, w).None? {
      var i :| 0 <= i < |e.children| && Occurs(r, e.children[i], t, w);
      OccursAlike(r, e.children[i], t, w, w');
    }
  }
}
