/** Factoring a sub-product out of a product by comparing hashes. */
module Factoring {
  import opened Algebra
  import opened Expressions
  import opened Simplification
  import opened Wrappers

  /** The remaining exponent per hash: a later child overwrites an earlier one. */
  function BuildMap<E(==)>(cs: seq<Expr<E>>, ks: seq<int>): map<E, int>
    requires |cs| == |ks|
  {
    if cs == [] then map[]
    else
      var n := |cs| - 1;
      BuildMap(cs[..n], ks[..n])[cs[n].esh := ks[n]]
  }

  function Subtract<E(==)>(m: map<E, int>, ts: seq<Expr<E>>, ns: seq<int>): Option<map<E, int>>
    requires |ts| == |ns|
  {
    if ts == [] then Some(m)
    else
      var n := |ts| - 1;
      match Subtract(m, ts[..n], ns[..n])
      case None => None
      case Some(m') =>
        var h := ts[n].esh;
        if h in m' && m'[h] >= ns[n] then Some(m'[h := m'[h] - ns[n]]) else None
  }

  datatype Gathered<E> = Gathered(left: map<E, int>, items: seq<Expr<E>>, ks: seq<int>)

  /** Collects the children that are left; a hash is collected once. */
  function Collect<E(==)>(m: map<E, int>, cs: seq<Expr<E>>): (g: Gathered<E>)
    ensures |g.items| == |g.ks|
  {
    if cs == [] then Gathered(m, [], [])
    else
      var n := |cs| - 1;
      var g := Collect(m, cs[..n]);
      var h := cs[n].esh;
      if h in g.left && g.left[h] > 0 then Gathered(g.left[h := 0], g.items + [cs[n]], g.ks + [g.left[h]]) else g
  }

  /** The factors that remain of a product after taking out the target's factors. */
  function FactorOut<E(==)>(cs: seq<Expr<E>>, ks: seq<int>, ts: seq<Expr<E>>,
                            ns: seq<int>): (res: Option<(seq<Expr<E>>, seq<int>)>)
    requires |cs| == |ks| && |ts| == |ns|
    ensures res.Some? ==> |res.value.0| == |res.value.1|
  {
    match Subtract(BuildMap(cs, ks), ts, ns)
    case None => None
    case Some(m) => var g := Collect(m, cs); Some((g.items, g.ks))
  }

  method ExponentMap<E(==)>(cs: seq<Expr<E>>, ks: seq<int>) returns (m: map<E, int>)
    requires |cs| == |ks|
    ensures m == BuildMap(cs, ks)
  {
    m := map[];
    for i := 0 to |cs|
      invariant m == BuildMap(cs[..i], ks[..i])
    {
      assert cs[..i + 1][..i] == cs[..i] && ks[..i + 1][..i] == ks[..i];
      m := m[cs[i].esh := ks[i]];
    }
    assert cs[..|cs|] == cs && ks[..|cs|] == ks;
  }

  method TakeOut<E(==)>(m: map<E, int>, ts: seq<Expr<E>>, ns: seq<int>) returns (left: map<E, int>, found: bool)
    requires |ts| == |ns|
    ensures Subtract(m, ts, ns) == if found then Some(left) else None
  {
    left := m;
    for i := 0 to |ts|
      invariant Subtract(m, ts[..i], ns[..i]) == Some(left)
    {
      assert ts[..i + 1][..i] == ts[..i] && ns[..i + 1][..i] == ns[..i];
      var h := ts[i].esh;
      if h !in left || left[h] < ns[i] {
        SubtractFails(m, ts, ns, i + 1);
        return left, false;
      }
      left := left[h := left[h] - ns[i]];
    }
    assert ts[..|ts|] == ts && ns[..|ts|] == ns;
    found := true;
  }

  method CollectLeft<E(==)>(left: map<E, int>, cs: seq<Expr<E>>) returns (items: seq<Expr<E>>, exps: seq<int>)
    ensures items == Collect(left, cs).items && exps == Collect(left, cs).ks
  {
    var m := left;
    items, exps := [], [];
    for i := 0 to |cs|
      invariant Collect(left, cs[..i]) == Gathered(m, items, exps)
    {
      assert cs[..i + 1][..i] == cs[..i];
      var h := cs[i].esh;
      if h in m && m[h] > 0 {
        items, exps := items + [cs[i]], exps + [m[h]];
        m := m[h := 0];
      }
    }
    assert cs[..|cs|] == cs;
  }

  /** factorOutSubProduct. */
  method FactorOutSubProduct<E(==)>(cs: seq<Expr<E>>, ks: seq<int>, ts: seq<Expr<E>>, ns: seq<int>)
    returns (items: seq<Expr<E>>, exps: seq<int>, found: bool)
    requires |cs| == |ks| && |ts| == |ns|
    ensures FactorOut(cs, ks, ts, ns) == if found then Some((items, exps)) else None
  {
    var m := ExponentMap(cs, ks);
    m, found := TakeOut(m, ts, ns);
    if found { items, exps := CollectLeft(m, cs); } else { items, exps := [], []; }
  }

  lemma {:induction false} SubtractFails<E>(m: map<E, int>, ts: seq<Expr<E>>, ns: seq<int>, n: nat)
    requires |ts| == |ns| && n <= |ts| && Subtract(m, ts[..n], ns[..n]).None?
    ensures Subtract(m, ts, ns).None?
    decreases |ts|
  {
    if n < |ts| {
      var k := |ts| - 1;
      assert ts[..k][..n] == ts[..n] && ns[..k][..n] == ns[..n];
      SubtractFails(m, ts[..k], ns[..k], n);
    } else {
      assert ts[..n] == ts && ns[..n] == ns;
    }
  }

  // ----- products with pairwise distinct hashes -----

  ghost function ExponentIn<E>(m: map<E, int>, h: E): int {
    if h in m then m[h] else 0
  }

  /** The exponents that the map leaves to the children. */
  ghost function Exps<E(!new)>(m: map<E, int>, cs: seq<Expr<E>>): (ks: seq<int>)
    ensures |ks| == |cs|
  {
    seq(|cs|, i requires 0 <= i < |cs| => ExponentIn(m, cs[i].esh))
  }

  /** The keys of the map are hashes of children, and no exponent is negative. */
  ghost predicate Over<E(!new)>(m: map<E, int>, cs: seq<Expr<E>>) {
    forall h :: h in m ==> 0 <= m[h] && exists i :: 0 <= i < |cs| && cs[i].esh == h
  }

  lemma {:induction false} BuildMapOver<E(!new)>(cs: seq<Expr<E>>, ks: seq<int>)
    requires |cs| == |ks| && Weights(Prod, ks)
    ensures Over(BuildMap(cs, ks), cs)
  {
    if cs != [] {
      var n := |cs| - 1;
      BuildMapOver(cs[..n], ks[..n]);
      assert Weight(Prod, ks[n]);
      forall h | h in BuildMap(cs, ks) ensures 0 <= BuildMap(cs, ks)[h] && exists i :: 0 <= i < |cs| && cs[i].esh == h {
        if h != cs[n].esh {
          var i :| 0 <= i < n && cs[..n][i].esh == h;
          assert cs[i].esh == h;
        }
      }
    }
  }

  lemma {:induction false} BuildMapAt<E(!new)>(cs: seq<Expr<E>>, ks: seq<int>, i: nat)
    requires |cs| == |ks| && DistinctHashes(cs) && i < |cs|
    ensures ExponentIn(BuildMap(cs, ks), cs[i].esh) == ks[i]
  {
    if i < |cs| - 1 { BuildMapAt(cs[..|cs| - 1], ks[..|cs| - 1], i); }
  }

  lemma BuildMapExps<E(!new)>(cs: seq<Expr<E>>, ks: seq<int>)
    requires |cs| == |ks| && DistinctHashes(cs)
    ensures Exps(BuildMap(cs, ks), cs) == ks
  {
    forall i | 0 <= i < |cs| ensures Exps(BuildMap(cs, ks), cs)[i] == ks[i] { BuildMapAt(cs, ks, i); }
  }

  /** The values of the target's factors agree with those of the factors of equal hash. */
  ghost predicate Agree<E(!new), T(!new)>(cs: seq<Expr<E>>, vs: seq<T>, ts: seq<Expr<E>>, ws: seq<T>) {
    && |cs| == |vs| && |ts| == |ws|
    && forall i, j :: 0 <= i < |cs| && 0 <= j < |ts| && cs[i].esh == ts[j].esh ==> vs[i] == ws[j]
  }

  lemma SubtractOne<E(!new), T(!new)>(q: Ring<T>, kind: Kind, m: map<E, int>, cs: seq<Expr<E>>, vs: seq<T>, h: E, w: T,
                                      k: int)
    requires q.Lawful() && DistinctHashes(cs) && |vs| == |cs| && Over(m, cs) && h in m && 0 <= k <= m[h]
    requires forall i :: 0 <= i < |cs| && cs[i].esh == h ==> vs[i] == w
    ensures var m' := m[h := m[h] - k];
            && Over(m', cs)
            && Fold(q, kind, Exps(m, cs), vs) == Join(q, kind, Fold(q, kind, Exps(m', cs), vs), Act(q, kind, w, k))
  {
    var m' := m[h := m[h] - k];
    var i :| 0 <= i < |cs| && cs[i].esh == h;
    var ks := Exps(m', cs);
    assert Exps(m, cs) == ks[i := ks[i] + k] by {
      forall j | 0 <= j < |cs| ensures Exps(m, cs)[j] == ks[i := ks[i] + k][j] { }
    }
    assert Weights(kind, ks);
    FoldBump(q, kind, ks, vs, i, k);
  }

  lemma SubtractLast<E(!new)>(m: map<E, int>, ts: seq<Expr<E>>, ns: seq<int>) returns (mid: map<E, int>)
    requires |ts| == |ns| && ts != [] && Subtract(m, ts, ns).Some?
    ensures var n := |ts| - 1;
            var h := ts[n].esh;
            && Subtract(m, ts[..n], ns[..n]) == Some(mid) && h in mid && ns[n] <= mid[h]
            && Subtract(m, ts, ns) == Some(mid[h := mid[h] - ns[n]])
  {
    mid := Subtract(m, ts[..|ts| - 1], ns[..|ts| - 1]).value;
  }

  /** One more factor taken out of what the earlier ones left. */
  lemma SubtractMore<E(!new), T(!new)>(q: Ring<T>, kind: Kind, mid: map<E, int>, cs: seq<Expr<E>>, vs: seq<T>, h: E,
                                       w: T, k: int, all: T, taken: T)
    requires q.Lawful() && DistinctHashes(cs) && |vs| == |cs| && Over(mid, cs) && h in mid && 0 <= k <= mid[h]
    requires forall i :: 0 <= i < |cs| && cs[i].esh == h ==> vs[i] == w
    requires all == Join(q, kind, Fold(q, kind, Exps(mid, cs), vs), taken)
    ensures var m' := mid[h := mid[h] - k];
            && Over(m', cs)
            && all == Join(q, kind, Fold(q, kind, Exps(m', cs), vs), Join(q, kind, taken, Act(q, kind, w, k)))
  {
    SubtractOne(q, kind, mid, cs, vs, h, w, k);
    JoinSwapLast(q, kind, Fold(q, kind, Exps(mid[h := mid[h] - k], cs), vs), Act(q, kind, w, k), taken);
  }

  /** Subtracting the target's exponents divides its fold out. */
  lemma {:induction false} SubtractFold<E(!new), T(!new)>(q: Ring<T>, kind: Kind, m: map<E, int>, cs: seq<Expr<E>>,
                                                          vs: seq<T>, ts: seq<Expr<E>>, ns: seq<int>, ws: seq<T>)
    requires q.Lawful() && DistinctHashes(cs) && Over(m, cs) && |ts| == |ns| && Weights(Prod, ns)
             && Agree(cs, vs, ts, ws)
    requires Subtract(m, ts, ns).Some?
    ensures var m' := Subtract(m, ts, ns).value;
            && Over(m', cs)
            && Fold(q, kind, Exps(m, cs), vs) == Join(q, kind, Fold(q, kind, Exps(m', cs), vs), Fold(q, kind, ns, ws))
    decreases |ts|
  {
    var all := Fold(q, kind, Exps(m, cs), vs);
    if ts == [] {
      JoinUnit(q, kind, all);
      JoinComm(q, kind, Unit(q, kind), all);
    } else {
      var n := |ts| - 1;
      var mid := SubtractLast(m, ts, ns);
      SubtractFold(q, kind, m, cs, vs, ts[..n], ns[..n], ws[..n]);
      assert Weight(Prod, ns[n]);
      SubtractMore(q, kind, mid, cs, vs, ts[n].esh, ws[n], ns[n], all, Fold(q, kind, ns[..n], ws[..n]));
    }
  }

  lemma JoinSwapLast<T(!new)>(q: Ring<T>, kind: Kind, x: T, y: T, z: T)
    requires q.Lawful()
    ensures Join(q, kind, Join(q, kind, x, y), z) == Join(q, kind, x, Join(q, kind, z, y))
  {
    JoinAssoc(q, kind, x, y, z);
    JoinComm(q, kind, y, z);
  }

  // ----- what is collected -----

  ghost function Kept<T>(vs: seq<T>, ks: seq<int>): (ws: seq<T>)
    requires |vs| == |ks|
    ensures |ws| == |KeptKs(ks)|
  {
    if vs == [] then []
    else
      var n := |vs| - 1;
      Kept(vs[..n], ks[..n]) + if ks[n] != 0 then [vs[n]] else []
  }

  lemma {:induction false} KeptFold<T(!new)>(q: Ring<T>, kind: Kind, ks: seq<int>, vs: seq<T>)
    requires q.Lawful() && |vs| == |ks|
    ensures Fold(q, kind, KeptKs(ks), Kept(vs, ks)) == Fold(q, kind, ks, vs)
  {
    if ks != [] {
      var n := |ks| - 1;
      KeptFold(q, kind, ks[..n], vs[..n]);
      if ks[n] == 0 {
        ActZero(q, kind, vs[n]);
        assert Kept(vs, ks) == Kept(vs[..n], ks[..n]) && KeptKs(ks) == KeptKs(ks[..n]);
        JoinUnit(q, kind, Fold(q, kind, ks[..n], vs[..n]));
        JoinComm(q, kind, Unit(q, kind), Fold(q, kind, ks[..n], vs[..n]));
      } else {
        FoldSnoc(q, kind, KeptKs(ks[..n]), Kept(vs[..n], ks[..n]), ks[n], vs[n]);
      }
    }
  }

  /** With distinct hashes the collected factors are the children of positive exponent. */
  lemma {:induction false} CollectKept<E(!new)>(m: map<E, int>, cs: seq<Expr<E>>)
    requires DistinctHashes(cs) && forall h :: h in m ==> 0 <= m[h]
    ensures var g := Collect(m, cs);
            && g.items == KeptItems(cs, Exps(m, cs)) && g.ks == KeptKs(Exps(m, cs))
            && forall h :: (forall i :: 0 <= i < |cs| ==> cs[i].esh != h) ==> ExponentIn(g.left, h) == ExponentIn(m, h)
  {
    if cs != [] {
      var n := |cs| - 1;
      CollectKept(m, cs[..n]);
      assert Exps(m, cs)[..n] == Exps(m, cs[..n]);
      var g, h := Collect(m, cs[..n]), cs[n].esh;
      assert ExponentIn(g.left, h) == ExponentIn(m, h) == Exps(m, cs)[n];
      forall h' | forall i :: 0 <= i < |cs| ==> cs[i].esh != h'
        ensures ExponentIn(Collect(m, cs).left, h') == ExponentIn(m, h')
      {
        assert forall i :: 0 <= i < n ==> cs[..n][i].esh != h';
        assert cs[n].esh != h';
      }
    }
  }

  /** Factoring out is division: for every valuation in which equal hashes have equal values
      the fold of the product is that of the remaining factors joined with the target's. */
  lemma FactorOutFold<E(!new), T(!new)>(q: Ring<T>, kind: Kind, cs: seq<Expr<E>>, ks: seq<int>, vs: seq<T>,
                                        ts: seq<Expr<E>>, ns: seq<int>, ws: seq<T>) returns (exps: seq<int>)
    requires q.Lawful() && |cs| == |ks| && |ts| == |ns| && Weights(Prod, ks) && Weights(Prod, ns)
    requires DistinctHashes(cs) && Agree(cs, vs, ts, ws) && FactorOut(cs, ks, ts, ns).Some?
    ensures |exps| == |cs| && Weights(Prod, exps) && (forall i :: 0 <= i < |cs| ==> exps[i] <= ks[i])
    ensures FactorOut(cs, ks, ts, ns).value == (KeptItems(cs, exps), KeptKs(exps))
    ensures Fold(q, kind, ks, vs) == Join(q, kind, Fold(q, kind, KeptKs(exps), Kept(vs, exps)), Fold(q, kind, ns, ws))
  {
    var m := BuildMap(cs, ks);
    BuildMapExps(cs, ks);
    BuildMapOver(cs, ks);
    SubtractFold(q, kind, m, cs, vs, ts, ns, ws);
    var m' := Subtract(m, ts, ns).value;
    exps := Exps(m', cs);
    CollectKept(m', cs);
    KeptFold(q, kind, exps, vs);
    SubtractLowers(m, ts, ns);
    forall i | 0 <= i < |cs| ensures exps[i] <= ks[i] {
      assert Exps(m, cs)[i] == ks[i];
    }
  }

  lemma {:induction false} SubtractLowers<E(!new)>(m: map<E, int>, ts: seq<Expr<E>>, ns: seq<int>)
    requires |ts| == |ns| && Weights(Prod, ns) && Subtract(m, ts, ns).Some?
    ensures forall h :: ExponentIn(Subtract(m, ts, ns).value, h) <= ExponentIn(m, h)
    decreases |ts|
  {
    if ts != [] {
      var n := |ts| - 1;
      SubtractLowers(m, ts[..n], ns[..n]);
      assert Weight(Prod, ns[n]);
    }
  }

  // ----- when a target can be factored out -----

  /** Some factor has this hash and at least this exponent. */
  ghost predicate Covers<E(!new)>(cs: seq<Expr<E>>, ks: seq<int>, h: E, k: int)
    requires |cs| == |ks|
  {
    exists i :: 0 <= i < |cs| && cs[i].esh == h && k <= ks[i]
  }

  ghost predicate SubMultiset<E(!new)>(cs: seq<Expr<E>>, ks: seq<int>, ts: seq<Expr<E>>, ns: seq<int>)
    requires |cs| == |ks| && |ts| == |ns|
  {
    forall j :: 0 <= j < |ts| ==> Covers(cs, ks, ts[j].esh, ns[j])
  }

  lemma BuildMapCovers<E(!new)>(cs: seq<Expr<E>>, ks: seq<int>, h: E, k: int)
    requires |cs| == |ks| && DistinctHashes(cs) && Weights(Prod, ks)
    ensures var m := BuildMap(cs, ks);
            Has(m, h, k) <==> Covers(cs, ks, h, k)
  {
    var m := BuildMap(cs, ks);
    BuildMapOver(cs, ks);
    if h in m && m[h] >= k {
      var i :| 0 <= i < |cs| && cs[i].esh == h;
      BuildMapAt(cs, ks, i);
    }
    if Covers(cs, ks, h, k) {
      var i :| 0 <= i < |cs| && cs[i].esh == h && k <= ks[i];
      BuildMapAt(cs, ks, i);
      BuildMapHas(cs, ks, i);
    }
  }

  lemma {:induction false} BuildMapHas<E(!new)>(cs: seq<Expr<E>>, ks: seq<int>, i: nat)
    requires |cs| == |ks| && i < |cs|
    ensures cs[i].esh in BuildMap(cs, ks)
  {
    if i < |cs| - 1 { BuildMapHas(cs[..|cs| - 1], ks[..|cs| - 1], i); }
  }

  lemma {:induction false} SubtractFrame<E(!new)>(m: map<E, int>, ts: seq<Expr<E>>, ns: seq<int>, h: E)
    requires |ts| == |ns| && Subtract(m, ts, ns).Some? && forall j :: 0 <= j < |ts| ==> ts[j].esh != h
    ensures var m' := Subtract(m, ts, ns).value;
            (h in m' <==> h in m) && ExponentIn(m', h) == ExponentIn(m, h)
    decreases |ts|
  {
    if ts != [] { SubtractFrame(m, ts[..|ts| - 1], ns[..|ts| - 1], h); }
  }

  ghost predicate Has<E(!new)>(m: map<E, int>, h: E, k: int) {
    h in m && m[h] >= k
  }

  lemma {:induction false} SubtractWhen<E(!new)>(m: map<E, int>, ts: seq<Expr<E>>, ns: seq<int>)
    requires |ts| == |ns| && DistinctHashes(ts)
    ensures Subtract(m, ts, ns).Some? <==> forall j :: 0 <= j < |ts| ==> Has(m, ts[j].esh, ns[j])
    decreases |ts|
  {
    if ts != [] {
      var n := |ts| - 1;
      SubtractWhen(m, ts[..n], ns[..n]);
      if Subtract(m, ts[..n], ns[..n]).Some? {
        SubtractFrame(m, ts[..n], ns[..n], ts[n].esh);
        forall j | 0 <= j < n ensures Has(m, ts[j].esh, ns[j]) {
          assert Has(m, ts[..n][j].esh, ns[..n][j]);
        }
      } else {
        var j :| 0 <= j < n && !Has(m, ts[..n][j].esh, ns[..n][j]);
        assert !Has(m, ts[j].esh, ns[j]);
      }
    }
  }

  /** A target is factored out exactly when its factors form a sub-multiset, by hash, of the
      factors of the product. */
  lemma FactorOutFound<E(!new)>(cs: seq<Expr<E>>, ks: seq<int>, ts: seq<Expr<E>>, ns: seq<int>)
    requires |cs| == |ks| && |ts| == |ns| && Weights(Prod, ks) && DistinctHashes(cs) && DistinctHashes(ts)
    ensures FactorOut(cs, ks, ts, ns).Some? <==> SubMultiset(cs, ks, ts, ns)
  {
    SubtractWhen(BuildMap(cs, ks), ts, ns);
    forall j | 0 <= j < |ts|
      ensures Has(BuildMap(cs, ks), ts[j].esh, ns[j]) <==> Covers(cs, ks, ts[j].esh, ns[j])
    {
      BuildMapCovers(cs, ks, ts[j].esh, ns[j]);
    }
  }

  /** What remains consists of factors of the product with positive exponents. */
  ghost predicate Remaining<E(!new)>(items: seq<Expr<E>>, ks: seq<int>, cs: seq<Expr<E>>) {
    |items| == |ks| && forall i :: 0 <= i < |items| ==> items[i] in cs && ks[i] > 0
  }

  lemma {:induction false} CollectRemaining<E(!new)>(m: map<E, int>, cs: seq<Expr<E>>)
    ensures Remaining(Collect(m, cs).items, Collect(m, cs).ks, cs)
  {
    if cs != [] {
      CollectRemaining(m, cs[..|cs| - 1]);
      var g, g' := Collect(m, cs), Collect(m, cs[..|cs| - 1]);
      assert Remaining(g'.items, g'.ks, cs);
    }
  }
}
