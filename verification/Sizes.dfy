/** The unrolled size of an expression, which every substitution of degree reduction lowers. */
module Sizes {
  import opened Algebra
  import opened Expressions
  import opened Simplification
  import opened NormalForm
  import opened Replaying
  import opened Factoring
  import opened Substitution
  import opened Wrappers

  ghost function Total(ns: seq<int>): int {
    if ns == [] then 0 else Total(ns[..|ns| - 1]) + ns[|ns| - 1]
  }

  /** The size below an operator: powers count with their exponent. */
  ghost function Load(kind: Kind, ks: seq<int>, ns: seq<int>): int
    requires |ks| == |ns|
  {
    if ks == [] then 0
    else
      var n := |ks| - 1;
      Load(kind, ks[..n], ns[..n]) + Term(kind, ks[n], ns[n])
  }

  ghost function Term(kind: Kind, k: int, n: int): int {
    if kind.Prod? then k * n else n
  }

  ghost function OpSize<E(!new)>(op: Op<E>, ns: seq<int>): int {
    match op
    case Nary(kind, ks) => if |ks| == |ns| then Load(kind, ks, ns) + (if kind.Sum? then 1 else 0) else 0
    case PolyEval => 1 + Total(ns)
    case _ => 1
  }

  ghost function Size<E(!new)>(e: Expr<E>): int {
    OpSize(e.op, seq(|e.children|, i requires 0 <= i < |e.children| => Size(e.children[i])))
  }

  ghost function SizesOf<E(!new)>(es: seq<Expr<E>>): (ns: seq<int>)
    ensures |ns| == |es|
  {
    seq(|es|, i requires 0 <= i < |es| => Size(es[i]))
  }

  lemma SizeStep<E(!new)>(e: Expr<E>)
    ensures Size(e) == OpSize(e.op, SizesOf(e.children))
  {
    assert seq(|e.children|, i requires 0 <= i < |e.children| => Size(e.children[i])) == SizesOf(e.children);
  }

  // ----- arithmetic of loads -----

  lemma LoadSnoc(kind: Kind, ks: seq<int>, ns: seq<int>, k: int, n: int)
    requires |ks| == |ns|
    ensures Load(kind, ks + [k], ns + [n]) == Load(kind, ks, ns) + Term(kind, k, n)
  {
    assert (ks + [k])[..|ks|] == ks && (ns + [n])[..|ns|] == ns;
  }

  lemma {:induction false} LoadAppend(kind: Kind, ks: seq<int>, ns: seq<int>, ks': seq<int>, ns': seq<int>)
    requires |ks| == |ns| && |ks'| == |ns'|
    ensures Load(kind, ks + ks', ns + ns') == Load(kind, ks, ns) + Load(kind, ks', ns')
    decreases |ks'|
  {
    if ks' == [] {
      assert ks + ks' == ks && ns + ns' == ns;
    } else {
      var n := |ks'| - 1;
      LoadAppend(kind, ks, ns, ks'[..n], ns'[..n]);
      assert (ks + ks')[..|ks| + n] == ks + ks'[..n] && (ns + ns')[..|ks| + n] == ns + ns'[..n];
    }
  }

  lemma {:induction false} LoadScaled(k: int, ks: seq<int>, ns: seq<int>)
    requires |ks| == |ns|
    ensures Load(Prod, Scaled(k, ks), ns) == k * Load(Prod, ks, ns)
  {
    if ks != [] {
      var n := |ks| - 1;
      assert Scaled(k, ks)[..n] == Scaled(k, ks[..n]);
      LoadScaled(k, ks[..n], ns[..n]);
      ScaledTerm(k, ks[n], ns[n], Load(Prod, ks[..n], ns[..n]));
    }
  }

  lemma ScaledTerm(k: int, x: int, n: int, y: int)
    ensures k * y + (k * x) * n == k * (y + x * n)
  {
  }

  lemma {:induction false} LoadBump(kind: Kind, ks: seq<int>, ns: seq<int>, i: nat, d: int)
    requires |ks| == |ns| && i < |ks|
    ensures Load(kind, ks[i := ks[i] + d], ns) == Load(kind, ks, ns) + if kind.Prod? then d * ns[i] else 0
  {
    var n := |ks| - 1;
    if i < n {
      assert ks[i := ks[i] + d][..n] == ks[..n][i := ks[i] + d];
      LoadBump(kind, ks[..n], ns[..n], i, d);
    } else {
      assert ks[i := ks[i] + d][..n] == ks[..n];
      assert (ks[n] + d) * ns[n] == ks[n] * ns[n] + d * ns[n];
    }
  }

  ghost predicate Positive(ns: seq<int>) {
    forall i :: 0 <= i < |ns| ==> ns[i] >= 1
  }

  lemma {:induction false} LoadPositive(kind: Kind, ks: seq<int>, ns: seq<int>)
    requires |ks| == |ns| && Weights(kind, ks) && Positive(ns)
    ensures Load(kind, ks, ns) >= 0
    ensures ks != [] && (kind.Prod? ==> Positive(ks)) ==> Load(kind, ks, ns) >= |ks|
  {
    if ks != [] {
      var n := |ks| - 1;
      LoadPositive(kind, ks[..n], ns[..n]);
      assert Weight(kind, ks[n]);
      if kind.Prod? { MulAtLeast(ks[n], ns[n]); }
    }
  }

  lemma MulAtLeast(k: int, n: int)
    requires n >= 1
    ensures k >= 1 ==> k * n >= n && k * n >= k
    ensures k >= 0 ==> k * n >= 0
  {
    if k >= 1 { assert (k - 1) * n >= 0 && k * (n - 1) >= 0; }
  }

  /** Smaller parts give a smaller load. */
  lemma {:induction false} LoadMonotone(kind: Kind, ks: seq<int>, ms: seq<int>, ns: seq<int>)
    requires |ks| == |ms| == |ns| && (kind.Prod? ==> Positive(ks)) && forall i :: 0 <= i < |ks| ==> ms[i] <= ns[i]
    ensures Load(kind, ks, ms) <= Load(kind, ks, ns)
    ensures (exists i :: 0 <= i < |ks| && ms[i] < ns[i]) ==> Load(kind, ks, ms) < Load(kind, ks, ns)
  {
    if ks != [] {
      var n := |ks| - 1;
      LoadMonotone(kind, ks[..n], ms[..n], ns[..n]);
      if kind.Prod? { MulMonotone(ks[n], ms[n], ns[n]); }
      if i :| 0 <= i < |ks| && ms[i] < ns[i] {
        if i < n { assert ms[..n][i] < ns[..n][i]; }
      }
    }
  }

  lemma MulMonotone(k: int, m: int, n: int)
    requires k >= 1 && m <= n
    ensures k * m <= k * n && (m < n ==> k * m < k * n)
  {
    assert k * (n - m) >= n - m;
  }

  lemma {:induction false} TotalIsLoad(ks: seq<int>, ns: seq<int>)
    requires |ks| == |ns|
    ensures Total(ns) == Load(Sum, ks, ns)
  {
    if ks != [] { TotalIsLoad(ks[..|ks| - 1], ns[..|ks| - 1]); }
  }

  // ----- sizes are positive -----

  lemma {:induction false} SizePositive<E(!new)>(r: Ring<E>, e: Expr<E>)
    requires WellFormed(e) && Normal(r, e)
    ensures Size(e) >= 1 && (e.children != [] ==> Size(e) >= 2)
  {
    var ns := SizesOf(e.children);
    forall i | 0 <= i < |e.children| ensures ns[i] >= 1 { SizePositive(r, e.children[i]); }
    SizeStep(e);
    match e.op
    case Nary(kind, ks) =>
      LoadPositive(kind, ks, ns);
      if kind.Prod? && |ks| == 1 { MulAtLeast(ks[0], ns[0]); assert ks == [ks[0]]; }
    case PolyEval =>
      var ks := seq(|ns|, _ => 1);
      TotalIsLoad(ks, ns);
      LoadPositive(Sum, ks, ns);
    case _ =>
  }

  lemma AllPositive<E(!new)>(r: Ring<E>, es: seq<Expr<E>>)
    requires AllWellFormed(es) && AllNormal(r, es)
    ensures Positive(SizesOf(es))
  {
    forall i | 0 <= i < |es| ensures SizesOf(es)[i] >= 1 { SizePositive(r, es[i]); }
  }

  // ----- simplification does not enlarge -----

  /** Equal hashes belong to expressions of equal size. */
  ghost predicate Sized<E(!new)>(s: set<Expr<E>>) {
    forall a, b {:trigger SameHash(a, b)} :: a in s && b in s && SameHash(a, b) ==> Size(a) == Size(b)
  }

  ghost function AccSize<E(!new)>(r: Ring<E>, kind: Kind, acc: Acc<E>): int
    requires |acc.items| == |acc.ks|
  {
    Load(kind, acc.ks, SizesOf(acc.items)) + if acc.konst == Unit(r, kind) then 0 else 1
  }

  lemma MergeTermSize<E(!new)>(r: Ring<E>, kind: Kind, acc: Acc<E>, i: nat, k: int)
    requires |acc.items| == |acc.ks| && i < |acc.items| && Size(acc.items[i]) >= 1
    ensures AccSize(r, kind, acc.(ks := acc.ks[i := acc.ks[i] + k]))
            <= AccSize(r, kind, acc) + Term(kind, k, Size(acc.items[i]))
  {
    LoadBump(kind, acc.ks, SizesOf(acc.items), i, k);
  }

  lemma NewTermSize<E(!new)>(r: Ring<E>, kind: Kind, acc: Acc<E>, item: Expr<E>, k: int)
    requires |acc.items| == |acc.ks|
    ensures AccSize(r, kind, acc.(items := acc.items + [item], ks := acc.ks + [k]))
            == AccSize(r, kind, acc) + Term(kind, k, Size(item))
  {
    assert SizesOf(acc.items + [item]) == SizesOf(acc.items) + [Size(item)];
    LoadSnoc(kind, acc.ks, SizesOf(acc.items), k, Size(item));
  }

  lemma AddTermSize<E(!new)>(r: Ring<E>, kind: Kind, acc: Acc<E>, item: Expr<E>, k: int, s: set<Expr<E>>)
    requires |acc.items| == |acc.ks| && Weight(kind, k) && Size(item) >= 1
    requires Sized(s) && Within(acc.items, s) && item in s
    ensures AccSize(r, kind, AddTerm(r, kind, acc, item, k)) <= AccSize(r, kind, acc) + Term(kind, k, Size(item))
  {
    MulAtLeast(k, Size(item));
    if k != 0 && !item.op.Constant? {
      var i := Find(acc.items, item.esh);
      if i < |acc.items| {
        assert SameHash(acc.items[i], item);
        MergeTermSize(r, kind, acc, i, k);
      } else {
        NewTermSize(r, kind, acc, item, k);
      }
    }
  }

  lemma {:induction false} AddTermsSize<E(!new)>(r: Ring<E>, kind: Kind, acc: Acc<E>, items: seq<Expr<E>>, ks: seq<int>,
                                                 s: set<Expr<E>>)
    requires |acc.items| == |acc.ks| && Weights(kind, acc.ks) && |items| == |ks| && Weights(kind, ks)
             && Positive(SizesOf(items))
    requires Sized(s) && Within(acc.items, s) && Within(items, s)
    ensures var acc' := AddTerms(r, kind, acc, items, ks);
            && Weights(kind, acc'.ks) && Within(acc'.items, s)
            && AccSize(r, kind, acc') <= AccSize(r, kind, acc) + Load(kind, ks, SizesOf(items))
    decreases |items|
  {
    if items != [] {
      var n := |items| - 1;
      assert SizesOf(items)[..n] == SizesOf(items[..n]);
      AddTermsSize(r, kind, acc, items[..n], ks[..n], s);
      var mid := AddTerms(r, kind, acc, items[..n], ks[..n]);
      assert SizesOf(items)[n] >= 1 && Weight(kind, ks[n]);
      AddTermSize(r, kind, mid, items[n], ks[n], s);
      AddTermWithin(r, kind, mid, items[n], ks[n], s);
    }
  }

  lemma TermsSize<E(!new)>(kind: Kind, item: Expr<E>, k: int)
    ensures Load(kind, WeightsOf(kind, item, k), SizesOf(TermsOf(kind, item))) <= Term(kind, k, Size(item))
  {
    if Nested(kind, item) {
      SizeStep(item);
      var ks, ns := item.op.ks, SizesOf(item.children);
      if kind.Prod? {
        LoadScaled(k, ks, ns);
      } else {
        TotalIsLoad(ks, ns);
        TotalIsLoad(Scaled(k, ks), ns);
      }
    } else {
      assert SizesOf([item]) == [Size(item)];
      LoadSnoc(kind, [], [], k, Size(item));
      assert [] + [k] == [k] && [] + [Size(item)] == [Size(item)];
    }
  }

  lemma JoinedLoad<E(!new)>(kind: Kind, front: seq<Expr<E>>, frontKs: seq<int>, tail: seq<Expr<E>>, tailKs: seq<int>)
    requires |front| == |frontKs| && |tail| == |tailKs|
    ensures Load(kind, frontKs + tailKs, SizesOf(front + tail))
            == Load(kind, frontKs, SizesOf(front)) + Load(kind, tailKs, SizesOf(tail))
  {
    assert SizesOf(front + tail) == SizesOf(front) + SizesOf(tail);
    LoadAppend(kind, frontKs, SizesOf(front), tailKs, SizesOf(tail));
  }

  lemma LastLoad<E(!new)>(kind: Kind, items: seq<Expr<E>>, ks: seq<int>)
    requires |items| == |ks| && items != []
    ensures var n := |items| - 1;
            Load(kind, ks, SizesOf(items))
            == Load(kind, ks[..n], SizesOf(items[..n])) + Term(kind, ks[n], Size(items[n]))
  {
    var n := |items| - 1;
    assert SizesOf(items)[..n] == SizesOf(items[..n]);
  }

  lemma {:induction false} FlatSize<E(!new)>(kind: Kind, items: seq<Expr<E>>, ks: seq<int>)
    requires |items| == |ks|
    ensures Load(kind, FlatKs(kind, items, ks), SizesOf(FlatItems(kind, items))) <= Load(kind, ks, SizesOf(items))
  {
    if items != [] {
      var n := |items| - 1;
      FlatSize(kind, items[..n], ks[..n]);
      JoinedLoad(kind, FlatItems(kind, items[..n]), FlatKs(kind, items[..n], ks[..n]),
                 TermsOf(kind, items[n]), WeightsOf(kind, items[n], ks[n]));
      TermsSize(kind, items[n], ks[n]);
      LastLoad(kind, items, ks);
    }
  }

  lemma {:induction false} KeptSize<E(!new)>(kind: Kind, items: seq<Expr<E>>, ks: seq<int>)
    requires |items| == |ks| && Positive(SizesOf(items))
    ensures |KeptItems(items, ks)| == |KeptKs(ks)|
    ensures Load(kind, KeptKs(ks), SizesOf(KeptItems(items, ks))) <= Load(kind, ks, SizesOf(items))
  {
    KeptLengths(items, ks);
    if items != [] {
      var n := |items| - 1;
      assert SizesOf(items)[..n] == SizesOf(items[..n]);
      assert SizesOf(items)[n] >= 1;
      KeptSize(kind, items[..n], ks[..n]);
      var kept := KeptItems(items[..n], ks[..n]);
      if ks[n] != 0 {
        assert SizesOf(kept + [items[n]]) == SizesOf(kept) + [Size(items[n])];
        LoadSnoc(kind, KeptKs(ks[..n]), SizesOf(kept), ks[n], Size(items[n]));
      } else {
        assert KeptItems(items, ks) == kept && KeptKs(ks) == KeptKs(ks[..n]);
      }
    }
  }

  lemma FinishSize<E(!new)>(r: Ring<E>, kind: Kind, acc: Acc<E>)
    requires |acc.items| == |acc.ks| && Positive(SizesOf(acc.items))
    ensures var (ts, ns) := Finish(r, kind, acc);
            Load(kind, ns, SizesOf(ts)) <= AccSize(r, kind, acc)
  {
    FinishForm(r, kind, acc);
    KeptSize(kind, acc.items, acc.ks);
    if acc.konst != Unit(r, kind) {
      var c := NewConstant(acc.konst);
      var ts := KeptItems(acc.items, acc.ks);
      SizeStep(c);
      assert SizesOf(ts + [c]) == SizesOf(ts) + [1];
      LoadSnoc(kind, KeptKs(acc.ks), SizesOf(ts), 1, 1);
    }
  }

  lemma FromTermsSize<E(!new)>(r: Ring<E>, kind: Kind, ts: seq<Expr<E>>, ns: seq<int>, bound: int)
    requires |ts| == |ns| && Load(kind, ns, SizesOf(ts)) <= bound && (kind.Prod? ==> bound >= 1) && 0 <= bound
    ensures Size(FromTerms(r, kind, ts, ns)) <= bound + if kind.Sum? then 1 else 0
  {
    SizeStep(FromTerms(r, kind, ts, ns));
    if |ts| == 1 && ns[0] == 1 {
      LoadSnoc(kind, [], [], 1, Size(ts[0]));
      assert ns == [] + [1] && SizesOf(ts) == [] + [Size(ts[0])];
    }
  }

  lemma FlatPositive<E(!new)>(r: Ring<E>, kind: Kind, items: seq<Expr<E>>)
    requires AllWellFormed(items) && AllNormal(r, items)
    ensures Positive(SizesOf(FlatItems(kind, items)))
    decreases |items|
  {
    if items != [] {
      var n := |items| - 1;
      FlatPositive(r, kind, items[..n]);
      var x := items[n];
      assert WellFormed(x) && Normal(r, x);
      var front, tail := FlatItems(kind, items[..n]), TermsOf(kind, x);
      forall i | 0 <= i < |tail| ensures Size(tail[i]) >= 1 { SizePositive(r, tail[i]); }
      forall i | 0 <= i < |front + tail| ensures SizesOf(front + tail)[i] >= 1 {
        if i < |front| { assert SizesOf(front)[i] >= 1; } else { assert Size(tail[i - |front|]) >= 1; }
      }
    }
  }

  /** Grouping keeps the terms among the flattened ones, so they are positive too. */
  lemma GroupedSize<E(!new)>(r: Ring<E>, kind: Kind, items: seq<Expr<E>>, ks: seq<int>, s: set<Expr<E>>)
    requires |items| == |ks| && Weights(kind, ks) && AllWellFormed(items) && AllNormal(r, items)
    requires Sized(s) && AllSubs(items) <= s
    ensures var acc := Grouped(r, kind, items, ks);
            Positive(SizesOf(acc.items)) && AccSize(r, kind, acc) <= Load(kind, ks, SizesOf(items))
  {
    var flat, fks := FlatItems(kind, items), FlatKs(kind, items, ks);
    var acc := Grouped(r, kind, items, ks);
    FlatPositive(r, kind, items);
    FlatWithin(kind, items, s);
    FlatWeights(kind, items, ks);
    AddTermsSize(r, kind, Acc([], [], Unit(r, kind)), flat, fks, s);
    FlatSize(kind, items, ks);
    AddTermsShape(r, kind, flat, fks);
    forall i | 0 <= i < |acc.items| ensures SizesOf(acc.items)[i] >= 1 {
      assert Counted(acc.items[i], flat, fks);
      var j :| 0 <= j < |flat| && flat[j] == acc.items[i];
      assert SizesOf(flat)[j] >= 1;
    }
  }

  /** NewLinComb and NewProduct never build something larger than the plain node. */
  lemma NewNarySize<E(!new)>(r: Ring<E>, kind: Kind, items: seq<Expr<E>>, ks: seq<int>, s: set<Expr<E>>)
    requires |items| == |ks| && items != [] && Weights(kind, ks) && (kind.Prod? ==> Positive(ks))
    requires AllWellFormed(items) && AllNormal(r, items) && Sized(s) && AllSubs(items) <= s
    ensures Size(NewNary(r, kind, items, ks)) <= Load(kind, ks, SizesOf(items)) + if kind.Sum? then 1 else 0
  {
    var bound := Load(kind, ks, SizesOf(items));
    AllPositive(r, items);
    LoadPositive(kind, ks, SizesOf(items));
    if kind.Prod? && HasZero(r, items, ks) {
      SizeStep(NewConstant(r.zero));
    } else {
      GroupedSize(r, kind, items, ks, s);
      FinishSize(r, kind, Grouped(r, kind, items, ks));
      var (ts, ns) := Simplify(r, kind, items, ks);
      FromTermsSize(r, kind, ts, ns, bound);
    }
  }

  lemma TotalSnoc(ns: seq<int>, n: int)
    ensures Total(ns + [n]) == Total(ns) + n
  {
    assert (ns + [n])[..|ns|] == ns;
  }

  lemma PolyEvalSize<E(!new)>(r: Ring<E>, cs: seq<Expr<E>>)
    requires |cs| >= 2 && AllWellFormed(cs) && AllNormal(r, cs)
    ensures Size(NewPolyEval(r, cs[0], cs[1..])) <= 1 + Total(SizesOf(cs))
  {
    if |cs| == 2 {
      AllPositive(r, cs);
      var m, n := Size(cs[0]), Size(cs[1]);
      assert SizesOf(cs)[0] == m;
      assert SizesOf(cs) == ([] + [m]) + [n];
      TotalSnoc([], m);
      TotalSnoc([] + [m], n);
    } else {
      SizeStep(NewPolyEval(r, cs[0], cs[1..]));
      assert [cs[0]] + cs[1..] == cs;
    }
  }

  ghost predicate Shrinks(ms: seq<int>, ns: seq<int>) {
    && |ms| == |ns|
    && (forall i :: 0 <= i < |ms| ==> ms[i] <= ns[i])
    && (exists i :: 0 <= i < |ms| && ms[i] < ns[i])
  }

  lemma TotalShrinks(ms: seq<int>, ns: seq<int>)
    requires Shrinks(ms, ns)
    ensures Total(ms) < Total(ns)
  {
    var ks := seq(|ms|, _ => 1);
    TotalIsLoad(ks, ms);
    TotalIsLoad(ks, ns);
    LoadMonotone(Sum, ks, ms, ns);
  }

  lemma RebuildNarySize<E(!new)>(r: Ring<E>, e: Expr<E>, cs: seq<Expr<E>>, s: set<Expr<E>>)
    requires WellFormed(e) && Normal(r, e) && e.op.Nary? && e.children != [] && |cs| == |e.children|
    requires AllWellFormed(cs) && AllNormal(r, cs) && Sized(s) && AllSubs(cs) <= s
    requires Shrinks(SizesOf(cs), SizesOf(e.children))
    ensures Size(NewNary(r, e.op.kind, cs, e.op.ks)) < Size(e)
  {
    SizeStep(e);
    NewNarySize(r, e.op.kind, cs, e.op.ks, s);
    LoadMonotone(e.op.kind, e.op.ks, SizesOf(cs), SizesOf(e.children));
  }

  lemma RebuildSize<E(!new)>(r: Ring<E>, e: Expr<E>, cs: seq<Expr<E>>, s: set<Expr<E>>)
    requires WellFormed(e) && Normal(r, e) && e.children != [] && |cs| == |e.children|
    requires AllWellFormed(cs) && AllNormal(r, cs) && Sized(s) && AllSubs(cs) <= s
    requires Shrinks(SizesOf(cs), SizesOf(e.children))
    ensures Size(Rebuild(r, e, cs)) < Size(e)
  {
    if e.op.Nary? {
      RebuildNarySize(r, e, cs, s);
    } else {
      SizeStep(e);
      PolyEvalSize(r, cs);
      TotalShrinks(SizesOf(cs), SizesOf(e.children));
    }
  }

  // ----- the load as a fold over the integers -----

  lemma {:induction false} LoadIsFold(ks: seq<int>, ns: seq<int>)
    requires |ks| == |ns|
    ensures Load(Prod, ks, ns) == Fold(Integers(), Sum, ks, ns)
  {
    if ks != [] { LoadIsFold(ks[..|ks| - 1], ns[..|ks| - 1]); }
  }

  lemma {:induction false} KeptSizes<E(!new)>(cs: seq<Expr<E>>, ks: seq<int>)
    requires |cs| == |ks|
    ensures SizesOf(KeptItems(cs, ks)) == Kept(SizesOf(cs), ks)
  {
    if cs != [] {
      var n := |cs| - 1;
      KeptSizes(cs[..n], ks[..n]);
      assert SizesOf(cs)[..n] == SizesOf(cs[..n]);
    }
  }

  // ----- substitution shrinks -----

  lemma SizesAgree<E(!new)>(cs: seq<Expr<E>>, ts: seq<Expr<E>>, s: set<Expr<E>>)
    requires Sized(s) && Within(cs, s) && Within(ts, s)
    ensures Agree(cs, SizesOf(cs), ts, SizesOf(ts))
  {
    forall i, j | 0 <= i < |cs| && 0 <= j < |ts| && cs[i].esh == ts[j].esh ensures SizesOf(cs)[i] == SizesOf(ts)[j] {
      assert SameHash(cs[i], ts[j]);
    }
  }

  lemma FactorOutLoad<E(!new)>(cs: seq<Expr<E>>, ks: seq<int>, ts: seq<Expr<E>>, ns: seq<int>, items: seq<Expr<E>>,
                               rest: seq<int>)
    requires |cs| == |ks| && |ts| == |ns| && Weights(Prod, ks) && Weights(Prod, ns) && |items| == |rest|
    requires DistinctHashes(cs) && Agree(cs, SizesOf(cs), ts, SizesOf(ts))
             && FactorOut(cs, ks, ts, ns) == Some((items, rest))
    ensures Load(Prod, ks, SizesOf(cs)) == Load(Prod, rest, SizesOf(items)) + Load(Prod, ns, SizesOf(ts))
  {
    IntegersLawful();
    var exps := FactorOutFold(Integers(), Sum, cs, ks, SizesOf(cs), ts, ns, SizesOf(ts));
    KeptSizes(cs, exps);
    LoadIsFold(ks, SizesOf(cs));
    LoadIsFold(ns, SizesOf(ts));
    LoadIsFold(rest, SizesOf(items));
  }

  /** The size of a product splits into the target's and that of the remaining factors. */
  lemma FactorOutSize<E(!new)>(r: Ring<E>, e: Expr<E>, t: Expr<E>, items: seq<Expr<E>>, ks: seq<int>, s: set<Expr<E>>)
    requires WellFormed(e) && Normal(r, e) && WellFormed(t) && Nested(Prod, e) && Nested(Prod, t)
    requires Subs(e) <= s && Subs(t) <= s && Sized(s) && Separated(s) && |items| == |ks|
    requires FactorOut(e.children, e.op.ks, t.children, t.op.ks) == Some((items, ks))
    ensures Size(e) == Size(t) + Load(Prod, ks, SizesOf(items))
  {
    ChildrenIn(e, s);
    ChildrenIn(t, s);
    NormalDistinct(r, e, s);
    SizesAgree(e.children, t.children, s);
    FactorOutLoad(e.children, e.op.ks, t.children, t.op.ks, items, ks);
    SizeStep(e);
    SizeStep(t);
  }

  lemma ConsLoad<E(!new)>(v: Expr<E>, items: seq<Expr<E>>, ks: seq<int>)
    requires |items| == |ks| && Size(v) == 1
    ensures Load(Prod, [1] + ks, SizesOf([v] + items)) == 1 + Load(Prod, ks, SizesOf(items))
  {
    assert SizesOf([v] + items) == [1] + SizesOf(items);
    LoadAppend(Prod, [1], [1], ks, SizesOf(items));
    LoadSnoc(Prod, [], [], 1, 1);
    assert [] + [1] == [1];
  }

  lemma ConsNormal<E(!new)>(r: Ring<E>, v: Expr<E>, items: seq<Expr<E>>)
    requires WellFormed(v) && Normal(r, v) && AllWellFormed(items) && AllNormal(r, items)
    ensures AllWellFormed([v] + items) && AllNormal(r, [v] + items)
  {
  }

  lemma ConsPositive(ks: seq<int>)
    requires Positive(ks)
    ensures Positive([1] + ks) && Weights(Prod, [1] + ks)
  {
  }

  lemma FactoredProductSize<E(!new)>(r: Ring<E>, v: Expr<E>, items: seq<Expr<E>>, ks: seq<int>, s: set<Expr<E>>)
    requires |items| == |ks| && Positive(ks) && Size(v) == 1 && WellFormed(v) && Normal(r, v) && AllWellFormed(items)
             && AllNormal(r, items)
    requires Sized(s) && Subs(v) <= s && AllSubs(items) <= s
    ensures Size(FactoredProduct(r, v, items, ks)) <= 1 + Load(Prod, ks, SizesOf(items))
  {
    if items != [] {
      ConsSubs(v, items, s);
      ConsPositive(ks);
      ConsNormal(r, v, items);
      ConsLoad(v, items, ks);
      NewNarySize(r, Prod, [v] + items, [1] + ks, s);
    }
  }

  lemma FactoredSize<E(!new)>(r: Ring<E>, h: Env<E>, e: Expr<E>, t: Expr<E>, v: Expr<E>, s: set<Expr<E>>)
    requires Built(r, h, e) && Built(r, h, t) && Built(r, h, v) && Factored(r, e, t, v).Some? && Size(v) == 1
    requires Sized(s) && Separated(s) && Subs(e) <= s && Subs(t) <= s && Subs(v) <= s
    ensures Size(Factored(r, e, t, v).value) < Size(e)
  {
    var items, ks := FactoredItems(r, e, t, v);
    ChildrenIn(e, s);
    forall i | 0 <= i < |items| ensures WellFormed(items[i]) && Normal(r, items[i]) && Subs(items[i]) <= s {
      assert items[i] in e.children;
    }
    FactorOutSize(r, e, t, items, ks, s);
    FactoredProductSize(r, v, items, ks, s);
    SizePositive(r, t);
  }

  /** The substitution replaces something at this node or below. */
  ghost predicate Changes<E(!new)>(r: Ring<E>, e: Expr<E>, t: Expr<E>, v: Expr<E>) {
    e.esh == t.esh || Factored(r, e, t, v).Some? || SubstituteAll(r, e.children, t, v) != e.children
  }

  lemma ShrinksWhenChanged<E(!new)>(cs: seq<Expr<E>>, es: seq<Expr<E>>)
    requires |cs| == |es| && cs != es
    requires forall i :: 0 <= i < |cs| ==> Size(cs[i]) <= Size(es[i]) && (cs[i] != es[i] ==> Size(cs[i]) < Size(es[i]))
    ensures Shrinks(SizesOf(cs), SizesOf(es))
  {
    var i :| 0 <= i < |cs| && cs[i] != es[i];
    assert SizesOf(cs)[i] < SizesOf(es)[i];
  }

  /** x is what became of y: no larger, and smaller if it changed. */
  ghost predicate NoLarger<E(!new)>(r: Ring<E>, x: Expr<E>, y: Expr<E>, s: set<Expr<E>>) {
    WellFormed(x) && Normal(r, x) && Subs(x) <= s && Size(x) <= Size(y) && (x != y ==> Size(x) < Size(y))
  }

  lemma RebuiltSmaller<E(!new)>(r: Ring<E>, e: Expr<E>, cs: seq<Expr<E>>, s: set<Expr<E>>)
    requires WellFormed(e) && Normal(r, e) && e.children != [] && |cs| == |e.children| && cs != e.children && Sized(s)
    requires forall i :: 0 <= i < |cs| ==> NoLarger(r, cs[i], e.children[i], s)
    ensures Size(Rebuild(r, e, cs)) < Size(e)
  {
    ShrinksWhenChanged(cs, e.children);
    RebuildSize(r, e, cs, s);
  }

  /** Substituting a leaf for a target that is not a leaf never enlarges, and shrinks whatever it
      changes. */
  lemma {:induction false} SubstituteSize<E(!new)>(r: Ring<E>, h: Env<E>, e: Expr<E>, t: Expr<E>, v: Expr<E>,
                                                   s: set<Expr<E>>)
    requires r.Lawful() && Built(r, h, e) && Built(r, h, t) && Built(r, h, v) && Size(v) == 1 && Size(t) >= 2
    requires Sized(s) && Separated(s) && Play(r, e, t, v, s)
    ensures if Changes(r, e, t, v) then Size(Substitute(r, e, t, v)) < Size(e) else Substitute(r, e, t, v) == e
  {
    if e.esh == t.esh {
      assert SameHash(e, t);
    } else if Descends(r, e, t, v) {
      var cs := SubstituteAll(r, e.children, t, v);
      forall i | 0 <= i < |cs| ensures NoLarger(r, cs[i], e.children[i], s) {
        PlayChild(r, e, t, v, s, i);
        SubstituteBuilt(r, h, e.children[i], t, v);
        SubstituteSize(r, h, e.children[i], t, v, s);
      }
      SubstituteStep(r, e, t, v);
      if cs != e.children { RebuiltSmaller(r, e, cs, s); }
    } else if Factored(r, e, t, v).Some? {
      FactoredSize(r, h, e, t, v, s);
    }
  }

  // ----- targets that occur are replaced -----

  /** The substitution has something to replace in e. */
  ghost predicate Occurs<E(!new)>(r: Ring<E>, e: Expr<E>, t: Expr<E>, v: Expr<E>) {
    e.esh == t.esh || Factored(r, e, t, v).Some? || exists i :: 0 <= i < |e.children| && Occurs(r, e.children[i], t, v)
  }

  lemma {:induction false} OccursShrinks<E(!new)>(r: Ring<E>, h: Env<E>, e: Expr<E>, t: Expr<E>, v: Expr<E>,
                                                  s: set<Expr<E>>)
    requires r.Lawful() && Built(r, h, e) && Built(r, h, t) && Built(r, h, v) && Size(v) == 1 && Size(t) >= 2
    requires Sized(s) && Separated(s) && Play(r, e, t, v, s) && Occurs(r, e, t, v)
    ensures Size(Substitute(r, e, t, v)) < Size(e)
  {
    SubstituteSize(r, h, e, t, v, s);
    if Descends(r, e, t, v) {
      var i :| 0 <= i < |e.children| && Occurs(r, e.children[i], t, v);
      PlayChild(r, e, t, v, s, i);
      OccursShrinks(r, h, e.children[i], t, v, s);
      assert SubstituteAll(r, e.children, t, v)[i] != e.children[i];
    }
  }
}
