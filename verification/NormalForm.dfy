/** What the simplifying constructors return: well-formed, correctly hashed, normal trees. */
module NormalForm {
  import opened Algebra
  import opened Expressions
  import opened Simplification

  /** The terms of a simplified combination: no zero weight, no term of the same kind,
      distinct hashes among non-constant terms, and at most one constant, which comes last
      with weight one and is not the unit.  Factors of products do not hash to zero. */
  ghost predicate NormalTerms<E(!new)>(r: Ring<E>, kind: Kind, items: seq<Expr<E>>, ks: seq<int>) {
    && |items| == |ks|
    && (forall i :: 0 <= i < |ks| ==> ks[i] != 0 && Weight(kind, ks[i]))
    && (forall i :: 0 <= i < |items| ==> !Nested(kind, items[i]))
    && DistinctTerms(items)
    && (forall i :: 0 <= i < |items| && items[i].op.Constant? ==>
          i == |items| - 1 && ks[i] == 1 && items[i].op.val != Unit(r, kind))
    && (kind.Prod? ==> forall i :: 0 <= i < |items| && !items[i].op.Constant? ==> items[i].esh != r.zero)
  }

  ghost predicate DistinctTerms<E(!new)>(items: seq<Expr<E>>) {
    forall i, j :: 0 <= i < j < |items| && !items[i].op.Constant? && !items[j].op.Constant? ==>
      items[i].esh != items[j].esh
  }

  ghost predicate Normal<E(!new)>(r: Ring<E>, e: Expr<E>) {
    && (e.op.Nary? ==> NormalTerms(r, e.op.kind, e.children, e.op.ks) && e.op.ks != [1])
    && (e.op.PolyEval? ==> |e.children| >= 3)
    && forall i :: 0 <= i < |e.children| ==> Normal(r, e.children[i])
  }

  ghost predicate AllNormal<E(!new)>(r: Ring<E>, es: seq<Expr<E>>) {
    forall i :: 0 <= i < |es| ==> Normal(r, es[i])
  }

  // ----- shape of the accumulator -----

  /** x occurs in the list with a non-zero weight and is not a constant. */
  ghost predicate Counted<E(!new)>(x: Expr<E>, items: seq<Expr<E>>, ks: seq<int>)
    requires |items| == |ks|
  {
    !x.op.Constant? && exists i :: 0 <= i < |items| && items[i] == x && ks[i] != 0
  }

  lemma CountedSnoc<E(!new)>(x: Expr<E>, items: seq<Expr<E>>, ks: seq<int>, n: nat)
    requires |items| == |ks| == n + 1
    ensures Counted(x, items[..n], ks[..n]) ==> Counted(x, items, ks)
    ensures !items[n].op.Constant? && ks[n] != 0 ==> Counted(items[n], items, ks)
  {
    if Counted(x, items[..n], ks[..n]) {
      var j :| 0 <= j < n && items[..n][j] == x && ks[..n][j] != 0;
      assert items[j] == x && ks[j] != 0;
    }
  }

  ghost predicate Shaped<E(!new)>(kind: Kind, acc: Acc<E>, items: seq<Expr<E>>, ks: seq<int>)
    requires |items| == |ks|
  {
    && Weights(kind, acc.ks)
    && DistinctTerms(acc.items)
    && forall i :: 0 <= i < |acc.items| ==> Counted(acc.items[i], items, ks)
  }

  /** The accumulator holds distinct, non-constant, counted terms. */
  lemma {:induction false} AddTermsShape<E(!new)>(r: Ring<E>, kind: Kind, items: seq<Expr<E>>, ks: seq<int>)
    requires |items| == |ks| && Weights(kind, ks)
    ensures Shaped(kind, AddTerms(r, kind, Acc([], [], Unit(r, kind)), items, ks), items, ks)
  {
    if items != [] {
      var n := |items| - 1;
      AddTermsShape(r, kind, items[..n], ks[..n]);
      var mid := AddTerms(r, kind, Acc([], [], Unit(r, kind)), items[..n], ks[..n]);
      forall i | 0 <= i < |mid.items| ensures Counted(mid.items[i], items, ks) {
        CountedSnoc(mid.items[i], items, ks, n);
      }
      CountedSnoc(items[n], items, ks, n);
      assert Weight(kind, ks[n]);
      AddTermShape(r, kind, mid, items[n], ks[n], items, ks);
    }
  }

  lemma AddTermShape<E(!new)>(r: Ring<E>, kind: Kind, acc: Acc<E>, item: Expr<E>, k: int, items: seq<Expr<E>>,
                              ks: seq<int>)
    requires |items| == |ks| && |acc.items| == |acc.ks| && Shaped(kind, acc, items, ks) && Weight(kind, k)
    requires !item.op.Constant? && k != 0 ==> Counted(item, items, ks)
    ensures Shaped(kind, AddTerm(r, kind, acc, item, k), items, ks)
  {
  }

  lemma {:induction false} KeptShape<E(!new)>(kind: Kind, items: seq<Expr<E>>, ks: seq<int>)
    requires |items| == |ks| && Weights(kind, ks) && DistinctTerms(items)
    ensures var (ts, ns) := (KeptItems(items, ks), KeptKs(ks));
            && |ts| == |ns| && DistinctTerms(ts)
            && (forall i :: 0 <= i < |ts| ==> ts[i] in items)
            && (forall i :: 0 <= i < |ns| ==> ns[i] != 0 && Weight(kind, ns[i]))
  {
    if items != [] {
      var n := |items| - 1;
      KeptShape(kind, items[..n], ks[..n]);
      assert items == items[..n] + [items[n]];
      var ts := KeptItems(items[..n], ks[..n]);
      forall i | 0 <= i < |ts| && !ts[i].op.Constant? && !items[n].op.Constant? ensures ts[i].esh != items[n].esh {
        assert ts[i] in items[..n];
        var j :| 0 <= j < n && items[j] == ts[i];
      }
    }
  }

  /** A constant that survives is the last term; the other terms are the kept ones. */
  lemma FinishForm<E(!new)>(r: Ring<E>, kind: Kind, acc: Acc<E>)
    requires |acc.items| == |acc.ks|
    ensures var (ts, ns) := (KeptItems(acc.items, acc.ks), KeptKs(acc.ks));
            Finish(r, kind, acc) == if acc.konst == Unit(r, kind) then (ts, ns)
              else (ts + [NewConstant(acc.konst)], ns + [1])
  {
    var items, ks := acc.items + [NewConstant(acc.konst)], acc.ks + [1];
    assert items[..|acc.items|] == acc.items && ks[..|acc.items|] == acc.ks;
  }

  /** The accumulator after all flattened terms, and its terms of non-zero weight. */
  ghost function Grouped<E(!new)>(r: Ring<E>, kind: Kind, items: seq<Expr<E>>, ks: seq<int>): Acc<E>
    requires |items| == |ks|
  {
    AddTerms(r, kind, Acc([], [], Unit(r, kind)), FlatItems(kind, items), FlatKs(kind, items, ks))
  }

  lemma GroupedShape<E(!new)>(r: Ring<E>, kind: Kind, items: seq<Expr<E>>, ks: seq<int>)
    requires |items| == |ks| && Weights(kind, ks) && AllWellFormed(items)
    ensures var acc := Grouped(r, kind, items, ks);
            var (ts, ns) := (KeptItems(acc.items, acc.ks), KeptKs(acc.ks));
            && |ts| == |ns| && DistinctTerms(ts)
            && (forall i :: 0 <= i < |ns| ==> ns[i] != 0 && Weight(kind, ns[i]))
            && (forall i :: 0 <= i < |ts| ==> Counted(ts[i], FlatItems(kind, items), FlatKs(kind, items, ks)))
  {
    FlatWeights(kind, items, ks);
    AddTermsShape(r, kind, FlatItems(kind, items), FlatKs(kind, items, ks));
    var acc := Grouped(r, kind, items, ks);
    KeptShape(kind, acc.items, acc.ks);
    var ts := KeptItems(acc.items, acc.ks);
    forall i | 0 <= i < |ts| ensures Counted(ts[i], FlatItems(kind, items), FlatKs(kind, items, ks)) {
      assert ts[i] in acc.items;
    }
  }

  /** Every flattened term of normal items is normal and not of the flattened kind. */
  lemma {:induction false} FlatShape<E(!new)>(r: Ring<E>, kind: Kind, items: seq<Expr<E>>, ks: seq<int>)
    requires |items| == |ks| && Weights(kind, ks) && AllWellFormed(items) && AllNormal(r, items)
    requires kind.Prod? ==> !HasZero(r, items, ks)
    ensures forall i :: 0 <= i < |FlatItems(kind, items)| ==>
              var x := FlatItems(kind, items)[i];
              && WellFormed(x) && Normal(r, x) && !Nested(kind, x)
              && (kind.Prod? && FlatKs(kind, items, ks)[i] != 0 && !x.op.Constant? ==> x.esh != r.zero)
  {
    if items != [] {
      var n := |items| - 1;
      FlatShape(r, kind, items[..n], ks[..n]);
      var x, k := items[n], ks[n];
      assert WellFormed(x) && Normal(r, x) && Weight(kind, k);
    }
  }

  lemma GroupedNormal<E(!new)>(r: Ring<E>, kind: Kind, items: seq<Expr<E>>, ks: seq<int>)
    requires |items| == |ks| && Weights(kind, ks) && AllWellFormed(items) && AllNormal(r, items)
    requires kind.Prod? ==> !HasZero(r, items, ks)
    ensures var acc := Grouped(r, kind, items, ks);
            var (ts, ns) := (KeptItems(acc.items, acc.ks), KeptKs(acc.ks));
            && NormalTerms(r, kind, ts, ns) && AllNormal(r, ts) && AllWellFormed(ts)
            && forall i :: 0 <= i < |ts| ==> !ts[i].op.Constant?
  {
    FlatShape(r, kind, items, ks);
    GroupedShape(r, kind, items, ks);
    var acc := Grouped(r, kind, items, ks);
    var ts := KeptItems(acc.items, acc.ks);
    forall i | 0 <= i < |ts|
      ensures && WellFormed(ts[i]) && Normal(r, ts[i]) && !Nested(kind, ts[i]) && !ts[i].op.Constant?
              && (kind.Prod? ==> ts[i].esh != r.zero)
    {
      assert Counted(ts[i], FlatItems(kind, items), FlatKs(kind, items, ks));
    }
  }

  lemma AppendConstant<E(!new)>(r: Ring<E>, kind: Kind, ts: seq<Expr<E>>, ns: seq<int>, c: E)
    requires NormalTerms(r, kind, ts, ns) && c != Unit(r, kind)
    requires forall i :: 0 <= i < |ts| ==> !ts[i].op.Constant?
    ensures NormalTerms(r, kind, ts + [NewConstant(c)], ns + [1])
  {
  }

  lemma AppendNormal<E(!new)>(r: Ring<E>, ts: seq<Expr<E>>, c: E)
    requires AllNormal(r, ts) && AllWellFormed(ts)
    ensures AllNormal(r, ts + [NewConstant(c)]) && AllWellFormed(ts + [NewConstant(c)])
  {
    assert WellFormed(NewConstant(c)) && Normal(r, NewConstant(c));
  }

  lemma SimplifyNormal<E(!new)>(r: Ring<E>, kind: Kind, items: seq<Expr<E>>, ks: seq<int>)
    requires |items| == |ks| && Weights(kind, ks) && AllWellFormed(items) && AllNormal(r, items)
    requires kind.Prod? ==> !HasZero(r, items, ks)
    ensures var (ts, ns) := Simplify(r, kind, items, ks);
            NormalTerms(r, kind, ts, ns) && AllNormal(r, ts) && AllWellFormed(ts)
  {
    var acc := Grouped(r, kind, items, ks);
    GroupedNormal(r, kind, items, ks);
    FinishForm(r, kind, acc);
    var ts, ns := KeptItems(acc.items, acc.ks), KeptKs(acc.ks);
    if acc.konst != Unit(r, kind) {
      AppendConstant(r, kind, ts, ns, acc.konst);
      AppendNormal(r, ts, acc.konst);
    }
  }

  /** NewLinComb and NewProduct return a well-formed expression, in normal form when the
      items are. */
  lemma NewNaryNormal<E(!new)>(r: Ring<E>, kind: Kind, items: seq<Expr<E>>, ks: seq<int>)
    requires |items| == |ks| && Weights(kind, ks) && AllWellFormed(items) && AllNormal(r, items)
    ensures Normal(r, NewNary(r, kind, items, ks)) && WellFormed(NewNary(r, kind, items, ks))
  {
    if !(kind.Prod? && HasZero(r, items, ks)) {
      SimplifyNormal(r, kind, items, ks);
      var (ts, ns) := Simplify(r, kind, items, ks);
      FromTermsNormal(r, kind, ts, ns);
    }
  }

  lemma FromTermsNormal<E(!new)>(r: Ring<E>, kind: Kind, ts: seq<Expr<E>>, ns: seq<int>)
    requires NormalTerms(r, kind, ts, ns) && AllNormal(r, ts) && AllWellFormed(ts)
    ensures Normal(r, FromTerms(r, kind, ts, ns)) && WellFormed(FromTerms(r, kind, ts, ns))
  {
  }

  // ----- where the parts of a simplified combination come from -----

  /** A part of an item, or a folded constant. */
  ghost predicate Sourced<E(!new)>(x: Expr<E>, items: seq<Expr<E>>) {
    x in AllSubs(items) || x == NewConstant(x.esh)
  }

  // ----- which expression stands for a hash, and in which order -----

  ghost predicate Weighted<E(!new)>(items: seq<Expr<E>>, ks: seq<int>, p: nat)
    requires p < |items| == |ks|
  {
    ks[p] != 0 && !items[p].op.Constant?
  }

  /** Position p is the first one of its hash that has a weight and is not a constant; x stands there. */
  ghost predicate FirstAt<E(!new)>(items: seq<Expr<E>>, ks: seq<int>, p: nat, x: Expr<E>)
    requires |items| == |ks|
  {
    && p < |items| && items[p] == x && Weighted(items, ks, p)
    && forall q :: 0 <= q < p && Weighted(items, ks, q) ==> items[q].esh != x.esh
  }

  /** The terms are first ones, in the order of their positions. */
  ghost predicate Firsts<E(!new)>(items: seq<Expr<E>>, ks: seq<int>, ts: seq<Expr<E>>, ps: seq<nat>)
    requires |items| == |ks|
  {
    && |ps| == |ts| && (forall i :: 0 <= i < |ts| ==> FirstAt(items, ks, ps[i], ts[i]))
    && forall i, j :: 0 <= i < j < |ps| ==> ps[i] < ps[j]
  }

  /** Every hash with a weight has a term. */
  ghost predicate Represented<E(!new)>(ts: seq<Expr<E>>, items: seq<Expr<E>>, ks: seq<int>)
    requires |items| == |ks|
  {
    forall q :: 0 <= q < |items| && Weighted(items, ks, q) ==> Find(ts, items[q].esh) < |ts|
  }

  lemma FirstAtSnoc<E(!new)>(items: seq<Expr<E>>, ks: seq<int>, item: Expr<E>, k: int, p: nat, x: Expr<E>)
    requires |items| == |ks| && FirstAt(items, ks, p, x)
    ensures FirstAt(items + [item], ks + [k], p, x)
  {
    var all, allKs := items + [item], ks + [k];
    assert all[p] == x && Weighted(all, allKs, p);
    forall q | 0 <= q < p && Weighted(all, allKs, q) ensures all[q].esh != x.esh { assert Weighted(items, ks, q); }
  }

  lemma NewFirst<E(!new)>(ts: seq<Expr<E>>, items: seq<Expr<E>>, ks: seq<int>, item: Expr<E>, k: int)
    requires |items| == |ks| && Represented(ts, items, ks) && k != 0 && !item.op.Constant?
    requires Find(ts, item.esh) == |ts|
    ensures FirstAt(items + [item], ks + [k], |items|, item)
  {
    var all, allKs := items + [item], ks + [k];
    assert all[|items|] == item && Weighted(all, allKs, |items|);
    forall q | 0 <= q < |items| && Weighted(all, allKs, q) ensures all[q].esh != item.esh {
      assert Weighted(items, ks, q);
    }
  }

  lemma FoundStays<E(!new)>(ts: seq<Expr<E>>, item: Expr<E>, h: E)
    ensures Find(ts, h) < |ts| || item.esh == h ==> Find(ts + [item], h) < |ts + [item]|
  {
    var all := ts + [item];
    if Find(ts, h) < |ts| { assert all[Find(ts, h)].esh == h; }
    if item.esh == h { assert all[|ts|].esh == h; }
  }

  lemma RepresentedStep<E(!new)>(r: Ring<E>, kind: Kind, acc: Acc<E>, items: seq<Expr<E>>, ks: seq<int>,
                                 item: Expr<E>, k: int)
    requires |items| == |ks| && |acc.items| == |acc.ks| && Represented(acc.items, items, ks)
    ensures Represented(AddTerm(r, kind, acc, item, k).items, items + [item], ks + [k])
  {
    var all, allKs, ts := items + [item], ks + [k], AddTerm(r, kind, acc, item, k).items;
    forall q | 0 <= q < |all| && Weighted(all, allKs, q) ensures Find(ts, all[q].esh) < |ts| {
      if q < |items| { assert Weighted(items, ks, q); }
      FoundStays(acc.items, item, all[q].esh);
    }
  }

  lemma FirstsGrow<E(!new)>(items: seq<Expr<E>>, ks: seq<int>, item: Expr<E>, k: int, ts: seq<Expr<E>>, ps: seq<nat>)
    requires |items| == |ks| && Firsts(items, ks, ts, ps)
    ensures Firsts(items + [item], ks + [k], ts, ps) && forall i :: 0 <= i < |ps| ==> ps[i] < |items|
  {
    forall i | 0 <= i < |ts| ensures FirstAt(items + [item], ks + [k], ps[i], ts[i]) && ps[i] < |items| {
      FirstAtSnoc(items, ks, item, k, ps[i], ts[i]);
    }
  }

  lemma FirstsSnoc<E(!new)>(items: seq<Expr<E>>, ks: seq<int>, ts: seq<Expr<E>>, ps: seq<nat>, p: nat, x: Expr<E>)
    requires |items| == |ks| && Firsts(items, ks, ts, ps) && FirstAt(items, ks, p, x)
    requires forall i :: 0 <= i < |ps| ==> ps[i] < p
    ensures Firsts(items, ks, ts + [x], ps + [p])
  {
  }

  /** Adding a term leaves the list of terms as it is, or appends one of a new hash. */
  lemma AddTermItems<E(!new)>(r: Ring<E>, kind: Kind, acc: Acc<E>, item: Expr<E>, k: int)
    requires |acc.items| == |acc.ks|
    ensures var ts := AddTerm(r, kind, acc, item, k).items;
            || ts == acc.items
            || (ts == acc.items + [item] && k != 0 && !item.op.Constant? && Find(acc.items, item.esh) == |acc.items|)
  {
  }

  lemma FirstsStep<E(!new)>(r: Ring<E>, kind: Kind, acc: Acc<E>, items: seq<Expr<E>>, ks: seq<int>,
                            item: Expr<E>, k: int, ps: seq<nat>) returns (more: seq<nat>)
    requires |items| == |ks| && |acc.items| == |acc.ks|
    requires Represented(acc.items, items, ks) && Firsts(items, ks, acc.items, ps)
    ensures Firsts(items + [item], ks + [k], AddTerm(r, kind, acc, item, k).items, more)
  {
    AddTermItems(r, kind, acc, item, k);
    FirstsGrow(items, ks, item, k, acc.items, ps);
    more := ps;
    if AddTerm(r, kind, acc, item, k).items != acc.items {
      NewFirst(acc.items, items, ks, item, k);
      FirstsSnoc(items + [item], ks + [k], acc.items, ps, |items|, item);
      more := ps + [|items|];
    }
  }

  lemma {:induction false} GroupedFirst<E(!new)>(r: Ring<E>, kind: Kind, items: seq<Expr<E>>, ks: seq<int>)
    returns (ps: seq<nat>)
    requires |items| == |ks|
    ensures var acc := AddTerms(r, kind, Acc([], [], Unit(r, kind)), items, ks);
            Represented(acc.items, items, ks) && Firsts(items, ks, acc.items, ps)
  {
    ps := [];
    if items != [] {
      var n := |items| - 1;
      var front := GroupedFirst(r, kind, items[..n], ks[..n]);
      var acc := AddTerms(r, kind, Acc([], [], Unit(r, kind)), items[..n], ks[..n]);
      RepresentedStep(r, kind, acc, items[..n], ks[..n], items[n], ks[n]);
      ps := FirstsStep(r, kind, acc, items[..n], ks[..n], items[n], ks[n], front);
      assert items == items[..n] + [items[n]] && ks == ks[..n] + [ks[n]];
    }
  }

  /** Removing terms keeps the others in order. */
  lemma {:induction false} KeptFirsts<E(!new)>(items: seq<Expr<E>>, ks: seq<int>, ts: seq<Expr<E>>, ns: seq<int>,
                                               ps: seq<nat>) returns (kept: seq<nat>)
    requires |items| == |ks| && |ts| == |ns| && Firsts(items, ks, ts, ps)
    ensures Firsts(items, ks, KeptItems(ts, ns), kept) && forall p :: p in kept ==> p in ps
    decreases |ts|
  {
    kept := [];
    if ts != [] {
      var n := |ts| - 1;
      kept := KeptFirsts(items, ks, ts[..n], ns[..n], ps[..n]);
      if ns[n] != 0 {
        assert forall i :: 0 <= i < |kept| ==> kept[i] in kept;
        kept := kept + [ps[n]];
      }
    }
  }

  /** The terms without the constant that may follow them. */
  function WithoutConstant<E(!new)>(ts: seq<Expr<E>>): seq<Expr<E>> {
    if ts != [] && ts[|ts| - 1].op.Constant? then ts[..|ts| - 1] else ts
  }

  /** Of the arguments with one hash the simplified terms keep the first, in the order of the
      arguments; a constant follows them. */
  lemma SimplifyFirst<E(!new)>(r: Ring<E>, kind: Kind, items: seq<Expr<E>>, ks: seq<int>) returns (ps: seq<nat>)
    requires |items| == |ks|
    ensures Firsts(FlatItems(kind, items), FlatKs(kind, items, ks), WithoutConstant(Simplify(r, kind, items, ks).0), ps)
  {
    ps := [];
    if !(kind.Prod? && HasZero(r, items, ks)) {
      var flat, flatKs, acc := FlatItems(kind, items), FlatKs(kind, items, ks), Grouped(r, kind, items, ks);
      ps := GroupedFirst(r, kind, flat, flatKs);
      ps := KeptFirsts(flat, flatKs, acc.items, acc.ks, ps);
      FinishedTerms(r, kind, acc, flat, flatKs, ps);
    }
  }

  lemma FinishedTerms<E(!new)>(r: Ring<E>, kind: Kind, acc: Acc<E>, items: seq<Expr<E>>, ks: seq<int>, ps: seq<nat>)
    requires |items| == |ks| && |acc.items| == |acc.ks| && Firsts(items, ks, KeptItems(acc.items, acc.ks), ps)
    ensures WithoutConstant(Finish(r, kind, acc).0) == KeptItems(acc.items, acc.ks)
  {
    FinishForm(r, kind, acc);
    var ts := KeptItems(acc.items, acc.ks);
    if ts != [] { assert FirstAt(items, ks, ps[|ts| - 1], ts[|ts| - 1]); }
  }

  lemma GroupedSources<E(!new)>(r: Ring<E>, kind: Kind, items: seq<Expr<E>>, ks: seq<int>, ts: seq<Expr<E>>)
    requires |items| == |ks| && Weights(kind, ks) && AllWellFormed(items)
    requires var acc := Grouped(r, kind, items, ks); |acc.items| == |acc.ks| && ts == KeptItems(acc.items, acc.ks)
    ensures forall i :: 0 <= i < |ts| ==> ts[i] in AllSubs(items)
  {
    FlatWithin(kind, items, AllSubs(items));
    GroupedShape(r, kind, items, ks);
    forall i | 0 <= i < |ts| ensures ts[i] in AllSubs(items) {
      assert Counted(ts[i], FlatItems(kind, items), FlatKs(kind, items, ks));
    }
  }

  lemma FinishTerms<E(!new)>(r: Ring<E>, kind: Kind, acc: Acc<E>, items: seq<Expr<E>>)
    requires |acc.items| == |acc.ks|
    requires forall i :: 0 <= i < |KeptKs(acc.ks)| ==> KeptKs(acc.ks)[i] != 0 && Weight(kind, KeptKs(acc.ks)[i])
    requires var ts := KeptItems(acc.items, acc.ks); forall i :: 0 <= i < |ts| ==> ts[i] in AllSubs(items)
    ensures var (ts, ns) := Finish(r, kind, acc);
            && (forall i :: 0 <= i < |ts| ==> Sourced(ts[i], items))
            && (forall i :: 0 <= i < |ns| ==> ns[i] != 0 && Weight(kind, ns[i]))
  {
    FinishForm(r, kind, acc);
  }

  lemma SimplifyTerms<E(!new)>(r: Ring<E>, kind: Kind, items: seq<Expr<E>>, ks: seq<int>)
    requires |items| == |ks| && Weights(kind, ks) && AllWellFormed(items)
    ensures var (ts, ns) := Simplify(r, kind, items, ks);
            && (forall i :: 0 <= i < |ts| ==> Sourced(ts[i], items))
            && (forall i :: 0 <= i < |ns| ==> ns[i] != 0 && Weight(kind, ns[i]))
  {
    if !(kind.Prod? && HasZero(r, items, ks)) {
      GroupedShape(r, kind, items, ks);
      var acc := Grouped(r, kind, items, ks);
      GroupedSources(r, kind, items, ks, KeptItems(acc.items, acc.ks));
      FinishTerms(r, kind, acc, items);
    }
  }

  lemma AllSubsWellFormed<E(!new)>(es: seq<Expr<E>>, x: Expr<E>)
    requires AllWellFormed(es) && x in AllSubs(es)
    ensures WellFormed(x)
  {
    var i :| 0 <= i < |es| && x in Subs(es[i]);
    SubsWellFormed(es[i], x);
  }

  lemma NewNaryWellFormed<E(!new)>(r: Ring<E>, kind: Kind, items: seq<Expr<E>>, ks: seq<int>)
    requires |items| == |ks| && Weights(kind, ks) && AllWellFormed(items)
    ensures WellFormed(NewNary(r, kind, items, ks))
  {
    SimplifyTerms(r, kind, items, ks);
    var (ts, ns) := Simplify(r, kind, items, ks);
    forall i | 0 <= i < |ts| ensures WellFormed(ts[i]) {
      if ts[i] in AllSubs(items) { AllSubsWellFormed(items, ts[i]); }
    }
    assert WellFormed(FromTerms(r, kind, ts, ns));
  }

  // ----- the hash of a constructed expression -----

  lemma AllSubsHashValid<E(!new)>(r: Ring<E>, h: Env<E>, es: seq<Expr<E>>)
    requires AllHashValid(r, h, es)
    ensures forall x :: x in AllSubs(es) ==> HashValid(r, h, x)
  {
    forall x | x in AllSubs(es) ensures HashValid(r, h, x) {
      var i :| 0 <= i < |es| && x in Subs(es[i]);
      SubsHashValid(r, h, es[i], x);
    }
  }

  lemma FromTermsHashValid<E(!new)>(r: Ring<E>, h: Env<E>, kind: Kind, ts: seq<Expr<E>>, ns: seq<int>)
    requires |ts| == |ns| && AllHashValid(r, h, ts)
    ensures HashValid(r, h, FromTerms(r, kind, ts, ns))
  {
  }

  lemma HashVals<E(!new)>(r: Ring<E>, h: Env<E>, es: seq<Expr<E>>)
    requires AllHashValid(r, h, es)
    ensures Vals(r, es, h) == Hashes(es)
  {
    forall i | 0 <= i < |es| ensures Eval(r, es[i], h) == es[i].esh {
      HashIsEval(r, h, es[i]);
    }
  }

  /** Whatever the simplifier groups or folds, the hash of the result is the combination of
      the hashes of the items: no hypothesis on collisions. */
  lemma NewNaryHash<E(!new)>(r: Ring<E>, h: Env<E>, kind: Kind, items: seq<Expr<E>>, ks: seq<int>)
    requires r.Lawful() && |items| == |ks| && Weights(kind, ks) && AllWellFormed(items) && AllHashValid(r, h, items)
    ensures HashValid(r, h, NewNary(r, kind, items, ks))
    ensures NewNary(r, kind, items, ks).esh == Fold(r, kind, ks, Hashes(items))
  {
    AllSubsHashValid(r, h, items);
    SimplifyTerms(r, kind, items, ks);
    var (ts, ns) := Simplify(r, kind, items, ks);
    forall i | 0 <= i < |ts| ensures HashValid(r, h, ts[i]) {
      assert Sourced(ts[i], items);
    }
    FromTermsHashValid(r, h, kind, ts, ns);
    FaithfulAtHashPoint(r, h, AllSubs(items));
    NewNaryValue(r, kind, items, ks, AllSubs(items), h);
    HashIsEval(r, h, NewNary(r, kind, items, ks));
    HashVals(r, h, items);
  }

  lemma NewPolyEvalHash<E(!new)>(r: Ring<E>, h: Env<E>, x: Expr<E>, coeffs: seq<Expr<E>>)
    requires r.Lawful() && coeffs != [] && HashValid(r, h, x) && AllHashValid(r, h, coeffs)
    requires WellFormed(x) && AllWellFormed(coeffs)
    ensures HashValid(r, h, NewPolyEval(r, x, coeffs)) && WellFormed(NewPolyEval(r, x, coeffs))
    ensures NewPolyEval(r, x, coeffs).esh == r.Horner(x.esh, Hashes(coeffs))
  {
    if |coeffs| == 1 {
      var c := coeffs[0].esh;
      assert Hashes(coeffs) == [c] && [c][1..] == [];
      assert r.Horner(x.esh, []) == r.zero;
      MulZero(r, x.esh);
      assert r.At1(c);
    } else {
      assert Hashes([x] + coeffs)[1..] == Hashes(coeffs);
    }
  }
}
