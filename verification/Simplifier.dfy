/** The loops of the simplifying constructors, proved to compute their specification. */
module Simplifier {
  import opened Algebra
  import opened Expressions
  import opened Simplification
  import opened Wrappers

  const LINEAR_THRESHOLD := 16

  /** The index is exactly the position of every hash of the list. */
  ghost predicate IsIndex<E(!new)>(index: map<E, nat>, items: seq<Expr<E>>) {
    && (forall h :: h in index ==> index[h] < |items| && items[index[h]].esh == h)
    && (forall i :: 0 <= i < |items| ==> items[i].esh in index)
  }

  lemma IndexIsFind<E(!new)>(index: map<E, nat>, items: seq<Expr<E>>, h: E)
    requires DistinctHashes(items) && IsIndex(index, items)
    ensures Find(items, h) == if h in index then index[h] else |items|
  {
    if h in index { FindIs(items, h, index[h]); }
  }

  /** The variables shared by the closures of the simplifier. */
  class Collector<E(==,!new)> {
    const r: Ring<E>
    const kind: Kind
    var items: seq<Expr<E>>
    var ks: seq<int>
    var konst: E
    var index: map<E, nat>
    var indexed: bool

    ghost predicate Valid()
      reads this
    {
      && |items| == |ks|
      && DistinctHashes(items)
      && (indexed ==> IsIndex(index, items))
    }

    ghost function Contents(): Acc<E>
      reads this
    {
      Acc(items, ks, konst)
    }

    constructor (r: Ring<E>, kind: Kind)
      ensures Valid() && this.r == r && this.kind == kind
      ensures Contents() == Acc([], [], Unit(r, kind))
    {
      this.r, this.kind := r, kind;
      items, ks, konst := [], [], Unit(r, kind);
      index, indexed := map[], false;
    }

    /** Switches from the linear scan to the map. */
    method BuildIndex()
      requires Valid() && !indexed
      modifies this`index, this`indexed
      ensures Valid() && indexed
    {
      index := map[];
      for i := 0 to |items|
        invariant forall h :: h in index ==> index[h] < i && items[index[h]].esh == h
        invariant forall j :: 0 <= j < i ==> items[j].esh in index
      {
        index := index[items[i].esh := i];
      }
      indexed := true;
    }

    /** Linear scan for the first item with this hash. */
    method Scan(h: E) returns (i: nat)
      requires Valid()
      ensures i == Find(items, h)
    {
      i := 0;
      while i < |items|
        invariant i <= |items| && forall j :: 0 <= j < i ==> items[j].esh != h
      {
        if items[i].esh == h {
          FindIs(items, h, i);
          return;
        }
        i := i + 1;
      }
      FindIs(items, h, i);
    }

    method AddTerm(item: Expr<E>, k: int)
      requires Valid()
      modifies this
      ensures Valid()
      ensures Contents() == Simplification.AddTerm(r, kind, old(Contents()), item, k)
    {
      if k == 0 { return; }
      if item.op.Constant? {
        konst := Join(r, kind, konst, Act(r, kind, item.op.val, k));
        return;
      }
      if !indexed && |items| >= LINEAR_THRESHOLD { BuildIndex(); }
      if indexed {
        IndexIsFind(index, items, item.esh);
        if item.esh in index {
          var i := index[item.esh];
          ks := ks[i := ks[i] + k];
        } else {
          AppendDistinct(items, item, index);
          index := index[item.esh := |items|];
          items, ks := items + [item], ks + [k];
        }
      } else {
        var i := Scan(item.esh);
        if i < |items| {
          ks := ks[i := ks[i] + k];
        } else {
          AppendDistinct(items, item, index);
          items, ks := items + [item], ks + [k];
        }
      }
    }

    /** The terms of a nested combination, each weight multiplied by the outer one. */
    method AddNested(item: Expr<E>, k: int)
      requires Valid() && Nested(kind, item)
      modifies this
      ensures Valid()
      ensures Contents() == AddTerms(r, kind, old(Contents()), item.children, Scaled(k, item.op.ks))
    {
      for j := 0 to |item.children|
        invariant Valid()
        invariant Contents() == AddTerms(r, kind, old(Contents()), item.children[..j], Scaled(k, item.op.ks)[..j])
      {
        AddTerm(item.children[j], k * item.op.ks[j]);
        TakeOneMore(item.children, Scaled(k, item.op.ks), j);
      }
      assert item.children[..|item.children|] == item.children;
      assert Scaled(k, item.op.ks)[..|item.children|] == Scaled(k, item.op.ks);
    }
  }

  /** A hash that is not found can be appended, to the list and to its index. */
  lemma AppendDistinct<E(!new)>(items: seq<Expr<E>>, item: Expr<E>, index: map<E, nat>)
    requires DistinctHashes(items) && forall i :: 0 <= i < |items| ==> items[i].esh != item.esh
    ensures DistinctHashes(items + [item])
    ensures IsIndex(index, items) ==> IsIndex(index[item.esh := |items|], items + [item])
  {
  }

  lemma {:induction false} FindIs<E(!new)>(items: seq<Expr<E>>, h: E, i: nat)
    requires i <= |items| && forall j :: 0 <= j < i ==> items[j].esh != h
    requires i < |items| ==> items[i].esh == h
    ensures Find(items, h) == i
  {
  }

  lemma TakeOneMore<A, B>(xs: seq<A>, ys: seq<B>, j: nat)
    requires j < |xs| == |ys|
    ensures xs[..j + 1][..j] == xs[..j] && ys[..j + 1][..j] == ys[..j]
  {
  }

  lemma AddTermsSnoc<E(!new)>(r: Ring<E>, kind: Kind, acc: Acc<E>, xs: seq<Expr<E>>, ms: seq<int>, x: Expr<E>, m: int)
    requires |xs| == |ms| && |acc.items| == |acc.ks|
    ensures AddTerms(r, kind, acc, xs + [x], ms + [m]) == AddTerm(r, kind, AddTerms(r, kind, acc, xs, ms), x, m)
  {
    assert (xs + [x])[..|xs|] == xs && (ms + [m])[..|ms|] == ms;
  }

  lemma {:induction false} AddTermsAppend<E(!new)>(r: Ring<E>, kind: Kind, acc: Acc<E>,
      xs: seq<Expr<E>>, ms: seq<int>, ys: seq<Expr<E>>, ns: seq<int>)
    requires |xs| == |ms| && |ys| == |ns| && |acc.items| == |acc.ks|
    ensures AddTerms(r, kind, acc, xs + ys, ms + ns) == AddTerms(r, kind, AddTerms(r, kind, acc, xs, ms), ys, ns)
    decreases |ys|
  {
    if ys == [] {
      assert xs + ys == xs && ms + ns == ms;
    } else {
      var n := |ys| - 1;
      AddTermsAppend(r, kind, acc, xs, ms, ys[..n], ns[..n]);
      assert xs + ys == (xs + ys[..n]) + [ys[n]] && ms + ns == (ms + ns[..n]) + [ns[n]];
      assert ys == ys[..n] + [ys[n]] && ns == ns[..n] + [ns[n]];
      AddTermsSnoc(r, kind, acc, xs + ys[..n], ms + ns[..n], ys[n], ns[n]);
      AddTermsSnoc(r, kind, AddTerms(r, kind, acc, xs, ms), ys[..n], ns[..n], ys[n], ns[n]);
    }
  }

  lemma {:induction false} AddTermsZero<E(!new)>(r: Ring<E>, kind: Kind, acc: Acc<E>, xs: seq<Expr<E>>, ms: seq<int>)
    requires |xs| == |ms| && |acc.items| == |acc.ks|
    requires forall i :: 0 <= i < |ms| ==> ms[i] == 0
    ensures AddTerms(r, kind, acc, xs, ms) == acc
    decreases |xs|
  {
    if xs != [] { AddTermsZero(r, kind, acc, xs[..|xs| - 1], ms[..|xs| - 1]); }
  }

  ghost function Progress<E(!new)>(r: Ring<E>, kind: Kind, items: seq<Expr<E>>, ks: seq<int>, i: nat): Acc<E>
    requires |items| == |ks| && i <= |items|
  {
    AddTerms(r, kind, Acc([], [], Unit(r, kind)), FlatItems(kind, items[..i]), FlatKs(kind, items[..i], ks[..i]))
  }

  lemma ProgressStep<E(!new)>(r: Ring<E>, kind: Kind, items: seq<Expr<E>>, ks: seq<int>, i: nat, acc: Acc<E>)
    requires |items| == |ks| && i < |items| && acc == Progress(r, kind, items, ks, i) && |acc.items| == |acc.ks|
    ensures Progress(r, kind, items, ks, i + 1) == ItemStep(r, kind, acc, items[i], ks[i])
  {
    TakeOneMore(items, ks, i);
    var init := Acc([], [], Unit(r, kind));
    var front, frontKs := FlatItems(kind, items[..i]), FlatKs(kind, items[..i], ks[..i]);
    if Nested(kind, items[i]) {
      var tail := Scaled(ks[i], items[i].op.ks);
      AddTermsAppend(r, kind, init, front, frontKs, items[i].children, tail);
      if ks[i] == 0 { AddTermsZero(r, kind, acc, items[i].children, tail); }
    } else {
      AddTermsAppend(r, kind, init, front, frontKs, [items[i]], [ks[i]]);
      assert AddTerms(r, kind, acc, [], []) == acc;
      assert [items[i]][..0] == [] && [ks[i]][..0] == [];
    }
  }

  /** One item adds nothing, its own terms, or itself. */
  ghost function ItemStep<E(!new)>(r: Ring<E>, kind: Kind, acc: Acc<E>, item: Expr<E>, k: int): (acc': Acc<E>)
    requires |acc.items| == |acc.ks|
    ensures |acc'.items| == |acc'.ks|
  {
    if k == 0 then acc
    else if Nested(kind, item) then AddTerms(r, kind, acc, item.children, Scaled(k, item.op.ks))
    else AddTerm(r, kind, acc, item, k)
  }

  ghost function Steps<E(!new)>(r: Ring<E>, kind: Kind, items: seq<Expr<E>>, ks: seq<int>, i: nat): (acc: Acc<E>)
    requires |items| == |ks| && i <= |items|
    ensures |acc.items| == |acc.ks|
  {
    if i == 0 then Acc([], [], Unit(r, kind))
    else ItemStep(r, kind, Steps(r, kind, items, ks, i - 1), items[i - 1], ks[i - 1])
  }

  lemma {:induction false} StepsAreProgress<E(!new)>(r: Ring<E>, kind: Kind, items: seq<Expr<E>>, ks: seq<int>, i: nat)
    requires |items| == |ks| && i <= |items|
    ensures Steps(r, kind, items, ks, i) == Progress(r, kind, items, ks, i)
  {
    if i > 0 {
      StepsAreProgress(r, kind, items, ks, i - 1);
      ProgressStep(r, kind, items, ks, i - 1, Steps(r, kind, items, ks, i - 1));
    }
  }

  method AddItem<E(==,!new)>(c: Collector<E>, item: Expr<E>, k: int)
    requires c.Valid() && Weight(c.kind, k)
    modifies c
    ensures c.Valid() && c.Contents() == ItemStep(c.r, c.kind, old(c.Contents()), item, k)
  {
    if k != 0 {
      if Nested(c.kind, item) {
        c.AddNested(item, k);
      } else {
        c.AddTerm(item, k);
      }
    }
  }

  datatype Collected<E> = Panicked | ZeroFactor | Terms(acc: Acc<E>)

  /** A negative exponent is met before any zero factor. */
  ghost predicate Panics<E(!new)>(r: Ring<E>, kind: Kind, items: seq<Expr<E>>, ks: seq<int>)
    requires |items| == |ks|
  {
    kind.Prod? && exists i :: 0 <= i < |ks| && ks[i] < 0 && NoZeroBefore(r, items, ks, i)
  }

  ghost predicate NoZeroBefore<E(!new)>(r: Ring<E>, items: seq<Expr<E>>, ks: seq<int>, i: nat)
    requires i <= |items| == |ks|
  {
    forall j :: 0 <= j < i ==> ks[j] == 0 || items[j].esh != r.zero
  }

  /** The loop over the items; a negative exponent or a zero factor ends it. */
  method CollectItems<E(==,!new)>(r: Ring<E>, kind: Kind, items: seq<Expr<E>>, ks: seq<int>)
    returns (res: Collected<E>)
    requires |items| == |ks|
    ensures res.Panicked? <==> Panics(r, kind, items, ks)
    ensures res.ZeroFactor? ==> kind.Prod? && HasZero(r, items, ks)
    ensures res.Terms? ==> Weights(kind, ks) && !(kind.Prod? && HasZero(r, items, ks))
    ensures res.Terms? ==> res.acc == Steps(r, kind, items, ks, |items|)
  {
    var c := new Collector(r, kind);
    for i := 0 to |items|
      invariant fresh(c) && c.Valid() && c.r == r && c.kind == kind
      invariant c.Contents() == Steps(r, kind, items, ks, i)
      invariant kind.Prod? ==> NoZeroBefore(r, items, ks, i) && forall j :: 0 <= j < i ==> ks[j] >= 0
    {
      if kind.Prod? && ks[i] < 0 { return Panicked; }
      if kind.Prod? && ks[i] != 0 && items[i].esh == r.zero { return ZeroFactor; }
      AddItem(c, items[i], ks[i]);
    }
    res := Terms(Acc(c.items, c.ks, c.konst));
  }

  method FinishItems<E(==,!new)>(r: Ring<E>, kind: Kind, acc: Acc<E>) returns (newItems: seq<Expr<E>>, newKs: seq<int>)
    requires |acc.items| == |acc.ks|
    ensures (newItems, newKs) == Finish(r, kind, acc)
  {
    newItems, newKs := acc.items, acc.ks;
    if acc.konst != Unit(r, kind) {
      newItems, newKs := newItems + [NewConstant(acc.konst)], newKs + [1];
    }
    newItems, newKs := RemoveZeros(newItems, newKs);
  }

  /** simplifyLinComb and simplifyProduct as loops over the items; none when they panic. */
  method SimplifyItems<E(==,!new)>(r: Ring<E>, kind: Kind, items: seq<Expr<E>>, ks: seq<int>)
    returns (res: Option<(seq<Expr<E>>, seq<int>)>)
    ensures res.None? <==> |items| != |ks| || Panics(r, kind, items, ks)
    ensures res.Some? ==> res.value == Simplify(r, kind, items, ks)
  {
    if |items| != |ks| { return None; }
    var found := CollectItems(r, kind, items, ks);
    match found
    case Panicked => return None;
    case ZeroFactor => return Some(([NewConstant(r.zero)], [1]));
    case Terms(acc) =>
      StepsAreProgress(r, kind, items, ks, |items|);
      assert items[..|items|] == items && ks[..|ks|] == ks;
      var newItems, newKs := FinishItems(r, kind, acc);
      return Some((newItems, newKs));
  }

  /** In-place compaction: the kept terms move to the front, then the lists are cut. */
  method RemoveZeros<E>(items: seq<Expr<E>>, ks: seq<int>) returns (newItems: seq<Expr<E>>, newKs: seq<int>)
    requires |items| == |ks|
    ensures newItems == KeptItems(items, ks) && newKs == KeptKs(ks)
  {
    newItems, newKs := items, ks;
    var n := 0;
    for i := 0 to |items|
      invariant n <= i && Compacting(newItems, KeptItems(items[..i], ks[..i]), items, n, i)
      invariant Compacting(newKs, KeptKs(ks[..i]), ks, n, i)
    {
      TakeOneMore(items, ks, i);
      var x, k := newItems[i], newKs[i];
      if k != 0 {
        CompactStep(newItems, KeptItems(items[..i], ks[..i]), items, n, i);
        CompactStep(newKs, KeptKs(ks[..i]), ks, n, i);
        newItems, newKs := newItems[n := x], newKs[n := k];
        n := n + 1;
      }
    }
    assert items[..|items|] == items && ks[..|ks|] == ks;
    newItems, newKs := newItems[..n], newKs[..n];
  }

  /** The first n places hold the kept elements, the places from i on are untouched. */
  ghost predicate Compacting<T>(now: seq<T>, kept: seq<T>, was: seq<T>, n: nat, i: nat) {
    && |now| == |was| && n <= i <= |was| && |kept| == n
    && (forall j :: 0 <= j < n ==> now[j] == kept[j])
    && forall j :: i <= j < |was| ==> now[j] == was[j]
  }

  lemma CompactStep<T>(now: seq<T>, kept: seq<T>, was: seq<T>, n: nat, i: nat)
    requires Compacting(now, kept, was, n, i) && i < |was|
    ensures Compacting(now[n := now[i]], kept + [was[i]], was, n + 1, i + 1)
  {
  }

  /** The hash accumulated by newLinCombNoSimplify and newProductNoSimplify. */
  method HashOfTerms<E(!new)>(r: Ring<E>, kind: Kind, items: seq<Expr<E>>, ks: seq<int>) returns (esh: E)
    requires |items| == |ks|
    ensures esh == MakeNary(r, kind, items, ks).esh
  {
    esh := Unit(r, kind);
    for i := 0 to |items|
      invariant esh == Fold(r, kind, ks[..i], Hashes(items)[..i])
    {
      esh := Join(r, kind, esh, Act(r, kind, items[i].esh, ks[i]));
      TakeOneMore(ks, Hashes(items), i);
    }
    assert ks[..|ks|] == ks && Hashes(items)[..|items|] == Hashes(items);
  }

  /** The Horner loop of NewPolyEval, from the last coefficient down to the first. */
  method HashOfPolyEval<E(!new)>(r: Ring<E>, x: Expr<E>, coeffs: seq<Expr<E>>) returns (esh: E)
    ensures esh == r.Horner(x.esh, Hashes(coeffs))
  {
    esh := r.zero;
    var i := |coeffs|;
    while i > 0
      invariant 0 <= i <= |coeffs|
      invariant esh == r.Horner(x.esh, Hashes(coeffs)[i..])
    {
      i := i - 1;
      assert Hashes(coeffs)[i..][1..] == Hashes(coeffs)[i + 1..];
      esh := r.Add(r.Mul(esh, x.esh), coeffs[i].esh);
    }
    assert Hashes(coeffs)[0..] == Hashes(coeffs);
  }
}
