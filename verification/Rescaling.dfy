/** Retrying the bootstrapper with larger limits after an overflow. */
module Rescaling {
  import opened Chunks
  import opened PowersOfTwo
  import opened TraceLimits

  /** What one attempt of the prover does. */
  datatype Attempt = Success | Overflow(requested: int, limit: int) | OtherPanic

  /** The prover under a scaling factor. */
  datatype Prover = Prover(fn: int -> Attempt) {
    function Try(factor: int): Attempt { fn(factor) }
  }

  datatype Result = Finished(factor: int, retries: nat) | Crashed(retries: nat)

  /** The least power of two at or above n. */
  function NextPow2(n: nat): int {
    Smear(n - 1) + 1
  }

  /** A report that the handler can use. */
  ghost predicate Usable(requested: int, limit: int) {
    0 < limit < requested <= MAX_INPUT
  }

  /** n is the quotient of a by b, rounded up. */
  ghost predicate Ceiling(n: int, a: int, b: int) {
    b * n >= a && b * (n - 1) < a
  }

  lemma MulGrowsLeft(k: int, a: int, b: int)
    requires k > 0 && a <= b
    ensures k * a <= k * b
  {
  }

  lemma CeilingRange(n: int, requested: int, limit: int)
    requires 0 < limit < requested && Ceiling(n, requested, limit)
    ensures 2 <= n <= requested
  {
    if n <= 1 { MulGrowsLeft(limit, n, 1); }
    if n > requested { MulGrowsLeft(n - 1, 1, limit); }
  }

  /** The extra factor is a power of two, at least two, and lifts the limit over the request. */
  lemma ExtraCovers(requested: int, limit: int, n: int, e: int)
    requires Usable(requested, limit) && Ceiling(n, requested, limit) && LeastPow2(e, n)
    ensures 2 <= e && IsPow2(e) && requested <= limit * e < 4 * requested
  {
    CeilingRange(n, requested, limit);
    MulGrowsLeft(limit, n, e);
    MulGrowsLeft(limit, e, 2 * n);
    Doubled(limit, n);
  }

  lemma Doubled(limit: int, n: int)
    ensures limit * (2 * n) == 2 * (limit * (n - 1)) + 2 * limit
  {
  }

  lemma {:induction false} Pow2Product(p: nat, q: nat)
    requires IsPow2(p) && IsPow2(q)
    ensures IsPow2(p * q)
  {
    if p > 1 {
      Pow2Product(p / 2, q);
      HalfProduct(p, q);
    }
  }

  lemma HalfProduct(p: nat, q: nat)
    requires p % 2 == 0 && p > 0 && q > 0
    ensures p * q > 0 && (p * q) % 2 == 0 && (p * q) / 2 == (p / 2) * q
  {
    var h := p / 2;
    assert p == 2 * h;
    assert p * q == 2 * (h * q);
    assert h * q >= 1;
  }

  // ----- the loop -----

  /** Overflows happen on scalable modules only: the limit grows with the factor, and no request
      exceeds the demand. */
  ghost predicate Bounded(p: Prover, demand: int) {
    && demand <= MAX_INPUT
    && forall f :: f >= 1 && p.Try(f).Overflow? ==> f <= p.Try(f).limit < p.Try(f).requested <= demand
  }

  lemma FactorGrows(f: int, e: int, limit: int)
    requires f >= 1 && IsPow2(f) && e >= 2 && IsPow2(e) && f <= limit
    ensures 2 * f <= f * e <= limit * e && f * e > 0 && IsPow2(f * e)
  {
    Pow2Product(f, e);
    MulGrowsLeft(f, 2, e);
    MulGrowsLeft(e, f, limit);
  }

  /** What the handler does with a report. */
  method Handle(factor: int, requested: int, limit: int) returns (factor': int)
    requires factor >= 1 && IsPow2(factor) && factor <= limit && Usable(requested, limit)
    ensures 2 * factor <= factor' < 4 * requested && IsPow2(factor')
    ensures factor' == factor * Extra(requested, limit)
  {
    var n := DivCeil(requested, limit);
    DivCeilIsCeiling(requested, limit);
    CeilingRange(n, requested, limit);
    var extra := NextPowerOfTwo(n);
    NextIsUnique(n, extra.value);
    ExtraGrows(factor, requested, limit, extra.value);
    factor' := factor * extra.value;
  }

  ghost predicate IsExtra(e: int, requested: int, limit: int) {
    exists n :: Ceiling(n, requested, limit) && LeastPow2(e, n)
  }

  lemma ExtraFrom(n: int, requested: int, limit: int)
    requires Ceiling(n, requested, limit) && 1 <= n <= MAX_INPUT
    ensures IsExtra(NextPow2(n), requested, limit)
  {
    SmearIsNext(n);
  }

  lemma ExtraIs(requested: int, limit: int)
    requires Usable(requested, limit)
    ensures IsExtra(Extra(requested, limit), requested, limit)
  {
    var n := DivCeil(requested, limit);
    DivCeilIsCeiling(requested, limit);
    CeilingRange(n, requested, limit);
    ExtraFrom(n, requested, limit);
  }

  lemma ExtraGrows(factor: int, requested: int, limit: int, e: int)
    requires factor >= 1 && IsPow2(factor) && factor <= limit && Usable(requested, limit)
             && IsExtra(e, requested, limit)
    ensures 2 * factor <= factor * e < 4 * requested && IsPow2(factor * e)
    ensures limit * e >= requested
  {
    var n :| Ceiling(n, requested, limit) && LeastPow2(e, n);
    ExtraCovers(requested, limit, n, e);
    FactorGrows(factor, e, limit);
  }

  function Extra(requested: int, limit: int): int
    requires limit > 0
  {
    var n := DivCeil(requested, limit);
    if n >= 0 then NextPow2(n) else 0
  }

  lemma NextIsUnique(n: nat, v: int)
    requires 1 <= n <= MAX_INPUT && LeastPow2(v, n)
    ensures v == NextPow2(n)
  {
    SmearIsNext(n);
    assert IsPow2(v) && IsPow2(NextPow2(n));
  }

  /** The factor of the k-th attempt: 1 at first, then multiplied for every report. */
  function FactorAfter(p: Prover, k: nat): int {
    if k == 0 then 1
    else
      var f := FactorAfter(p, k - 1);
      match p.Try(f)
      case Overflow(requested, limit) => if limit > 0 then f * Extra(requested, limit) else f
      case _ => f
  }

  /** The first k attempts overflowed. */
  ghost predicate OverflowsBefore(p: Prover, k: nat) {
    forall j :: 0 <= j < k ==> p.Try(FactorAfter(p, j)).Overflow?
  }

  /** What is known of the factor before the attempt after so many retries. */
  ghost predicate InRange(demand: int, factor: int, retries: nat) {
    && factor >= Pow2(retries) && factor >= 1 && IsPow2(factor)
    && (retries > 0 ==> Pow2(retries - 1) < demand && factor < 4 * demand)
  }

  lemma AttemptStep(p: Prover, k: nat, requested: int, limit: int)
    requires OverflowsBefore(p, k) && p.Try(FactorAfter(p, k)) == Overflow(requested, limit) && limit > 0
    ensures OverflowsBefore(p, k + 1) && FactorAfter(p, k + 1) == FactorAfter(p, k) * Extra(requested, limit)
  {
  }

  method Retry(p: Prover, factor: int, retries: nat, requested: int, limit: int, ghost demand: int)
    returns (factor': int)
    requires Bounded(p, demand) && InRange(demand, factor, retries)
    requires p.Try(factor) == Overflow(requested, limit)
    ensures InRange(demand, factor', retries + 1) && factor < factor' < 4 * demand
    ensures factor' == factor * Extra(requested, limit)
  {
    factor' := Handle(factor, requested, limit);
  }

  /** runBootstrapperWithRescaling: the factor stays a power of two, at least doubles with every
      retry, never exceeds four times the demand, and the number of retries is logarithmic. */
  method RunWithRescaling(p: Prover, ghost demand: int) returns (res: Result)
    requires Bounded(p, demand)
    ensures res.Finished? ==>
              && p.Try(res.factor) == Success && res.factor >= Pow2(res.retries) && IsPow2(res.factor)
              && (res.retries > 0 ==> Pow2(res.retries - 1) < demand && res.factor < 4 * demand)
    ensures res.Finished? ==> res.factor == FactorAfter(p, res.retries) && OverflowsBefore(p, res.retries)
    ensures res.Crashed? ==> p.Try(FactorAfter(p, res.retries)) == OtherPanic && OverflowsBefore(p, res.retries)
    ensures (forall f :: f >= 1 ==> p.Try(f) != OtherPanic) ==> res.Finished?
  {
    var factor, retries := 1, 0;
    while true
      invariant InRange(demand, factor, retries)
      invariant factor == FactorAfter(p, retries) && OverflowsBefore(p, retries)
      decreases 4 * demand - factor
    {
      match p.Try(factor)
      case Success => return Finished(factor, retries);
      case OtherPanic => return Crashed(retries);
      case Overflow(requested, limit) =>
        AttemptStep(p, retries, requested, limit);
        factor := Retry(p, factor, retries, requested, limit, demand);
        retries := retries + 1;
    }
  }

  // ----- a world given by demands -----

  /** Modules with their demands, under a mode and a configured factor. */
  datatype World = World(modules: seq<ModuleLimit>, demands: seq<int>, large: bool, configured: int)
  {
    ghost predicate Valid() {
      && |modules| == |demands|
      && (forall i :: 0 <= i < |modules| ==> modules[i].limit >= 1 && modules[i].limitLarge >= 1)
      && (forall i :: 0 <= i < |demands| ==> demands[i] <= MAX_INPUT)
    }

    /** The limit of module i when the configured limits are scaled up by f. */
    function LimitAt(i: nat, f: int): int
      requires i < |modules|
    {
      ScaledLimit(modules[i], large, ScaledFactor(configured, f))
    }

    /** The first module from i on whose demand exceeds its limit overflows. */
    function TryFrom(i: nat, f: int): Attempt
      requires |modules| == |demands| && i <= |modules|
      decreases |modules| - i
    {
      if i == |modules| then Success
      else if demands[i] > LimitAt(i, f) then Overflow(demands[i], LimitAt(i, f))
      else TryFrom(i + 1, f)
    }

    /** The factor of the k-th attempt. */
    function FactorAt(k: nat): int
      requires |modules| == |demands|
    {
      if k == 0 then 1
      else
        var f := FactorAt(k - 1);
        match TryFrom(0, f)
        case Overflow(requested, limit) => if limit > 0 then f * Extra(requested, limit) else f
        case _ => f
    }
  }

  /** Limits follow the factor exactly on scalable modules, and not at all on the others. */
  lemma LimitScales(w: World, i: nat, f: int)
    requires w.Valid() && i < |w.modules| && f >= 1
    ensures w.LimitAt(i, f) == if w.modules[i].isNotScalable then w.LimitAt(i, 1) else w.LimitAt(i, 1) * f
    ensures w.LimitAt(i, 1) >= 1 && w.LimitAt(i, f) >= 1
    ensures !w.modules[i].isNotScalable ==> w.LimitAt(i, f) >= f
  {
    var m := w.modules[i];
    ScaleUpLimits(m, w.large, w.configured, f);
    ScaleUpLimits(m, w.large, w.configured, 1);
    BaseLimit(w, i);
    MulGrowsLeft(f, 1, w.LimitAt(i, 1));
  }

  lemma BaseLimit(w: World, i: nat)
    requires w.Valid() && i < |w.modules|
    ensures ScaledLimit(w.modules[i], w.large, w.configured) >= 1
  {
    var m := w.modules[i];
    var res := if w.large then m.limitLarge else m.limit;
    assert res >= 1;
    if !m.isNotScalable && w.configured > 1 { MulGrowsLeft(w.configured, 1, res); }
  }

  lemma {:induction false} OverflowSource(w: World, i: nat, f: int) returns (j: nat)
    requires w.Valid() && i <= |w.modules|
    ensures w.TryFrom(i, f) != OtherPanic
    ensures if w.TryFrom(i, f).Overflow? then i <= j < |w.modules| && w.demands[j] > w.LimitAt(j, f)
              && w.TryFrom(i, f) == Overflow(w.demands[j], w.LimitAt(j, f))
            else forall k :: i <= k < |w.modules| ==> w.demands[k] <= w.LimitAt(k, f)
    decreases |w.modules| - i
  {
    j := i;
    if i < |w.modules| && !(w.demands[i] > w.LimitAt(i, f)) { j := OverflowSource(w, i + 1, f); }
  }

  /** After a retry the limit of the module that overflowed covers its request. */
  lemma NextLimitCovers(w: World, i: nat, f: int)
    requires w.Valid() && i < |w.modules| && f >= 1 && !w.modules[i].isNotScalable && w.demands[i] > w.LimitAt(i, f)
    ensures w.LimitAt(i, f) > 0 && w.LimitAt(i, f * Extra(w.demands[i], w.LimitAt(i, f))) >= w.demands[i]
  {
    LimitScales(w, i, f);
    var l, q := w.LimitAt(i, f), w.demands[i];
    ExtraIs(q, l);
    var e := Extra(q, l);
    var n :| Ceiling(n, q, l) && LeastPow2(e, n);
    ExtraCovers(q, l, n, e);
    MulGrowsLeft(f, 1, e);
    LimitScales(w, i, f * e);
    Regroup(w.LimitAt(i, 1), f, e);
  }

  lemma Regroup(a: int, b: int, c: int)
    ensures a * (b * c) == (a * b) * c
  {
  }

  /** Every module that cannot be scaled fits into its limit. */
  ghost predicate FixedFit(w: World)
    requires w.Valid()
  {
    forall i :: 0 <= i < |w.modules| && w.modules[i].isNotScalable ==> w.demands[i] <= w.LimitAt(i, 1)
  }

  lemma {:induction false} FactorsGrow(w: World, k: nat)
    requires w.Valid() && FixedFit(w)
    ensures var f := w.FactorAt(k);
            && f >= 1 && IsPow2(f)
            && (w.TryFrom(0, f).Overflow? ==>
                  f >= Pow2(k) && f <= w.TryFrom(0, f).limit
                  && Usable(w.TryFrom(0, f).requested, w.TryFrom(0, f).limit))
  {
    if k > 0 {
      FactorsGrow(w, k - 1);
      var f := w.FactorAt(k - 1);
      var t := w.TryFrom(0, f);
      if t.Overflow? {
        ExtraIs(t.requested, t.limit);
        ExtraGrows(f, t.requested, t.limit, Extra(t.requested, t.limit));
      }
    }
    OverflowUsable(w, w.FactorAt(k));
  }

  lemma OverflowUsable(w: World, f: int)
    requires w.Valid() && FixedFit(w) && f >= 1
    ensures w.TryFrom(0, f).Overflow? ==>
              f <= w.TryFrom(0, f).limit && Usable(w.TryFrom(0, f).requested, w.TryFrom(0, f).limit)
  {
    var j := OverflowSource(w, 0, f);
    if w.TryFrom(0, f).Overflow? { LimitScales(w, j, f); }
  }

  /** The retries succeed if and only if every module that cannot be scaled fits. */
  lemma ConvergesExactly(w: World)
    requires w.Valid()
    ensures (exists k :: Succeeds(w, k)) <==> FixedFit(w)
  {
    if FixedFit(w) {
      FactorsGrow(w, 62);
      MaxInput();
      var j := OverflowSource(w, 0, w.FactorAt(62));
      assert Succeeds(w, 62);
    }
    if k :| Succeeds(w, k) {
      FactorPositive(w, k);
      var j := OverflowSource(w, 0, w.FactorAt(k));
      forall i | 0 <= i < |w.modules| && w.modules[i].isNotScalable ensures w.demands[i] <= w.LimitAt(i, 1) {
        LimitScales(w, i, w.FactorAt(k));
      }
    }
  }

  ghost predicate Succeeds(w: World, k: nat)
    requires w.Valid()
  {
    w.TryFrom(0, w.FactorAt(k)) == Success
  }

  lemma {:induction false} FactorPositive(w: World, k: nat)
    requires w.Valid()
    ensures w.FactorAt(k) >= 1
  {
    if k > 0 {
      FactorPositive(w, k - 1);
      var f := w.FactorAt(k - 1);
      var j := OverflowSource(w, 0, f);
      var t := w.TryFrom(0, f);
      if t.Overflow? {
        LimitScales(w, j, f);
        ExtraPositive(t.requested, t.limit);
        MulGrowsLeft(f, 1, Extra(t.requested, t.limit));
      }
    }
  }

  lemma ExtraPositive(requested: int, limit: int)
    requires Usable(requested, limit)
    ensures Extra(requested, limit) >= 1
  {
    ExtraIs(requested, limit);
  }

  /** One module that does not scale, with limit 1 and demand 2. */
  function FixedWorld(): World {
    World([ModuleLimit("FIXED", 1, 1, true)], [2], false, 1)
  }

  lemma FixedNeverSucceeds(k: nat)
    ensures FixedWorld().Valid() && !Succeeds(FixedWorld(), k)
  {
    var w := FixedWorld();
    assert w.Valid();
    assert !FixedFit(w) by { assert w.modules[0].isNotScalable; }
    ConvergesExactly(w);
  }
}
