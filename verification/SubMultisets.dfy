/** The pruned odometer that enumerates the sub-multisets of a product's exponents. */
module SubMultisets {

  datatype Config = Config(minWeightForTerm: int, nLast: int, minDegreeForCandidate: int,
                           maxCandidatePerRound: int, maxNumElimination: int)

  /** Total weight of an exponent vector. */
  function TotalWeight(v: seq<int>, weights: seq<int>): int
    requires |v| == |weights|
  {
    if v == [] then 0
    else
      var n := |v| - 1;
      TotalWeight(v[..n], weights[..n]) + v[n] * weights[n]
  }

  lemma {:induction false} WeightUpdate(v: seq<int>, weights: seq<int>, i: nat, x: int)
    requires |v| == |weights| && i < |v|
    ensures TotalWeight(v[i := x], weights) == TotalWeight(v, weights) - v[i] * weights[i] + x * weights[i]
  {
    var n := |v| - 1;
    if i < n {
      assert v[i := x][..n] == v[..n][i := x];
      WeightUpdate(v[..n], weights[..n], i, x);
    } else {
      assert v[i := x][..n] == v[..n];
    }
  }

  lemma {:induction false} WeightMonotone(u: seq<int>, v: seq<int>, weights: seq<int>)
    requires |u| == |v| == |weights|
    requires forall i :: 0 <= i < |u| ==> u[i] <= v[i] && 0 <= weights[i]
    ensures TotalWeight(u, weights) <= TotalWeight(v, weights)
  {
    if u != [] {
      var n := |u| - 1;
      WeightMonotone(u[..n], v[..n], weights[..n]);
      assert u[n] * weights[n] <= v[n] * weights[n];
    }
  }

  lemma {:induction false} WeightZero(v: seq<int>, weights: seq<int>)
    requires |v| == |weights| && forall i :: 0 <= i < |v| ==> v[i] == 0
    ensures TotalWeight(v, weights) == 0
  {
    if v != [] { WeightZero(v[..|v| - 1], weights[..|v| - 1]); }
  }

  // ----- the lexicographic order and the box of exponent vectors -----

  ghost predicate DiffersAt(u: seq<int>, v: seq<int>, i: nat)
    requires |u| == |v|
  {
    i < |u| && u[..i] == v[..i] && u[i] < v[i]
  }

  ghost predicate LexLess(u: seq<int>, v: seq<int>) {
    |u| == |v| && exists i: nat :: DiffersAt(u, v, i)
  }

  lemma LexTransitive(u: seq<int>, v: seq<int>, w: seq<int>)
    requires LexLess(u, v) && LexLess(v, w)
    ensures LexLess(u, w)
  {
    var i: nat :| DiffersAt(u, v, i);
    var j: nat :| DiffersAt(v, w, j);
    var k := if i < j then i else j;
    assert u[..k] == u[..i][..k] && v[..k] == v[..i][..k] == v[..j][..k] && w[..k] == w[..j][..k];
    if i < j { assert w[i] == w[..j][i] == v[..j][i]; }
    if j < i { assert u[j] == u[..i][j] == v[..i][j]; }
    assert DiffersAt(u, w, k);
  }

  lemma LexIrreflexive(u: seq<int>)
    ensures !LexLess(u, u)
  {
  }

  lemma {:induction false} FirstDifference(u: seq<int>, v: seq<int>) returns (i: nat)
    requires |u| == |v| && u != v
    ensures i < |u| && u[..i] == v[..i] && u[i] != v[i]
    decreases |u|
  {
    var n := |u| - 1;
    if u[..n] == v[..n] {
      i := n;
      assert u == u[..n] + [u[n]] && v == v[..n] + [v[n]];
    } else {
      i := FirstDifference(u[..n], v[..n]);
      assert u[..n][..i] == u[..i] && v[..n][..i] == v[..i];
    }
  }

  /** The lexicographic order is total: different vectors of the same length are comparable. */
  lemma LexTotal(u: seq<int>, v: seq<int>)
    requires |u| == |v| && u != v
    ensures LexLess(u, v) || LexLess(v, u)
  {
    var i := FirstDifference(u, v);
    assert DiffersAt(u, v, i) || DiffersAt(v, u, i);
  }

  ghost predicate InBox(v: seq<int>, top: seq<int>) {
    |v| == |top| && forall i :: 0 <= i < |v| ==> 0 <= v[i] <= top[i]
  }

  ghost function Box(top: seq<int>): set<seq<int>> {
    if top == [] then {[]}
    else
      var n := |top| - 1;
      set v, x | v in Box(top[..n]) && 0 <= x <= top[n] :: v + [x]
  }

  lemma {:induction false} BoxComplete(v: seq<int>, top: seq<int>)
    requires InBox(v, top)
    ensures v in Box(top)
    decreases |top|
  {
    if top != [] {
      var n := |top| - 1;
      BoxComplete(v[..n], top[..n]);
      assert v == v[..n] + [v[n]];
    }
  }

  ghost function Above(v: seq<int>, top: seq<int>): set<seq<int>> {
    set u | u in Box(top) && LexLess(v, u)
  }

  /** How many vectors of the box are still to come. */
  ghost function LeftAbove(v: seq<int>, top: seq<int>): nat {
    |Above(v, top)|
  }

  lemma SmallerSet<T>(a: set<T>, b: set<T>)
    requires a < b
    ensures |a| < |b|
  {
    assert b == a + (b - a);
  }

  lemma LeftShrinks(u: seq<int>, v: seq<int>, top: seq<int>)
    requires LexLess(u, v) && InBox(v, top)
    ensures LeftAbove(v, top) < LeftAbove(u, top)
  {
    forall w | w in Above(v, top) ensures w in Above(u, top) {
      LexTransitive(u, v, w);
    }
    BoxComplete(v, top);
    LexIrreflexive(v);
    assert v in Above(u, top) && v !in Above(v, top);
    SmallerSet(Above(v, top), Above(u, top));
  }

  // ----- the enumerated vectors -----

  /** The iterator's immutable parameters. */
  datatype Frame = Frame(top: seq<int>, weights: seq<int>, maxWeight: int, cfg: Config)
  {
    ghost predicate Valid() {
      && |top| == |weights|
      && (forall i :: 0 <= i < |top| ==> 0 <= top[i])
      && (forall i :: 0 <= i < |weights| ==> 0 <= weights[i])
    }

    /** Number of positions from idx on whose weight reaches the minimal weight. */
    function Counted(idx: nat): nat
      requires idx <= |weights|
      decreases |weights| - idx
    {
      if idx == |weights| then 0
      else Counted(idx + 1) + if weights[idx] < cfg.minWeightForTerm then 0 else 1
    }

    /** Position idx takes part: heavy enough, and among the last nLast heavy ones. */
    predicate Eligible(idx: nat)
      requires idx < |weights|
    {
      weights[idx] >= cfg.minWeightForTerm && (cfg.nLast > 0 ==> Counted(idx) <= cfg.nLast)
    }

    ghost predicate Supported(v: seq<int>)
      requires |v| == |weights|
    {
      forall i {:trigger Eligible(i)} :: 0 <= i < |v| && !Eligible(i) ==> v[i] == 0
    }

    /** The non-empty, non-full vectors on eligible positions within the weight window. */
    ghost predicate Member(v: seq<int>)
      requires |top| == |weights|
    {
      && InBox(v, top)
      && Supported(v)
      && v != top
      && (exists i :: 0 <= i < |v| && v[i] != 0)
      && cfg.minDegreeForCandidate <= TotalWeight(v, weights) <= maxWeight
    }

    ghost predicate NoneAbove(u: seq<int>)
      requires |top| == |weights|
    {
      forall v {:trigger Named(v)} :: Member(v) ==> !LexLess(u, v)
    }

    /** w is above u and no member lies strictly between them. */
    ghost predicate Nearest(u: seq<int>, w: seq<int>)
      requires |top| == |weights|
    {
      LexLess(u, w) && forall v {:trigger Named(v)} :: Member(v) && LexLess(u, v) ==> v == w || LexLess(w, v)
    }

    ghost predicate NextMember(u: seq<int>, w: seq<int>)
      requires |top| == |weights|
    {
      Member(w) && Nearest(u, w)
    }
  }

  /** Marks the vectors at which a proof uses a statement about all members. */
  ghost predicate Named(v: seq<int>) { true }

  lemma {:induction false} CountedMonotone(f: Frame, i: nat, j: nat)
    requires i <= j <= |f.weights|
    ensures f.Counted(j) <= f.Counted(i)
    decreases j - i
  {
    if i < j { CountedMonotone(f, i + 1, j); }
  }

  // ----- which positions take part -----

  /** The positions from idx on that are heavy enough. */
  ghost function HeavyFrom(f: Frame, idx: nat): set<nat> {
    set i: nat | idx <= i < |f.weights| && f.weights[i] >= f.cfg.minWeightForTerm
  }

  ghost function EligibleFrom(f: Frame, idx: nat): set<nat> {
    set i: nat | idx <= i < |f.weights| && f.Eligible(i)
  }

  lemma {:induction false} CountedIsHeavy(f: Frame, idx: nat)
    requires idx <= |f.weights|
    ensures f.Counted(idx) == |HeavyFrom(f, idx)|
    decreases |f.weights| - idx
  {
    if idx < |f.weights| {
      CountedIsHeavy(f, idx + 1);
      if f.weights[idx] >= f.cfg.minWeightForTerm {
        assert HeavyFrom(f, idx) == HeavyFrom(f, idx + 1) + {idx};
      } else {
        assert HeavyFrom(f, idx) == HeavyFrom(f, idx + 1);
      }
    } else {
      assert HeavyFrom(f, idx) == {};
    }
  }

  lemma {:induction false} EligibleSize(f: Frame, idx: nat)
    requires idx <= |f.weights| && f.cfg.nLast > 0
    ensures |EligibleFrom(f, idx)| == if f.Counted(idx) <= f.cfg.nLast then f.Counted(idx) else f.cfg.nLast
    decreases |f.weights| - idx
  {
    if idx < |f.weights| {
      EligibleSize(f, idx + 1);
      if f.Eligible(idx) {
        assert EligibleFrom(f, idx) == EligibleFrom(f, idx + 1) + {idx};
      } else {
        assert EligibleFrom(f, idx) == EligibleFrom(f, idx + 1);
      }
    } else {
      assert EligibleFrom(f, idx) == {};
    }
  }

  /** Without nLast all heavy positions take part; with it the last nLast heavy ones do, or all if
      there are fewer. Light positions neither take part nor use up the budget. */
  lemma EligibleExactly(f: Frame)
    ensures EligibleFrom(f, 0) <= HeavyFrom(f, 0)
    ensures f.cfg.nLast <= 0 ==> EligibleFrom(f, 0) == HeavyFrom(f, 0)
    ensures var n, heavy := f.cfg.nLast, |HeavyFrom(f, 0)|;
            n > 0 ==> |EligibleFrom(f, 0)| == if n <= heavy then n else heavy
    ensures forall i, j :: i in EligibleFrom(f, 0) && j in HeavyFrom(f, 0) && i < j ==> j in EligibleFrom(f, 0)
  {
    if f.cfg.nLast > 0 {
      CountedIsHeavy(f, 0);
      EligibleSize(f, 0);
      forall i, j | i in EligibleFrom(f, 0) && j in HeavyFrom(f, 0) && i < j ensures j in EligibleFrom(f, 0) {
        CountedMonotone(f, i, j);
      }
    }
  }

  lemma InBoxTop(v: seq<int>, top: seq<int>, w: seq<int>)
    requires v == top && InBox(w, top)
    ensures !LexLess(v, w)
  {
  }

  // ----- one step of the odometer -----

  /** The start vector with positions after idx cleared and position idx raised by d. */
  ghost predicate Carried(f: Frame, start: seq<int>, curr: seq<int>, idx: int)
    requires |start| == |curr|
  {
    && -1 <= idx < |curr|
    && (forall j :: 0 <= j <= idx ==> curr[j] == start[j])
    && forall j :: idx < j < |curr| ==> curr[j] == 0
  }

  /** Every later member already differs from the start at or before idx. */
  ghost predicate Passed(f: Frame, start: seq<int>, idx: int)
    requires |start| == |f.top| == |f.weights|
  {
    forall v {:trigger Named(v)} :: f.Member(v) ==> forall i: nat :: DiffersAt(start, v, i) ==> i <= idx
  }

  lemma WeightBump(v: seq<int>, weights: seq<int>, i: nat)
    requires |v| == |weights| && i < |v|
    ensures TotalWeight(v[i := v[i] + 1], weights) == TotalWeight(v, weights) + weights[i]
  {
    WeightUpdate(v, weights, i, v[i] + 1);
    assert (v[i] + 1) * weights[i] == v[i] * weights[i] + weights[i];
  }

  /** A vector that first differs from the start at idx weighs at least one more unit of
      position idx than the carried vector. */
  lemma HeavierAt(f: Frame, start: seq<int>, curr: seq<int>, idx: nat, v: seq<int>)
    requires f.Valid() && |start| == |curr| == |f.top| && Carried(f, start, curr, idx)
    requires InBox(v, f.top) && DiffersAt(start, v, idx)
    ensures TotalWeight(curr, f.weights) + f.weights[idx] <= TotalWeight(v, f.weights)
  {
    var up := curr[idx := curr[idx] + 1];
    forall j | 0 <= j < |up| ensures up[j] <= v[j] {
      if j < idx { assert start[j] == start[..idx][j] == v[..idx][j]; }
    }
    WeightBump(curr, f.weights, idx);
    WeightMonotone(up, v, f.weights);
  }

  /** Position idx cannot be raised, so no member differs there first. */
  lemma PassBlocked(f: Frame, start: seq<int>, curr: seq<int>, idx: nat)
    requires f.Valid() && |start| == |curr| == |f.top| && Passed(f, start, idx) && Carried(f, start, curr, idx)
    requires (!f.Eligible(idx) && start[idx] == 0) || start[idx] == f.top[idx]
          || TotalWeight(curr, f.weights) + f.weights[idx] > f.maxWeight
    ensures Passed(f, start, idx - 1)
  {
    forall v, i: nat | f.Member(v) && DiffersAt(start, v, i) ensures i <= idx - 1 {
      assert Named(v);
      if i == idx {
        HeavierAt(f, start, curr, idx, v);
        assert false;
      }
    }
  }

  lemma ClearedWeight(f: Frame, start: seq<int>, curr: seq<int>, idx: nat)
    requires |start| == |curr| == |f.weights| && Carried(f, start, curr, idx)
    ensures Carried(f, start, curr[idx := 0], idx - 1)
    ensures TotalWeight(curr[idx := 0], f.weights) == TotalWeight(curr, f.weights) - curr[idx] * f.weights[idx]
  {
    WeightUpdate(curr, f.weights, idx, 0);
  }

  /** Past the last eligible position nothing can be raised. */
  lemma PassRest(f: Frame, start: seq<int>, idx: nat)
    requires f.Valid() && |start| == |f.top| && InBox(start, f.top) && idx < |start| && Passed(f, start, idx)
    requires f.cfg.nLast > 0 && f.Counted(idx) > f.cfg.nLast
    ensures f.NoneAbove(start)
  {
    forall i: nat | i <= idx ensures !f.Eligible(i) {
      CountedMonotone(f, i, idx);
    }
    forall v | f.Member(v) ensures !LexLess(start, v) {
      assert Named(v);
      forall i: nat | i <= idx ensures !DiffersAt(start, v, i) {
        assert !f.Eligible(i);
      }
    }
  }

  lemma PassedAll(f: Frame, start: seq<int>)
    requires f.Valid() && |start| == |f.top| && Passed(f, start, -1)
    ensures f.NoneAbove(start)
  {
    forall v | f.Member(v) ensures !LexLess(start, v) {
      assert Named(v);
    }
  }

  /** The raised vector is the least candidate above the start. */
  lemma RaisedIsLeast(f: Frame, start: seq<int>, curr: seq<int>, idx: nat, w: seq<int>)
    requires f.Valid() && |start| == |curr| == |f.top| && Carried(f, start, curr, idx) && Passed(f, start, idx)
    requires w == curr[idx := curr[idx] + 1]
    ensures f.Nearest(start, w)
  {
    assert w[..idx] == start[..idx];
    assert DiffersAt(start, w, idx);
    forall v | f.Member(v) && LexLess(start, v) ensures v == w || LexLess(w, v) {
      var i: nat :| DiffersAt(start, v, i);
      assert Named(v);
      assert i <= idx;
      if i < idx {
        assert w[..i] == w[..idx][..i] == start[..idx][..i] == v[..i];
        assert w[i] == w[..idx][i] == start[i];
        assert DiffersAt(w, v, i);
      } else if v != w {
        var k := FirstDifference(w, v);
        forall j | 0 <= j < idx ensures v[j] == w[j] {
          assert v[j] == v[..idx][j] == start[..idx][j] == w[..idx][j];
        }
        assert DiffersAt(w, v, k);
      }
    }
  }

  lemma NoneAboveFull(f: Frame, start: seq<int>, w: seq<int>)
    requires f.Valid() && w == f.top && f.Nearest(start, w)
    ensures f.NoneAbove(start)
  {
    forall v | f.Member(v) ensures !LexLess(start, v) {
      assert Named(v);
      InBoxTop(w, f.top, v);
    }
  }

  class SubMultisetIterator {
    const frame: Frame
    var curr: seq<int>
    var exhausted: bool

    ghost predicate Valid()
      reads this
    {
      && frame.Valid()
      && |curr| == |frame.top|
      && (!exhausted ==> InBox(curr, frame.top) && frame.Supported(curr))
    }

    constructor (exponents: seq<int>, weights: seq<int>, maxWeight: int, cfg: Config)
      requires Frame(exponents, weights, maxWeight, cfg).Valid()
      ensures frame == Frame(exponents, weights, maxWeight, cfg) && Valid() && !exhausted
      ensures |curr| == |exponents| && forall i :: 0 <= i < |curr| ==> curr[i] == 0
    {
      frame := Frame(exponents, weights, maxWeight, cfg);
      curr := seq(|exponents|, _ => 0);
      exhausted := false;
    }

    method CurrentTotalWeight() returns (sum: int)
      requires |curr| == |frame.weights|
      ensures sum == TotalWeight(curr, frame.weights)
    {
      sum := 0;
      for i := 0 to |curr|
        invariant sum == TotalWeight(curr[..i], frame.weights[..i])
      {
        sum := sum + curr[i] * frame.weights[i];
        assert curr[..i + 1][..i] == curr[..i] && frame.weights[..i + 1][..i] == frame.weights[..i];
      }
      assert curr[..|curr|] == curr && frame.weights[..|curr|] == frame.weights;
    }

    /** Moves to the least member above the current vector, or reports that there is none. */
    method Next() returns (more: bool)
      requires Valid()
      modifies this
      ensures Valid()
      ensures old(exhausted) ==> !more && curr == old(curr)
      ensures more ==> frame.NextMember(old(curr), curr)
      ensures !more && !old(exhausted) ==> frame.NoneAbove(old(curr))
      ensures exhausted == !more
      decreases LeftAbove(curr, frame.top)
    {
      if exhausted { return false; }
      var outcome := Scan();
      if outcome.TooLight? {
        ghost var raised := curr;
        more := Next();
        NextAfterSkip(frame, old(curr), raised, curr, more);
        return;
      }
      exhausted := outcome.Exhausted?;
      return outcome.Found?;
    }

    /** Raises one position and classifies the result; a full vector ends the enumeration. */
    method RaiseAt(idx: nat, totalWeight: int, ghost start: seq<int>) returns (outcome: ScanOutcome)
      requires StartsFrom(frame, start) && Scanning(frame, start, curr, idx, totalWeight, false) && frame.Eligible(idx)
      requires curr[idx] < frame.top[idx] && totalWeight + frame.weights[idx] <= frame.maxWeight
      modifies this`curr
      ensures Settled(frame, start, curr, outcome)
      ensures outcome.Exhausted? ==> Scanning(frame, start, curr, idx - 1, totalWeight, true)
    {
      Raise(frame, start, curr, idx, totalWeight);
      curr := curr[idx := curr[idx] + 1];
      if totalWeight + frame.weights[idx] < frame.cfg.minDegreeForCandidate {
        return TooLight;
      }
      if curr == frame.top || (forall i :: 0 <= i < |curr| ==> curr[i] == 0) {
        return Exhausted;
      }
      return Found;
    }

    /** One scan from the last position: raise the first position that can be raised. */
    method Scan() returns (outcome: ScanOutcome)
      requires Valid() && !exhausted
      modifies this`curr
      ensures Settled(frame, old(curr), curr, outcome)
    {
      var f := frame;
      ghost var start := curr;
      var totalWeight := CurrentTotalWeight();
      var counted := 0;
      ghost var full := false;
      var idx := |curr| - 1;
      ScanStart(f, start);
      while idx >= 0
        invariant Scanning(f, start, curr, idx, totalWeight, full)
        invariant counted == f.Counted(idx + 1)
      {
        var w := f.weights[idx];
        if w < f.cfg.minWeightForTerm {
          ScanSkip(f, start, curr, idx, totalWeight, full);
          idx := idx - 1;
          continue;
        }
        counted := counted + 1;
        if f.cfg.nLast > 0 && counted > f.cfg.nLast {
          if !full { PassRest(f, start, idx); }
          break;
        }
        if curr[idx] < f.top[idx] && totalWeight + w <= f.maxWeight {
          if full { assert false; }
          outcome := RaiseAt(idx, totalWeight, start);
          if !outcome.Exhausted? { return; }
          full := true;
          idx := idx - 1;
          continue;
        }
        var dropped := curr[idx] * w;
        ScanClear(f, start, curr, idx, totalWeight, full, dropped);
        totalWeight := totalWeight - dropped;
        curr := curr[idx := 0];
        idx := idx - 1;
      }
      if idx == -1 && !full { PassedAll(f, start); }
      return Exhausted;
    }
  }

  /** A raised vector that is yielded, one below the minimal degree, or none at all. */
  datatype ScanOutcome = Found | TooLight | Exhausted

  ghost predicate Settled(f: Frame, start: seq<int>, curr: seq<int>, outcome: ScanOutcome)
    requires |f.top| == |f.weights|
  {
    && |curr| == |f.top|
    && match outcome
       case Found => f.NextMember(start, curr)
       case TooLight =>
         && InBox(curr, f.top) && f.Supported(curr)
         && f.Nearest(start, curr) && !f.Member(curr) && LeftAbove(curr, f.top) < LeftAbove(start, f.top)
       case Exhausted => f.NoneAbove(start)
  }

  ghost predicate StartsFrom(f: Frame, start: seq<int>) {
    f.Valid() && InBox(start, f.top) && f.Supported(start)
  }

  /** State of the scan before position idx: either the odometer has carried up to here and
      every later member differs at or before idx, or the full vector was reached and the
      scan only clears the rest. */
  ghost predicate Scanning(f: Frame, start: seq<int>, curr: seq<int>, idx: int, totalWeight: int, full: bool)
    requires StartsFrom(f, start)
  {
    && -1 <= idx < |curr| == |start|
    && (full ==> f.NoneAbove(start) && forall j :: 0 <= j <= idx ==> curr[j] == f.top[j])
    && (!full ==> Carried(f, start, curr, idx) && Passed(f, start, idx) && totalWeight == TotalWeight(curr, f.weights))
  }

  lemma ScanStart(f: Frame, start: seq<int>)
    requires StartsFrom(f, start)
    ensures Scanning(f, start, start, |start| - 1, TotalWeight(start, f.weights), false)
  {
    assert Passed(f, start, |start| - 1) by {
      forall v, i: nat | f.Member(v) && DiffersAt(start, v, i) ensures i <= |start| - 1 { }
    }
  }

  lemma ScanSkip(f: Frame, start: seq<int>, curr: seq<int>, idx: nat, totalWeight: int, full: bool)
    requires StartsFrom(f, start) && Scanning(f, start, curr, idx, totalWeight, full) && !f.Eligible(idx)
    ensures Scanning(f, start, curr, idx - 1, totalWeight, full)
  {
    if !full { Skip(f, start, curr, idx); }
  }

  lemma ScanClear(f: Frame, start: seq<int>, curr: seq<int>, idx: nat, totalWeight: int, full: bool, dropped: int)
    requires StartsFrom(f, start) && Scanning(f, start, curr, idx, totalWeight, full)
             && dropped == curr[idx] * f.weights[idx]
    requires curr[idx] >= f.top[idx] || totalWeight + f.weights[idx] > f.maxWeight
    ensures Scanning(f, start, curr[idx := 0], idx - 1, totalWeight - dropped, full)
  {
    if !full {
      PassBlocked(f, start, curr, idx);
      ClearedWeight(f, start, curr, idx);
    }
  }

  /** A position that does not take part is zero and stays zero. */
  lemma Skip(f: Frame, start: seq<int>, curr: seq<int>, idx: nat)
    requires f.Valid() && |start| == |curr| == |f.top| && InBox(start, f.top) && f.Supported(start)
    requires Carried(f, start, curr, idx) && Passed(f, start, idx) && !f.Eligible(idx)
    ensures Carried(f, start, curr, idx - 1) && Passed(f, start, idx - 1)
  {
    PassBlocked(f, start, curr, idx);
  }

  lemma RaisedInBox(f: Frame, start: seq<int>, curr: seq<int>, idx: nat)
    requires f.Valid() && |start| == |curr| == |f.top| && InBox(start, f.top) && f.Supported(start)
    requires Carried(f, start, curr, idx) && f.Eligible(idx) && curr[idx] < f.top[idx]
    ensures InBox(curr[idx := curr[idx] + 1], f.top) && f.Supported(curr[idx := curr[idx] + 1])
  {
  }

  /** Raising position idx gives the least candidate above the start: too light and to be
      skipped, or full and the last of all, or the next member. */
  lemma Raise(f: Frame, start: seq<int>, curr: seq<int>, idx: nat, totalWeight: int)
    requires StartsFrom(f, start) && Scanning(f, start, curr, idx, totalWeight, false) && f.Eligible(idx)
    requires curr[idx] < f.top[idx] && totalWeight + f.weights[idx] <= f.maxWeight
    ensures var w := curr[idx := curr[idx] + 1];
            && w[idx] != 0
            && (if totalWeight + f.weights[idx] < f.cfg.minDegreeForCandidate then Settled(f, start, w, TooLight)
                else if w == f.top then Scanning(f, start, w, idx - 1, totalWeight, true)
                else Settled(f, start, w, Found))
  {
    var w := curr[idx := curr[idx] + 1];
    RaisedInBox(f, start, curr, idx);
    WeightBump(curr, f.weights, idx);
    RaisedIsLeast(f, start, curr, idx, w);
    LeftShrinks(start, w, f.top);
    if w == f.top { NoneAboveFull(f, start, w); }
  }

  lemma NextAfterSkip(f: Frame, start: seq<int>, raised: seq<int>, found: seq<int>, more: bool)
    requires f.Valid() && f.Nearest(start, raised) && !f.Member(raised)
    requires if more then f.NextMember(raised, found) else f.NoneAbove(raised)
    ensures if more then f.NextMember(start, found) else f.NoneAbove(start)
  {
    if more { LexTransitive(start, raised, found); }
    forall v | f.Member(v) && LexLess(start, v) ensures more && (v == found || LexLess(found, v)) {
      assert Named(v);
    }
  }

  // ----- the whole enumeration -----

  ghost predicate Increasing(vs: seq<seq<int>>) {
    forall i, j :: 0 <= i < j < |vs| ==> LexLess(vs[i], vs[j])
  }

  /** Driving the iterator to the end yields every member exactly once, in increasing
      lexicographic order. */
  method Enumerate(exponents: seq<int>, weights: seq<int>, maxWeight: int, cfg: Config) returns (vs: seq<seq<int>>)
    requires Frame(exponents, weights, maxWeight, cfg).Valid()
    ensures Increasing(vs)
    ensures forall v :: v in vs <==> Frame(exponents, weights, maxWeight, cfg).Member(v)
  {
    var it := new SubMultisetIterator(exponents, weights, maxWeight, cfg);
    var f := it.frame;
    vs := [];
    StartsBelow(f, it.curr);
    var more := it.Next();
    forall v | f.Member(v) ensures more && (v == it.curr || LexLess(it.curr, v)) {
      assert Named(v);
    }
    while more
      invariant fresh(it) && it.Valid() && it.frame == f
      invariant more ==> !it.exhausted && f.Member(it.curr) && forall v :: v in vs ==> LexLess(v, it.curr)
      invariant Increasing(vs)
      invariant forall v :: v in vs ==> f.Member(v)
      invariant forall v :: f.Member(v) ==> v in vs || (more && (v == it.curr || LexLess(it.curr, v)))
      decreases if more then 1 + LeftAbove(it.curr, f.top) else 0
    {
      ghost var last, before := it.curr, vs;
      vs := vs + [it.curr];
      more := it.Next();
      forall v | f.Member(v) ensures v in vs || (more && (v == it.curr || LexLess(it.curr, v))) {
        assert Named(v);
      }
      if more {
        LeftShrinks(last, it.curr, f.top);
        forall v | v in vs ensures LexLess(v, it.curr) {
          if v != last { LexTransitive(v, last, it.curr); }
        }
      }
    }
  }

  lemma StartsBelow(f: Frame, zero: seq<int>)
    requires f.Valid() && |zero| == |f.top| && forall i :: 0 <= i < |zero| ==> zero[i] == 0
    ensures forall v :: f.Member(v) ==> LexLess(zero, v)
  {
    forall v | f.Member(v) ensures LexLess(zero, v) {
      var i :| 0 <= i < |v| && v[i] != 0;
      LexTotal(zero, v);
    }
  }
}
