/** The arithmetic of the extension machine on slots that hold either base or extension rows. */
module MixedKernels {
  import opened Algebra
  import opened Vectors

  /** The rows of a slot in one of the two memories. */
  datatype Cell<F, E> = InBase(base: seq<F>) | InExt(ext: seq<E>)
  {
    function Len(): nat { if InBase? then |base| else |ext| }
  }

  /** What a cell denotes: extension rows, lifted when they are stored as base rows. */
  ghost function Rows<F(!new), E(!new)>(t: Tower<F, E>, c: Cell<F, E>): (v: seq<E>)
    ensures |v| == c.Len()
  {
    if c.InBase? then t.LiftAll(c.base) else c.ext
  }

  // ----- kernels that mix a base and an extension operand -----

  function MulByElement<F(!new), E(!new)>(t: Tower<F, E>, a: seq<E>, b: seq<F>): (c: seq<E>)
    requires |a| == |b|
    ensures |c| == |a| && forall i :: 0 <= i < |a| ==> c[i] == t.ext.Mul(a[i], t.Lift(b[i]))
  {
    seq(|a|, i requires 0 <= i < |a| => t.ext.Mul(a[i], t.Lift(b[i])))
  }

  /** Adds base rows to the base coordinate of extension rows. */
  function AddBase<F(!new), E(!new)>(t: Tower<F, E>, a: seq<E>, b: seq<F>): (c: seq<E>)
    requires |a| == |b|
    ensures |c| == |a| && forall i :: 0 <= i < |a| ==> c[i] == t.ext.Add(a[i], t.Lift(b[i]))
  {
    seq(|a|, i requires 0 <= i < |a| => t.ext.Add(a[i], t.Lift(b[i])))
  }

  function SubBase<F(!new), E(!new)>(t: Tower<F, E>, a: seq<E>, b: seq<F>): (c: seq<E>)
    requires |a| == |b|
    ensures |c| == |a| && forall i :: 0 <= i < |a| ==> c[i] == t.ext.Sub(a[i], t.Lift(b[i]))
  {
    seq(|a|, i requires 0 <= i < |a| => t.ext.Sub(a[i], t.Lift(b[i])))
  }

  /** scatterBaseToExt. */
  function Scatter<F(!new), E(!new)>(t: Tower<F, E>, b: seq<F>): (c: seq<E>)
    ensures c == t.LiftAll(b)
  {
    t.LiftAll(b)
  }

  // ----- lifting commutes with the kernels -----

  lemma LiftVAct<F(!new), E(!new)>(t: Tower<F, E>, kind: Kind, v: seq<F>, k: int)
    requires t.Lawful()
    ensures t.LiftAll(VAct(t.base, kind, v, k)) == VAct(t.ext, kind, t.LiftAll(v), k)
  {
    forall i | 0 <= i < |v| ensures t.Lift(Act(t.base, kind, v[i], k)) == Act(t.ext, kind, t.Lift(v[i]), k) {
      LiftAct(t, kind, v[i], k);
    }
  }

  lemma LiftVJoin<F(!new), E(!new)>(t: Tower<F, E>, kind: Kind, a: seq<F>, b: seq<F>)
    requires t.Lawful() && |a| == |b|
    ensures t.LiftAll(VJoin(t.base, kind, a, b)) == VJoin(t.ext, kind, t.LiftAll(a), t.LiftAll(b))
  {
    forall i | 0 <= i < |a|
      ensures t.Lift(Join(t.base, kind, a[i], b[i])) == Join(t.ext, kind, t.Lift(a[i]), t.Lift(b[i]))
    {
      assert t.LiftAt(a[i], b[i]);
    }
  }

  lemma LiftFurther<F(!new), E(!new)>(t: Tower<F, E>, kind: Kind, acc: seq<F>, v: seq<F>, k: int)
    requires t.Lawful() && |acc| == |v|
    ensures t.LiftAll(VJoin(t.base, kind, acc, VAct(t.base, kind, v, k)))
         == VJoin(t.ext, kind, t.LiftAll(acc), VAct(t.ext, kind, t.LiftAll(v), k))
  {
    LiftVJoin(t, kind, acc, VAct(t.base, kind, v, k));
    LiftVAct(t, kind, v, k);
  }

  // ----- products -----

  /** The first factor decides the representation. */
  function FirstFactorCell<F(!new), E(!new)>(t: Tower<F, E>, src: Cell<F, E>, k: int): (c: Cell<F, E>)
    requires t.Lawful()
    ensures Rows(t, c) == VAct(t.ext, Prod, Rows(t, src), k)
    ensures c.InBase? == src.InBase?
  {
    if src.InBase? then
      LiftVAct(t, Prod, src.base, k);
      InBase(FirstFactor(t.base, src.base, k))
    else InExt(FirstFactor(t.ext, src.ext, k))
  }

  /** base*base, ext*base, base*ext (transition) and ext*ext. */
  function NextFactorCell<F(!new), E(!new)>(t: Tower<F, E>, acc: Cell<F, E>, src: Cell<F, E>, k: int): (c: Cell<F, E>)
    requires t.Lawful() && acc.Len() == src.Len()
    ensures Rows(t, c) == VJoin(t.ext, Prod, Rows(t, acc), VAct(t.ext, Prod, Rows(t, src), k))
    ensures c.InBase? == (acc.InBase? && src.InBase?)
  {
    if src.InBase? then
      var operand := FirstFactor(t.base, src.base, k);
      if acc.InBase? then
        LiftFurther(t, Prod, acc.base, src.base, k);
        InBase(VMul(t.base, acc.base, operand))
      else
        LiftVAct(t, Prod, src.base, k);
        InExt(MulByElement(t, acc.ext, operand))
    else
      var operand := FirstFactor(t.ext, src.ext, k);
      if acc.InBase? then
        SwapFactors(t, operand, acc.base);
        InExt(MulByElement(t, operand, acc.base))
      else InExt(VMul(t.ext, acc.ext, operand))
  }

  lemma SwapFactors<F(!new), E(!new)>(t: Tower<F, E>, a: seq<E>, b: seq<F>)
    requires t.Lawful() && |a| == |b|
    ensures MulByElement(t, a, b) == VJoin(t.ext, Prod, t.LiftAll(b), a)
  {
    forall i | 0 <= i < |a| ensures t.ext.Mul(a[i], t.Lift(b[i])) == t.ext.Mul(t.Lift(b[i]), a[i]) {
      assert t.ext.At2(a[i], t.Lift(b[i]));
    }
  }

  // ----- linear combinations -----

  /** An extension operand with coefficient zero leaves a base result. */
  function FirstTermCell<F(!new), E(!new)>(t: Tower<F, E>, src: Cell<F, E>, k: int): (c: Cell<F, E>)
    requires t.Lawful()
    ensures Rows(t, c) == VAct(t.ext, Sum, Rows(t, src), k)
    ensures c.InBase? == (src.InBase? || k == 0)
  {
    if src.InBase? then
      LiftVAct(t, Sum, src.base, k);
      InBase(FirstTerm(t.base, src.base, k))
    else if k == 0 then
      FirstTermCases(t.ext, src.ext);
      assert t.LiftAll(VFill(t.base.zero, |src.ext|)) == VFill(t.ext.zero, |src.ext|);
      InBase(VFill(t.base.zero, |src.ext|))
    else InExt(FirstTerm(t.ext, src.ext, k))
  }

  /** Adding base rows to an extension result, by cases on the coefficient. */
  function AddBaseTerm<F(!new), E(!new)>(t: Tower<F, E>, acc: seq<E>, b: seq<F>, k: int): (c: seq<E>)
    requires t.Lawful() && |acc| == |b|
    ensures c == VJoin(t.ext, Sum, acc, VAct(t.ext, Sum, t.LiftAll(b), k))
  {
    NextTermCases(t.ext, acc, t.LiftAll(b));
    if k == 0 then acc
    else if k == 1 then
      assert AddBase(t, acc, b) == VAdd(t.ext, acc, t.LiftAll(b));
      AddBase(t, acc, b)
    else if k == 2 then
      assert AddBase(t, AddBase(t, acc, b), b) == VAdd(t.ext, VAdd(t.ext, acc, t.LiftAll(b)), t.LiftAll(b));
      AddBase(t, AddBase(t, acc, b), b)
    else if k == -1 then
      assert SubBase(t, acc, b) == VSub(t.ext, acc, t.LiftAll(b));
      SubBase(t, acc, b)
    else
      var scaled := VScale(t.base, b, t.base.OfInt(k));
      ScaleIsAct(t.base, b, k);
      LiftVAct(t, Sum, b, k);
      assert AddBase(t, acc, scaled) == VJoin(t.ext, Sum, acc, t.LiftAll(scaled));
      AddBase(t, acc, scaled)
  }

  /** base+base, ext+base, and any result plus an extension operand, scattered if needed. */
  function NextTermCell<F(!new), E(!new)>(t: Tower<F, E>, acc: Cell<F, E>, src: Cell<F, E>, k: int): (c: Cell<F, E>)
    requires t.Lawful() && acc.Len() == src.Len()
    ensures Rows(t, c) == VJoin(t.ext, Sum, Rows(t, acc), VAct(t.ext, Sum, Rows(t, src), k))
    ensures c.InBase? == (acc.InBase? && (src.InBase? || k == 0))
  {
    if k == 0 then
      NextTermCases(t.ext, Rows(t, acc), Rows(t, src));
      acc
    else if src.InBase? then
      if acc.InBase? then
        LiftFurther(t, Sum, acc.base, src.base, k);
        InBase(NextTerm(t.base, acc.base, src.base, k))
      else InExt(AddBaseTerm(t, acc.ext, src.base, k))
    else
      var wide := if acc.InBase? then Scatter(t, acc.base) else acc.ext;
      InExt(NextTerm(t.ext, wide, src.ext, k))
  }

  function FirstCell<F(!new), E(!new)>(t: Tower<F, E>, kind: Kind, src: Cell<F, E>, k: int): (c: Cell<F, E>)
    requires t.Lawful()
    ensures Rows(t, c) == VAct(t.ext, kind, Rows(t, src), k)
    ensures c.InBase? == (src.InBase? || (kind.Sum? && k == 0))
  {
    if kind.Prod? then FirstFactorCell(t, src, k) else FirstTermCell(t, src, k)
  }

  function NextCell<F(!new), E(!new)>(t: Tower<F, E>, kind: Kind, acc: Cell<F, E>, src: Cell<F, E>,
                                      k: int): (c: Cell<F, E>)
    requires t.Lawful() && acc.Len() == src.Len()
    ensures Rows(t, c) == VJoin(t.ext, kind, Rows(t, acc), VAct(t.ext, kind, Rows(t, src), k))
    ensures c.InBase? == (acc.InBase? && (src.InBase? || (kind.Sum? && k == 0)))
  {
    if kind.Prod? then NextFactorCell(t, acc, src, k) else NextTermCell(t, acc, src, k)
  }

  // ----- polynomial evaluation -----

  /** Accumulator times the point, in the four combinations of representations. */
  function ScaleCell<F(!new), E(!new)>(t: Tower<F, E>, acc: Cell<F, E>, x: Cell<F, E>): (c: Cell<F, E>)
    requires t.Lawful() && 1 <= x.Len()
    ensures Rows(t, c) == VScale(t.ext, Rows(t, acc), Rows(t, x)[0])
    ensures c.InBase? == (acc.InBase? && x.InBase?)
  {
    if acc.InBase? then
      if x.InBase? then
        LiftScale(t, acc.base, x.base[0]);
        InBase(VScale(t.base, acc.base, x.base[0]))
      else
        LiftPoint(t, x.ext[0], acc.base);
        InExt(MulByElement(t, VFill(x.ext[0], |acc.base|), acc.base))
    else if x.InBase? then
      assert MulByElement(t, acc.ext, VFill(x.base[0], |acc.ext|)) == VScale(t.ext, acc.ext, t.Lift(x.base[0]));
      InExt(MulByElement(t, acc.ext, VFill(x.base[0], |acc.ext|)))
    else InExt(VScale(t.ext, acc.ext, x.ext[0]))
  }

  lemma LiftScale<F(!new), E(!new)>(t: Tower<F, E>, a: seq<F>, x: F)
    requires t.Lawful()
    ensures t.LiftAll(VScale(t.base, a, x)) == VScale(t.ext, t.LiftAll(a), t.Lift(x))
  {
    forall i | 0 <= i < |a| ensures t.Lift(t.base.Mul(a[i], x)) == t.ext.Mul(t.Lift(a[i]), t.Lift(x)) {
      assert t.LiftAt(a[i], x);
    }
  }

  lemma LiftPoint<F(!new), E(!new)>(t: Tower<F, E>, x: E, b: seq<F>)
    requires t.Lawful()
    ensures MulByElement(t, VFill(x, |b|), b) == VScale(t.ext, t.LiftAll(b), x)
  {
    forall i | 0 <= i < |b| ensures t.ext.Mul(x, t.Lift(b[i])) == t.ext.Mul(t.Lift(b[i]), x) {
      assert t.ext.At2(x, t.Lift(b[i]));
    }
  }

  /** Accumulator plus a coefficient. */
  function AddCell<F(!new), E(!new)>(t: Tower<F, E>, acc: Cell<F, E>, src: Cell<F, E>): (c: Cell<F, E>)
    requires t.Lawful() && acc.Len() == src.Len()
    ensures Rows(t, c) == VAdd(t.ext, Rows(t, acc), Rows(t, src))
    ensures c.InBase? == (acc.InBase? && src.InBase?)
  {
    if src.InBase? then
      if acc.InBase? then
        LiftAdd(t, acc.base, src.base);
        InBase(VAdd(t.base, acc.base, src.base))
      else
        assert AddBase(t, acc.ext, src.base) == VAdd(t.ext, acc.ext, t.LiftAll(src.base));
        InExt(AddBase(t, acc.ext, src.base))
    else
      var wide := if acc.InBase? then Scatter(t, acc.base) else acc.ext;
      InExt(VAdd(t.ext, wide, src.ext))
  }

  lemma LiftAdd<F(!new), E(!new)>(t: Tower<F, E>, a: seq<F>, b: seq<F>)
    requires t.Lawful() && |a| == |b|
    ensures t.LiftAll(VAdd(t.base, a, b)) == VAdd(t.ext, t.LiftAll(a), t.LiftAll(b))
  {
    forall i | 0 <= i < |a| ensures t.Lift(t.base.Add(a[i], b[i])) == t.ext.Add(t.Lift(a[i]), t.Lift(b[i])) {
      assert t.LiftAt(a[i], b[i]);
    }
  }

  // ----- the two-operand fast paths -----

  lemma FastProduct<F(!new), E(!new)>(t: Tower<F, E>, a: seq<F>, b: seq<F>)
    requires t.Lawful() && |a| == |b|
    ensures t.LiftAll(VMul(t.base, a, b))
            == VJoin(t.ext, Prod, VAct(t.ext, Prod, t.LiftAll(a), 1), VAct(t.ext, Prod, t.LiftAll(b), 1))
  {
    forall i | 0 <= i < |a|
      ensures t.Lift(t.base.Mul(a[i], b[i]))
              == t.ext.Mul(Act(t.ext, Prod, t.Lift(a[i]), 1), Act(t.ext, Prod, t.Lift(b[i]), 1))
    {
      assert t.LiftAt(a[i], b[i]);
      ActOne(t.ext, Prod, t.Lift(a[i]));
      ActOne(t.ext, Prod, t.Lift(b[i]));
    }
  }

  lemma FastSum<F(!new), E(!new)>(t: Tower<F, E>, a: seq<F>, b: seq<F>)
    requires t.Lawful() && |a| == |b|
    ensures t.LiftAll(VAdd(t.base, a, b))
            == VJoin(t.ext, Sum, VAct(t.ext, Sum, t.LiftAll(a), 1), VAct(t.ext, Sum, t.LiftAll(b), 1))
    ensures t.LiftAll(VSub(t.base, a, b))
            == VJoin(t.ext, Sum, VAct(t.ext, Sum, t.LiftAll(a), 1), VAct(t.ext, Sum, t.LiftAll(b), -1))
  {
    forall i | 0 <= i < |a|
      ensures t.Lift(t.base.Add(a[i], b[i]))
              == t.ext.Add(Act(t.ext, Sum, t.Lift(a[i]), 1), Act(t.ext, Sum, t.Lift(b[i]), 1))
           && t.Lift(t.base.Sub(a[i], b[i]))
             == t.ext.Add(Act(t.ext, Sum, t.Lift(a[i]), 1), Act(t.ext, Sum, t.Lift(b[i]), -1))
    {
      assert t.LiftAt(a[i], b[i]) && t.ext.At2(t.Lift(a[i]), t.Lift(b[i]));
      ActOne(t.ext, Sum, t.Lift(a[i]));
      ActOne(t.ext, Sum, t.Lift(b[i]));
    }
  }
}
