/** Vector kernels of the virtual machines and the combinations they compute, row by row. */
module Vectors {
  import opened Algebra

  function VAdd<T(!new)>(r: Ring<T>, a: seq<T>, b: seq<T>): (c: seq<T>)
    requires |a| == |b|
    ensures |c| == |a| && forall t :: 0 <= t < |a| ==> c[t] == r.Add(a[t], b[t])
  {
    seq(|a|, t requires 0 <= t < |a| => r.Add(a[t], b[t]))
  }

  function VSub<T(!new)>(r: Ring<T>, a: seq<T>, b: seq<T>): (c: seq<T>)
    requires |a| == |b|
    ensures |c| == |a| && forall t :: 0 <= t < |a| ==> c[t] == r.Sub(a[t], b[t])
  {
    seq(|a|, t requires 0 <= t < |a| => r.Sub(a[t], b[t]))
  }

  function VMul<T(!new)>(r: Ring<T>, a: seq<T>, b: seq<T>): (c: seq<T>)
    requires |a| == |b|
    ensures |c| == |a| && forall t :: 0 <= t < |a| ==> c[t] == r.Mul(a[t], b[t])
  {
    seq(|a|, t requires 0 <= t < |a| => r.Mul(a[t], b[t]))
  }

  function VScale<T(!new)>(r: Ring<T>, a: seq<T>, x: T): (c: seq<T>)
    ensures |c| == |a| && forall t :: 0 <= t < |a| ==> c[t] == r.Mul(a[t], x)
  {
    seq(|a|, t requires 0 <= t < |a| => r.Mul(a[t], x))
  }

  function VExp<T(!new)>(r: Ring<T>, a: seq<T>, n: int): (c: seq<T>)
    ensures |c| == |a| && forall t :: 0 <= t < |a| ==> c[t] == r.Pow(a[t], n)
  {
    seq(|a|, t requires 0 <= t < |a| => r.Pow(a[t], n))
  }

  function VFill<T>(v: T, len: nat): (c: seq<T>)
    ensures |c| == len && forall t :: 0 <= t < len ==> c[t] == v
  {
    seq(len, _ => v)
  }

  // ----- specification: folds and polynomials over columns -----

  predicate SameLength<T>(vecs: seq<seq<T>>, len: nat) {
    forall k :: 0 <= k < |vecs| ==> |vecs[k]| == len
  }

  ghost function AtRow<T>(vecs: seq<seq<T>>, t: nat): (c: seq<T>)
    requires forall k :: 0 <= k < |vecs| ==> t < |vecs[k]|
    ensures |c| == |vecs|
  {
    seq(|vecs|, k requires 0 <= k < |vecs| => vecs[k][t])
  }

  ghost function VAct<T(!new)>(r: Ring<T>, kind: Kind, v: seq<T>, k: int): (c: seq<T>)
    ensures |c| == |v| && forall t :: 0 <= t < |v| ==> c[t] == Act(r, kind, v[t], k)
  {
    seq(|v|, t requires 0 <= t < |v| => Act(r, kind, v[t], k))
  }

  ghost function VJoin<T(!new)>(r: Ring<T>, kind: Kind, a: seq<T>, b: seq<T>): (c: seq<T>)
    requires |a| == |b|
    ensures |c| == |a| && forall t :: 0 <= t < |a| ==> c[t] == Join(r, kind, a[t], b[t])
  {
    seq(|a|, t requires 0 <= t < |a| => Join(r, kind, a[t], b[t]))
  }

  ghost function VFold<T(!new)>(r: Ring<T>, kind: Kind, ks: seq<int>, vecs: seq<seq<T>>, len: nat): (c: seq<T>)
    requires |ks| == |vecs| && SameLength(vecs, len)
    ensures |c| == len && forall t :: 0 <= t < len ==> c[t] == Fold(r, kind, ks, AtRow(vecs, t))
  {
    seq(len, t requires 0 <= t < len => Fold(r, kind, ks, AtRow(vecs, t)))
  }

  ghost function VHorner<T(!new)>(r: Ring<T>, x: T, vecs: seq<seq<T>>, len: nat): (c: seq<T>)
    requires SameLength(vecs, len)
    ensures |c| == len && forall t :: 0 <= t < len ==> c[t] == r.Horner(x, AtRow(vecs, t))
  {
    seq(len, t requires 0 <= t < len => r.Horner(x, AtRow(vecs, t)))
  }

  ghost function VPowerSum<T(!new)>(r: Ring<T>, x: T, vecs: seq<seq<T>>, n: nat, len: nat): (c: seq<T>)
    requires SameLength(vecs, len) && n <= |vecs|
    ensures |c| == len && forall t :: 0 <= t < len ==> c[t] == r.PowerSum(x, AtRow(vecs, t), n)
  {
    seq(len, t requires 0 <= t < len => r.PowerSum(x, AtRow(vecs, t), n))
  }

  lemma VFoldFirst<T(!new)>(r: Ring<T>, kind: Kind, k: int, v: seq<T>)
    requires r.Lawful()
    ensures VFold(r, kind, [k], [v], |v|) == VAct(r, kind, v, k)
  {
    forall t | 0 <= t < |v| ensures VFold(r, kind, [k], [v], |v|)[t] == Act(r, kind, v[t], k) {
      assert AtRow([v], t) == [] + [v[t]] && [k] == [] + [k];
      FoldSnoc(r, kind, [], [], k, v[t]);
      JoinUnit(r, kind, Act(r, kind, v[t], k));
    }
  }

  lemma VFoldNext<T(!new)>(r: Ring<T>, kind: Kind, ks: seq<int>, vecs: seq<seq<T>>, len: nat, k: int, v: seq<T>)
    requires |ks| == |vecs| && SameLength(vecs, len) && |v| == len
    ensures SameLength(vecs + [v], len)
    ensures VFold(r, kind, ks + [k], vecs + [v], len)
            == VJoin(r, kind, VFold(r, kind, ks, vecs, len), VAct(r, kind, v, k))
  {
    forall t | 0 <= t < len
      ensures VFold(r, kind, ks + [k], vecs + [v], len)[t]
              == Join(r, kind, Fold(r, kind, ks, AtRow(vecs, t)), Act(r, kind, v[t], k))
    {
      assert AtRow(vecs + [v], t) == AtRow(vecs, t) + [v[t]];
      FoldSnoc(r, kind, ks, AtRow(vecs, t), k, v[t]);
    }
  }

  lemma VHornerOne<T(!new)>(r: Ring<T>, x: T, v: seq<T>)
    requires r.Lawful()
    ensures VHorner(r, x, [v], |v|) == v
  {
    forall t | 0 <= t < |v| ensures VHorner(r, x, [v], |v|)[t] == v[t] {
      assert AtRow([v], t) == [v[t]] && [v[t]][1..] == [];
      assert r.Horner(x, []) == r.zero;
      MulZero(r, x);
      assert r.At1(v[t]);
    }
  }

  lemma VHornerStep<T(!new)>(r: Ring<T>, x: T, v: seq<T>, vecs: seq<seq<T>>, len: nat)
    requires SameLength(vecs, len) && |v| == len
    ensures SameLength([v] + vecs, len)
    ensures VHorner(r, x, [v] + vecs, len) == VAdd(r, VScale(r, VHorner(r, x, vecs, len), x), v)
  {
    forall t | 0 <= t < len
      ensures VHorner(r, x, [v] + vecs, len)[t] == r.Add(r.Mul(r.Horner(x, AtRow(vecs, t)), x), v[t])
    {
      assert AtRow([v] + vecs, t) == [v[t]] + AtRow(vecs, t);
      assert ([v[t]] + AtRow(vecs, t))[1..] == AtRow(vecs, t);
    }
  }

  lemma VPowerSumIsHorner<T(!new)>(r: Ring<T>, x: T, vecs: seq<seq<T>>, len: nat)
    requires r.Lawful() && SameLength(vecs, len)
    ensures VPowerSum(r, x, vecs, |vecs|, len) == VHorner(r, x, vecs, len)
  {
    forall t | 0 <= t < len ensures VPowerSum(r, x, vecs, |vecs|, len)[t] == VHorner(r, x, vecs, len)[t] {
      PowerSumIsHorner(r, x, AtRow(vecs, t), |vecs|);
      assert AtRow(vecs, t)[..|vecs|] == AtRow(vecs, t);
    }
  }

  // ----- the coefficient cases of the machines -----

  /** First factor: a copy for exponent one, otherwise the power. */
  function FirstFactor<T(!new)>(r: Ring<T>, v: seq<T>, k: int): (c: seq<T>)
    requires r.Lawful()
    ensures c == VAct(r, Prod, v, k)
  {
    if k == 1 then
      assert v == VAct(r, Prod, v, k) by {
        forall t | 0 <= t < |v| ensures v[t] == VAct(r, Prod, v, k)[t] { PowOne(r, v[t]); }
      }
      v
    else VExp(r, v, k)
  }

  lemma ScaleIsAct<T(!new)>(r: Ring<T>, v: seq<T>, k: int)
    requires r.Lawful()
    ensures VScale(r, v, r.OfInt(k)) == VAct(r, Sum, v, k)
  {
    forall t | 0 <= t < |v| ensures r.Mul(v[t], r.OfInt(k)) == r.Mul(r.OfInt(k), v[t]) {
      assert r.At2(v[t], r.OfInt(k));
    }
  }

  lemma ActTwo<T(!new)>(r: Ring<T>, x: T)
    requires r.Lawful()
    ensures Act(r, Sum, x, 2) == r.Add(x, x)
  {
    ActSum(r, Sum, x, 1, 1);
    ActOne(r, Sum, x);
  }

  /** First term of a linear combination, by cases on its coefficient. */
  function FirstTerm<T(!new)>(r: Ring<T>, v: seq<T>, k: int): (c: seq<T>)
    requires r.Lawful()
    ensures c == VAct(r, Sum, v, k)
  {
    FirstTermCases(r, v);
    ScaleIsAct(r, v, k);
    if k == 0 then VFill(r.zero, |v|)
    else if k == 1 then v
    else if k == 2 then VAdd(r, v, v)
    else if k == -1 then VSub(r, VFill(r.zero, |v|), v)
    else VScale(r, v, r.OfInt(k))
  }

  lemma FirstTermCases<T(!new)>(r: Ring<T>, v: seq<T>)
    requires r.Lawful()
    ensures VFill(r.zero, |v|) == VAct(r, Sum, v, 0)
    ensures v == VAct(r, Sum, v, 1)
    ensures VAdd(r, v, v) == VAct(r, Sum, v, 2)
    ensures VSub(r, VFill(r.zero, |v|), v) == VAct(r, Sum, v, -1)
  {
    forall t | 0 <= t < |v|
      ensures Act(r, Sum, v[t], 0) == r.zero && Act(r, Sum, v[t], 1) == v[t]
              && Act(r, Sum, v[t], 2) == r.Add(v[t], v[t])
           && Act(r, Sum, v[t], -1) == r.Sub(r.zero, v[t])
    {
      ActZero(r, Sum, v[t]);
      ActOne(r, Sum, v[t]);
      ActTwo(r, v[t]);
      assert r.At2(r.zero, v[t]) && r.At1(r.Mul(r.OfInt(-1), v[t]));
    }
  }

  /** Adding a further term, by cases on its coefficient. */
  function NextTerm<T(!new)>(r: Ring<T>, acc: seq<T>, v: seq<T>, k: int): (c: seq<T>)
    requires r.Lawful() && |acc| == |v|
    ensures c == VJoin(r, Sum, acc, VAct(r, Sum, v, k))
  {
    NextTermCases(r, acc, v);
    ScaleIsAct(r, v, k);
    if k == 0 then acc
    else if k == 1 then VAdd(r, acc, v)
    else if k == 2 then VAdd(r, VAdd(r, acc, v), v)
    else if k == -1 then VSub(r, acc, v)
    else VAdd(r, acc, VScale(r, v, r.OfInt(k)))
  }

  lemma NextTermCases<T(!new)>(r: Ring<T>, acc: seq<T>, v: seq<T>)
    requires r.Lawful() && |acc| == |v|
    ensures acc == VJoin(r, Sum, acc, VAct(r, Sum, v, 0))
    ensures VAdd(r, acc, v) == VJoin(r, Sum, acc, VAct(r, Sum, v, 1))
    ensures VAdd(r, VAdd(r, acc, v), v) == VJoin(r, Sum, acc, VAct(r, Sum, v, 2))
    ensures VSub(r, acc, v) == VJoin(r, Sum, acc, VAct(r, Sum, v, -1))
  {
    forall t | 0 <= t < |v|
      ensures && r.Add(acc[t], Act(r, Sum, v[t], 0)) == acc[t]
              && r.Add(acc[t], Act(r, Sum, v[t], 1)) == r.Add(acc[t], v[t])
              && r.Add(acc[t], Act(r, Sum, v[t], 2)) == r.Add(r.Add(acc[t], v[t]), v[t])
              && r.Add(acc[t], Act(r, Sum, v[t], -1)) == r.Sub(acc[t], v[t])
    {
      ActZero(r, Sum, v[t]);
      ActOne(r, Sum, v[t]);
      ActTwo(r, v[t]);
      JoinUnit(r, Sum, acc[t]);
      assert r.At3(acc[t], v[t], v[t]) && r.At2(acc[t], v[t]);
    }
  }

  /** Multiplying by a further factor. */
  function NextFactor<T(!new)>(r: Ring<T>, acc: seq<T>, v: seq<T>, k: int): (c: seq<T>)
    requires r.Lawful() && |acc| == |v|
    ensures c == VJoin(r, Prod, acc, VAct(r, Prod, v, k))
  {
    VMul(r, acc, FirstFactor(r, v, k))
  }
}
