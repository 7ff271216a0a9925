/** The input vectors of an evaluation. */
module SmartVectors {
  import opened Algebra
  import opened Vectors

  /** The vector classes the machines distinguish: full or constant, base or extension. */
  datatype SmartVector<F, E> =
    | Regular(base: seq<F>)
    | Constant(value: F, size: nat)
    | RegularExt(ext: seq<E>)
    | ConstantExt(extValue: E, size: nat)
  {
    function Len(): nat {
      match this
      case Regular(v) => |v|
      case Constant(_, n) => n
      case RegularExt(v) => |v|
      case ConstantExt(_, n) => n
    }

    predicate IsBase() { Regular? || Constant? }

    predicate IsConstant() { Constant? || ConstantExt? }

    /** A chunk of a base vector. */
    function BaseChunk(start: nat, stop: nat): (c: seq<F>)
      requires IsBase() && start <= stop <= Len()
      ensures |c| == stop - start
    {
      if Regular? then base[start..stop] else VFill(value, stop - start)
    }
  }

  /** The rows of a vector as extension elements. */
  ghost function ExtChunk<F(!new), E(!new)>(t: Tower<F, E>, v: SmartVector<F, E>, start: nat, stop: nat): (c: seq<E>)
    requires start <= stop <= v.Len()
    ensures |c| == stop - start
  {
    match v
    case RegularExt(ext) => ext[start..stop]
    case ConstantExt(x, _) => VFill(x, stop - start)
    case _ => t.LiftAll(v.BaseChunk(start, stop))
  }

  ghost function RowAt<F(!new), E(!new)>(t: Tower<F, E>, v: SmartVector<F, E>, row: nat): E
    requires row < v.Len()
  {
    match v
    case Regular(base) => t.Lift(base[row])
    case Constant(x, _) => t.Lift(x)
    case RegularExt(ext) => ext[row]
    case ConstantExt(x, _) => x
  }

  lemma ExtChunkRow<F(!new), E(!new)>(t: Tower<F, E>, v: SmartVector<F, E>, start: nat, stop: nat, i: nat)
    requires start <= stop <= v.Len() && i < stop - start
    ensures ExtChunk(t, v, start, stop)[i] == RowAt(t, v, start + i)
  {
  }
}
