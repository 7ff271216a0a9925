/** The virtual machine over the extension field: two memories and a tag per slot. */
module ExtMachine {
  import opened Algebra
  import opened Expressions
  import opened Boards
  import opened Allocation
  import opened Compiler
  import opened Vectors
  import opened Machine
  import opened SmartVectors
  import opened MixedKernels
  import opened Wrappers

  /** A snapshot of the two memories and the tags. */
  datatype Mem<F(!new), E(!new)> = Mem(ext: seq<seq<E>>, base: seq<seq<F>>, tags: seq<bool>)
  {
    ghost predicate Shaped(n: nat) { |ext| == |base| == |tags| == n }

    ghost function At(s: nat): Cell<F, E>
      requires s < |ext| == |base| == |tags|
    {
      if tags[s] then InBase(base[s]) else InExt(ext[s])
    }

    /** What every slot denotes. */
    ghost function View(t: Tower<F, E>): (v: seq<seq<E>>)
      requires |ext| == |base| == |tags|
      ensures |v| == |ext|
    {
      seq(|ext|, s requires 0 <= s < |ext| => Rows(t, At(s)))
    }

    /** Only the slot dst may differ. */
    ghost predicate Only(after: Mem<F, E>, dst: nat) {
      && dst < |ext| == |base| == |tags|
      && after.Shaped(|ext|)
      && after.ext == ext[dst := after.ext[dst]]
      && after.base == base[dst := after.base[dst]]
      && after.tags == tags[dst := after.tags[dst]]
    }
  }

  lemma ViewUpdate<F(!new), E(!new)>(t: Tower<F, E>, m: Mem<F, E>, m': Mem<F, E>, dst: nat)
    requires m.Only(m', dst)
    ensures m'.View(t) == m.View(t)[dst := Rows(t, m'.At(dst))]
  {
    forall s | 0 <= s < |m.ext| && s != dst ensures m'.At(s) == m.At(s) { }
  }

  // ----- the static tag of a result -----

  ghost function TagsAt(tags: seq<bool>, srcs: seq<int>): (ts: seq<bool>)
    requires InRange(srcs, |tags|)
    ensures |ts| == |srcs|
  {
    seq(|srcs|, k requires 0 <= k < |srcs| => tags[srcs[k]])
  }

  /** A combination stays in the base field when every operand does; an extension operand
      with coefficient zero does not count. */
  ghost predicate TagFold(kind: Kind, ks: seq<int>, tags: seq<bool>)
    requires |ks| == |tags|
  {
    forall k :: 0 <= k < |ks| ==> tags[k] || (kind.Sum? && ks[k] == 0)
  }

  /** With a single coefficient the evaluation point is not used. */
  ghost predicate TagPoly(tags: seq<bool>)
    requires 2 <= |tags|
  {
    tags[1] && (2 < |tags| ==> forall k :: 0 <= k < |tags| ==> tags[k])
  }

  /** The tag of node j, from the operators and the classes of the inputs alone: it does not
      depend on the rows. */
  ghost predicate NodeTag<F(!new), E(!new)>(t: Tower<F, E>, nodes: seq<Node<E>>, inputTags: seq<bool>, j: nat)
    requires Sorted(nodes) && NodesWellFormed(nodes) && |inputTags| >= InputIndex(nodes, |nodes|) && j < |nodes|
    decreases j
  {
    assert Arity(nodes[j].op, |nodes[j].children|);
    IndexWithin(nodes, j, |nodes|);
    match nodes[j].op
    case Constant(v) => t.IsBase(v)
    case Variable(_) => inputTags[InputIndex(nodes, j)]
    case Nary(kind, ks) => TagFold(kind, ks, ChildTags(t, nodes, inputTags, j))
    case PolyEval => TagPoly(ChildTags(t, nodes, inputTags, j))
  }

  ghost function ChildTags<F(!new), E(!new)>(t: Tower<F, E>, nodes: seq<Node<E>>, inputTags: seq<bool>,
                                             j: nat): (ts: seq<bool>)
    requires Sorted(nodes) && NodesWellFormed(nodes) && |inputTags| >= InputIndex(nodes, |nodes|) && j < |nodes|
    ensures |ts| == |nodes[j].children|
    decreases j, 0
  {
    var cs := nodes[j].children;
    seq(|cs|, k requires 0 <= k < |cs| => NodeTag(t, nodes, inputTags, cs[k]))
  }

  ghost predicate LiveTags<F(!new), E(!new)>(t: Tower<F, E>, job: Job<E, E>, inputTags: seq<bool>, tags: seq<bool>,
                                             k: nat)
    requires job.Valid() && |inputTags| >= InputIndex(job.nodes, |job.nodes|)
  {
    && |tags| == job.numSlots && k <= |job.nodes|
    && forall j :: 0 <= j < k && LastUse(job.nodes, j) >= k ==>
      tags[job.slots[j]] == NodeTag(t, job.nodes, inputTags, j)
  }

  lemma LiveTagsStep<F(!new), E(!new)>(t: Tower<F, E>, job: Job<E, E>, inputTags: seq<bool>, tags: seq<bool>, k: nat)
    requires job.Valid() && |inputTags| >= InputIndex(job.nodes, |job.nodes|) && k < |job.nodes|
    requires LiveTags(t, job, inputTags, tags, k)
    ensures LiveTags(t, job, inputTags, tags[job.slots[k] := NodeTag(t, job.nodes, inputTags, k)], k + 1)
  {
  }

  lemma OperandTags<F(!new), E(!new)>(t: Tower<F, E>, job: Job<E, E>, inputTags: seq<bool>, tags: seq<bool>, k: nat)
    requires job.Valid() && |inputTags| >= InputIndex(job.nodes, |job.nodes|) && k < |job.nodes|
    requires LiveTags(t, job, inputTags, tags, k)
    ensures var srcs := Operands(job.slots, job.nodes[k].children);
            InRange(srcs, |tags|) && TagsAt(tags, srcs) == ChildTags(t, job.nodes, inputTags, k)
  {
    var cs := job.nodes[k].children;
    var srcs := Operands(job.slots, cs);
    forall i | 0 <= i < |cs| ensures tags[srcs[i]] == NodeTag(t, job.nodes, inputTags, cs[i]) {
      UseIsLater(job.nodes, cs[i]);
      assert cs[i] in cs;
    }
  }

  // ----- loading constants and inputs -----

  function ConstCell<F(!new), E(!new)>(t: Tower<F, E>, v: E, len: nat): (c: Cell<F, E>)
    requires t.Lawful()
    ensures Rows(t, c) == VFill(v, len) && c.InBase? == t.IsBase(v)
  {
    assert t.BaseAt(v);
    if t.IsBase(v) then
      assert t.LiftAll(VFill(t.ToBase(v), len)) == VFill(v, len);
      InBase(VFill(t.ToBase(v), len))
    else InExt(VFill(v, len))
  }

  predicate InputTag<F(!new), E(!new)>(t: Tower<F, E>, v: SmartVector<F, E>) {
    v.IsBase() || (v.ConstantExt? && t.IsBase(v.extValue))
  }

  /** A chunk of an input vector in the memory chosen by its class. */
  function InputCell<F(!new), E(!new)>(t: Tower<F, E>, v: SmartVector<F, E>, start: nat, stop: nat): (c: Cell<F, E>)
    requires t.Lawful() && start <= stop <= v.Len()
    ensures Rows(t, c) == ExtChunk(t, v, start, stop) && c.InBase? == InputTag(t, v)
  {
    match v
    case RegularExt(ext) => InExt(ext[start..stop])
    case ConstantExt(x, _) => ConstCell(t, x, stop - start)
    case _ => InBase(v.BaseChunk(start, stop))
  }

  // ----- the machine -----

  class VmExt<F(!new), E(!new)> {
    const t: Tower<F, E>
    const bytecode: seq<int>
    const constants: seq<E>
    const chunkSize: nat
    const memory: array<seq<E>>
    const baseMemory: array<seq<F>>
    const slotIsBase: array<bool>

    ghost predicate Separate() {
      && memory.Length == baseMemory.Length == slotIsBase.Length
      && memory as object != baseMemory as object && memory as object != slotIsBase as object
      && baseMemory as object != slotIsBase as object
    }

    ghost function Now(): Mem<F, E>
      reads memory, baseMemory, slotIsBase
    {
      Mem(memory[..], baseMemory[..], slotIsBase[..])
    }

    constructor (t: Tower<F, E>, bytecode: seq<int>, constants: seq<E>, numSlots: nat, chunkSize: nat)
      ensures this.t == t && this.bytecode == bytecode && this.constants == constants && this.chunkSize == chunkSize
      ensures Separate() && memory.Length == numSlots && fresh(memory) && fresh(baseMemory) && fresh(slotIsBase)
    {
      this.t, this.bytecode, this.constants, this.chunkSize := t, bytecode, constants, chunkSize;
      memory := new seq<E>[numSlots](_ => VFill(t.ext.zero, chunkSize));
      baseMemory := new seq<F>[numSlots](_ => VFill(t.base.zero, chunkSize));
      slotIsBase := new bool[numSlots](_ => false);
    }

    /** Reads a slot in the representation given by the flag. */
    function Cell(s: nat, inBase: bool): Cell<F, E>
      requires Separate() && s < memory.Length
      reads memory, baseMemory
    {
      if inBase then InBase(baseMemory[s]) else InExt(memory[s])
    }

    /** Writes rows into the memory of their representation; the tag is set separately. */
    method Store(dst: nat, c: Cell<F, E>)
      requires Separate() && dst < memory.Length
      modifies memory, baseMemory
      ensures Now().tags == old(Now()).tags
      ensures old(Now()).Only(Now(), dst)
      ensures Cell(dst, c.InBase?) == c
    {
      if c.InBase? { baseMemory[dst] := c.base; } else { memory[dst] := c.ext; }
    }

    method SetTag(dst: nat, isBase: bool)
      requires Separate() && dst < memory.Length
      modifies slotIsBase
      ensures Now().tags == old(Now()).tags[dst := isBase] && Now().ext == old(Now()).ext
              && Now().base == old(Now()).base
    {
      slotIsBase[dst] := isBase;
    }

    /** The operands of an instruction: in range, of chunk length, and not the destination. */
    ghost predicate Readable(srcs: seq<int>, dst: nat)
      requires Separate()
      reads memory, baseMemory, slotIsBase
    {
      && dst < memory.Length && InRange(srcs, memory.Length)
      && SameLength(Gather(Now().View(t), srcs), chunkSize)
      && forall k :: 0 <= k < |srcs| ==> srcs[k] != dst
    }

    /** opMul and opLinComb: all combinations of base and extension operands, with the
        two-operand fast paths. */
    method Combine(kind: Kind, dst: nat, pc: nat, n: nat)
      requires t.Lawful() && Separate() && pc + 2 * n <= |bytecode| && 1 <= n
      requires Readable(PairSlots(bytecode, pc, n), dst)
      modifies memory, baseMemory, slotIsBase
      ensures var m, srcs, ks := old(Now()), PairSlots(bytecode, pc, n), PairArgs(bytecode, pc, n);
              Wrote(m, dst, VFold(t.ext, kind, ks, Gather(m.View(t), srcs), chunkSize),
                    TagFold(kind, ks, TagsAt(m.tags, srcs)))
    {
      ghost var m := Now();
      if n == 2 {
        var fast := FastPath(kind, dst, pc);
        if fast { return; }
      }
      var resIsBase := Accumulate(kind, dst, pc, n);
      SetTag(dst, resIsBase);
      ViewUpdate(t, m, Now(), dst);
    }

    /** base*base with exponents one; base+base and base-base with simple coefficients. */
    method FastPath(kind: Kind, dst: nat, pc: nat) returns (done: bool)
      requires t.Lawful() && Separate() && pc + 4 <= |bytecode|
      requires Readable(PairSlots(bytecode, pc, 2), dst)
      modifies memory, baseMemory, slotIsBase
      ensures !done ==> Now() == old(Now())
      ensures done ==>
              var m, srcs, ks := old(Now()), PairSlots(bytecode, pc, 2), PairArgs(bytecode, pc, 2);
              Wrote(m, dst, VFold(t.ext, kind, ks, Gather(m.View(t), srcs), chunkSize),
                    TagFold(kind, ks, TagsAt(m.tags, srcs)))
    {
      var s0, k0, s1, k1 := bytecode[pc], bytecode[pc + 1], bytecode[pc + 2], bytecode[pc + 3];
      ghost var srcs, ks := PairSlots(bytecode, pc, 2), PairArgs(bytecode, pc, 2);
      assert srcs[0] == s0 && srcs[1] == s1 && ks[0] == k0 && ks[1] == k1;
      assert srcs == [s0, s1] && ks == [k0, k1];
      if !(slotIsBase[s0] && slotIsBase[s1]) { return false; }
      FastOperands(t, Now(), kind, s0, s1, k0, k1, chunkSize);
      var res := FastResult(t, kind, k0, k1, baseMemory[s0], baseMemory[s1]);
      if res.None? { return false; }
      Load(dst, InBase(res.value));
      return true;
    }

    /** The general loop; the tag of the destination is left to the caller. */
    method Accumulate(kind: Kind, dst: nat, pc: nat, n: nat) returns (resIsBase: bool)
      requires t.Lawful() && Separate() && pc + 2 * n <= |bytecode| && 1 <= n
      requires Readable(PairSlots(bytecode, pc, n), dst)
      modifies memory, baseMemory
      ensures var m, srcs, ks := old(Now()), PairSlots(bytecode, pc, n), PairArgs(bytecode, pc, n);
              && m.Only(Now(), dst) && Now().tags == m.tags
              && Rows(t, Cell(dst, resIsBase)) == VFold(t.ext, kind, ks, Gather(m.View(t), srcs), chunkSize)
              && resIsBase == TagFold(kind, ks, TagsAt(m.tags, srcs))
    {
      ghost var m, srcs, ks := Now(), PairSlots(bytecode, pc, n), PairArgs(bytecode, pc, n);
      ghost var vecs, tags := Gather(m.View(t), srcs), TagsAt(m.tags, srcs);
      resIsBase := false;
      for k := 0 to n
        invariant m.Only(Now(), dst) && Now().tags == m.tags
        invariant k > 0 ==> Partial(t, kind, Cell(dst, resIsBase), resIsBase, ks, vecs, tags, k, chunkSize)
      {
        assert srcs[k] == bytecode[pc + 2 * k] && ks[k] == bytecode[pc + 2 * k + 1];
        assert vecs[k] == m.View(t)[srcs[k]] && tags[k] == m.tags[srcs[k]];
        resIsBase := AccumulateStep(kind, dst, bytecode[pc + 2 * k], bytecode[pc + 2 * k + 1], k == 0, resIsBase,
                                    m, ks, vecs, tags, k);
      }
      assert ks[..n] == ks && vecs[..n] == vecs && tags[..n] == tags;
    }

    /** Takes in one operand. */
    method AccumulateStep(kind: Kind, dst: nat, src: nat, arg: int, first: bool, resIsBase: bool,
                          ghost m: Mem<F, E>, ghost ks: seq<int>, ghost vecs: seq<seq<E>>, ghost tags: seq<bool>,
                          ghost k: nat)
      returns (resIsBase': bool)
      requires t.Lawful() && Separate() && m.Only(Now(), dst) && Now().tags == m.tags
      requires src < memory.Length && src != dst && first == (k == 0)
      requires |ks| == |vecs| == |tags| && k < |ks| && SameLength(vecs, chunkSize)
      requires ks[k] == arg && Rows(t, m.At(src)) == vecs[k] && m.tags[src] == tags[k]
      requires k > 0 ==> Partial(t, kind, Cell(dst, resIsBase), resIsBase, ks, vecs, tags, k, chunkSize)
      modifies memory, baseMemory
      ensures m.Only(Now(), dst) && Now().tags == m.tags
      ensures Partial(t, kind, Cell(dst, resIsBase'), resIsBase', ks, vecs, tags, k + 1, chunkSize)
    {
      var operand := Cell(src, slotIsBase[src]);
      assert operand == m.At(src);
      var res;
      if first {
        res := FirstCell(t, kind, operand, arg);
        PartialFirst(t, kind, operand, ks, vecs, tags, chunkSize);
      } else {
        res := NextCell(t, kind, Cell(dst, resIsBase), operand, arg);
        PartialNext(t, kind, Cell(dst, resIsBase), operand, ks, vecs, tags, k, chunkSize);
      }
      Store(dst, res);
      resIsBase' := res.InBase?;
    }

    /** opPolyEval: the power-sum form when only the point lies in the extension, otherwise
        Horner with base tracking. */
    method PolyEval(dst: nat, srcs: seq<int>)
      requires t.Lawful() && Separate() && 2 <= |srcs| && 1 <= chunkSize && Readable(srcs, dst)
      modifies memory, baseMemory, slotIsBase
      ensures var m := old(Now());
              var vecs := Gather(m.View(t), srcs);
              && |vecs[0]| == chunkSize
              && Wrote(m, dst, VHorner(t.ext, vecs[0][0], vecs[1..], chunkSize), TagPoly(TagsAt(m.tags, srcs)))
    {
      ghost var m := Now();
      ghost var vecs, tags := Gather(m.View(t), srcs), TagsAt(m.tags, srcs);
      assert |vecs[0]| == chunkSize;
      var allCoeffsBase := !slotIsBase[srcs[0]];
      if allCoeffsBase {
        var k := 1;
        while k < |srcs|
          invariant 1 <= k <= |srcs|
          invariant allCoeffsBase && forall i :: 1 <= i < k ==> tags[i]
        {
          if !slotIsBase[srcs[k]] {
            allCoeffsBase := false;
            break;
          }
          k := k + 1;
        }
      }
      if allCoeffsBase && |srcs| > 2 {
        forall k | 1 <= k < |srcs| ensures Now().tags[srcs[k]] { assert tags[k]; }
        PowerSum(dst, srcs);
        SetTag(dst, false);
        assert !tags[0];
        VPowerSumIsHorner(t.ext, vecs[0][0], vecs[1..], chunkSize);
      } else {
        var resIsBase := Horner(dst, srcs);
        SetTag(dst, resIsBase);
      }
      ViewUpdate(t, m, Now(), dst);
    }

    /** Horner from the last coefficient, switching to the extension when it must. */
    method Horner(dst: nat, srcs: seq<int>) returns (resIsBase: bool)
      requires t.Lawful() && Separate() && 2 <= |srcs| && 1 <= chunkSize && Readable(srcs, dst)
      modifies memory, baseMemory
      ensures var m := old(Now());
              var vecs := Gather(m.View(t), srcs);
              && m.Only(Now(), dst) && Now().tags == m.tags
              && |vecs[0]| == chunkSize
              && Rows(t, Cell(dst, resIsBase)) == VHorner(t.ext, vecs[0][0], vecs[1..], chunkSize)
              && resIsBase == TagPoly(TagsAt(m.tags, srcs))
    {
      ghost var m := Now();
      ghost var vecs, tags := Gather(m.View(t), srcs), TagsAt(m.tags, srcs);
      var last := srcs[|srcs| - 1];
      resIsBase := slotIsBase[last];
      assert Cell(last, resIsBase) == m.At(last) && vecs[|srcs| - 1] == m.View(t)[last];
      HornerFirst(t, Cell(last, resIsBase), vecs, tags, chunkSize);
      Store(dst, Cell(last, resIsBase));
      resIsBase := HornerLoop(dst, srcs, resIsBase, m);
      HornerDone(t, Cell(dst, resIsBase), vecs, tags, chunkSize);
    }

    method HornerLoop(dst: nat, srcs: seq<int>, tag: bool, ghost m: Mem<F, E>) returns (resIsBase: bool)
      requires t.Lawful() && Separate() && m.Only(Now(), dst) && Now().tags == m.tags
      requires 2 <= |srcs| && 1 <= chunkSize && InRange(srcs, memory.Length)
               && SameLength(Gather(m.View(t), srcs), chunkSize)
      requires forall k :: 0 <= k < |srcs| ==> srcs[k] != dst
      requires HornerAt(t, Cell(dst, tag), Gather(m.View(t), srcs), TagsAt(m.tags, srcs), |srcs| - 1, chunkSize)
      modifies memory, baseMemory
      ensures m.Only(Now(), dst) && Now().tags == m.tags
      ensures HornerAt(t, Cell(dst, resIsBase), Gather(m.View(t), srcs), TagsAt(m.tags, srcs), 1, chunkSize)
    {
      ghost var vecs, tags := Gather(m.View(t), srcs), TagsAt(m.tags, srcs);
      resIsBase := tag;
      var k := |srcs| - 2;
      while k >= 1
        invariant 0 <= k <= |srcs| - 2
        invariant m.Only(Now(), dst) && Now().tags == m.tags
        invariant HornerAt(t, Cell(dst, resIsBase), vecs, tags, k + 1, chunkSize)
      {
        assert vecs[0] == m.View(t)[srcs[0]] && vecs[k] == m.View(t)[srcs[k]];
        resIsBase := HornerStep(dst, srcs[0], srcs[k], resIsBase, m, vecs, tags, k);
        k := k - 1;
      }
    }

    /** Multiply by the point, then add one coefficient. */
    method HornerStep(dst: nat, xSlot: nat, src: nat, resIsBase: bool, ghost m: Mem<F, E>, ghost vecs: seq<seq<E>>,
                      ghost tags: seq<bool>, ghost k: nat)
      returns (resIsBase': bool)
      requires t.Lawful() && Separate() && m.Only(Now(), dst) && Now().tags == m.tags
      requires xSlot < memory.Length && src < memory.Length && xSlot != dst && src != dst
      requires |vecs| == |tags| && 1 <= k < |vecs| - 1 && SameLength(vecs, chunkSize) && 1 <= chunkSize
      requires Rows(t, m.At(xSlot)) == vecs[0] && m.tags[xSlot] == tags[0] && Rows(t, m.At(src)) == vecs[k]
               && m.tags[src] == tags[k]
      requires HornerAt(t, Cell(dst, resIsBase), vecs, tags, k + 1, chunkSize)
      modifies memory, baseMemory
      ensures m.Only(Now(), dst) && Now().tags == m.tags
      ensures HornerAt(t, Cell(dst, resIsBase'), vecs, tags, k, chunkSize)
    {
      var x, coeff := Cell(xSlot, slotIsBase[xSlot]), Cell(src, slotIsBase[src]);
      assert x == m.At(xSlot) && coeff == m.At(src);
      HornerNext(t, Cell(dst, resIsBase), x, coeff, vecs, tags, k, chunkSize);
      var scaled := ScaleCell(t, Cell(dst, resIsBase), x);
      Store(dst, scaled);
      assert coeff == Cell(src, slotIsBase[src]);
      var res := AddCell(t, Cell(dst, scaled.InBase?), coeff);
      Store(dst, res);
      resIsBase' := res.InBase?;
    }

    /** c1 + c2*x + c3*x^2 + ... with base coefficients and an extension point. */
    method PowerSum(dst: nat, srcs: seq<int>)
      requires t.Lawful() && Separate() && 2 < |srcs| && 1 <= chunkSize && Readable(srcs, dst)
      requires !Now().tags[srcs[0]] && forall k :: 1 <= k < |srcs| ==> Now().tags[srcs[k]]
      modifies memory
      ensures var m := old(Now());
              var vecs := Gather(m.View(t), srcs);
              && m.Only(Now(), dst) && Now().tags == m.tags && Now().base == m.base
              && |vecs[0]| == chunkSize
              && Now().ext[dst] == VPowerSum(t.ext, vecs[0][0], vecs[1..], |srcs| - 1, chunkSize)
    {
      ghost var m := Now();
      ghost var vecs := Gather(m.View(t), srcs);
      assert |vecs[0]| == chunkSize && |vecs[1]| == chunkSize;
      assert vecs[0] == m.View(t)[srcs[0]] == memory[srcs[0]];
      var x := memory[srcs[0]][0];
      var powers := Powers(t.ext, x, |srcs| - 1);
      assert vecs[1] == m.View(t)[srcs[1]] == t.LiftAll(baseMemory[srcs[1]]);
      memory[dst] := Scatter(t, baseMemory[srcs[1]]);
      assert vecs[1..][0] == vecs[1];
      SumFirst(t.ext, x, vecs[1..], chunkSize);
      forall k | 0 <= k < |srcs| - 1 ensures vecs[1..][k] == Rows(t, m.At(srcs[1..][k])) && m.tags[srcs[1..][k]] {
        assert vecs[1..][k] == vecs[k + 1] == m.View(t)[srcs[k + 1]];
      }
      PowerLoop(dst, srcs[1..], x, powers, m, vecs[1..]);
    }

    method PowerLoop(dst: nat, slots: seq<int>, x: E, powers: seq<E>, ghost m: Mem<F, E>, ghost coeffs: seq<seq<E>>)
      requires t.Lawful() && Separate() && m.Only(Now(), dst) && Now().tags == m.tags && Now().base == m.base
      requires 1 <= |slots| == |coeffs| == |powers| && InRange(slots, memory.Length) && SameLength(coeffs, chunkSize)
      requires forall k :: 0 <= k < |slots| ==>
                 slots[k] != dst && m.tags[slots[k]] && coeffs[k] == Rows(t, m.At(slots[k]))
      requires forall i :: 0 <= i < |powers| ==> powers[i] == t.ext.Pow(x, i)
      requires memory[dst] == VPowerSum(t.ext, x, coeffs, 1, chunkSize)
      modifies memory
      ensures m.Only(Now(), dst) && Now().tags == m.tags && Now().base == m.base
      ensures memory[dst] == VPowerSum(t.ext, x, coeffs, |coeffs|, chunkSize)
    {
      for k := 1 to |slots|
        invariant m.Only(Now(), dst) && Now().tags == m.tags && Now().base == m.base
        invariant memory[dst] == VPowerSum(t.ext, x, coeffs, k, chunkSize)
      {
        AddPower(dst, slots[k], powers[k], m, x, coeffs, k);
      }
    }

    /** Adds one coefficient times its power. */
    method AddPower(dst: nat, src: nat, power: E, ghost m: Mem<F, E>, ghost x: E, ghost coeffs: seq<seq<E>>,
                    ghost n: nat)
      requires t.Lawful() && Separate() && m.Only(Now(), dst) && Now().tags == m.tags && Now().base == m.base
      requires SameLength(coeffs, chunkSize) && n < |coeffs| && power == t.ext.Pow(x, n)
      requires src < memory.Length && src != dst && m.tags[src] && Rows(t, m.At(src)) == coeffs[n]
      requires memory[dst] == VPowerSum(t.ext, x, coeffs, n, chunkSize)
      modifies memory
      ensures m.Only(Now(), dst) && Now().tags == m.tags && Now().base == m.base
      ensures memory[dst] == VPowerSum(t.ext, x, coeffs, n + 1, chunkSize)
    {
      assert coeffs[n] == t.LiftAll(baseMemory[src]) && |coeffs[n]| == chunkSize;
      SumNext(t.ext, x, coeffs, n, chunkSize);
      memory[dst] := MulAcc(t, memory[dst], baseMemory[src], power);
    }

    /** The job describes this machine's program on the rows start..stop of the inputs. */
    ghost predicate Runs(job: Job<E, E>, inputs: seq<SmartVector<F, E>>, inputTags: seq<bool>, start: nat, stop: nat) {
      && t.Lawful() && Separate()
      && job.Valid() && job.r == t.ext && job.nodes != []
      && bytecode == Program(job.nodes, job.slots)
      && memory.Length == job.numSlots && chunkSize == job.len && stop == start + chunkSize
      && constants == job.consts == ConstantsOf(job.nodes, |job.nodes|)
      && |inputs| == |job.chunk| == |inputTags|
      && forall i :: 0 <= i < |inputs| ==>
           && stop <= inputs[i].Len() && job.chunk[i] == ExtChunk(t, inputs[i], start, stop)
           && inputTags[i] == InputTag(t, inputs[i])
    }

    /** The slots still to be read denote the rows of their nodes and carry their tags. */
    ghost predicate Sound(job: Job<E, E>, inputs: seq<SmartVector<F, E>>, inputTags: seq<bool>, start: nat, stop: nat,
                          k: nat)
      requires Runs(job, inputs, inputTags, start, stop)
      reads memory, baseMemory, slotIsBase
    {
      job.Live(Now().View(t), k) && LiveTags(t, job, inputTags, Now().tags, k)
    }

    /** Slot dst was overwritten with these rows and this tag, nothing else changed. */
    ghost predicate Wrote(m: Mem<F, E>, dst: nat, rows: seq<E>, tag: bool)
      requires Separate() && m.Shaped(memory.Length)
      reads memory, baseMemory, slotIsBase
    {
      && dst < memory.Length
      && Now().View(t) == m.View(t)[dst := rows]
      && Now().tags == m.tags[dst := tag]
    }

    method Load(dst: nat, c: Cell<F, E>)
      requires Separate() && dst < memory.Length
      modifies memory, baseMemory, slotIsBase
      ensures Wrote(old(Now()), dst, Rows(t, c), c.InBase?)
    {
      ghost var m := Now();
      Store(dst, c);
      SetTag(dst, c.InBase?);
      ViewUpdate(t, m, Now(), dst);
    }

    /** Executes the instruction at pc and keeps the memories sound. */
    method Step(inputs: seq<SmartVector<F, E>>, start: nat, stop: nat, pc: nat, ghost job: Job<E, E>,
                ghost inputTags: seq<bool>, ghost k: nat)
      returns (pc': nat)
      requires Runs(job, inputs, inputTags, start, stop) && k < |job.nodes| && pc == Start(job.nodes, job.slots, k)
      requires Sound(job, inputs, inputTags, start, stop, k)
      modifies memory, baseMemory, slotIsBase
      ensures pc' == Start(job.nodes, job.slots, k + 1)
      ensures Sound(job, inputs, inputTags, start, stop, k + 1)
    {
      ghost var m := Now();
      pc' := StepNode(inputs, start, stop, pc, job, inputTags, k);
      LiveStep(job, m.View(t), k);
      LiveTagsStep(t, job, inputTags, m.tags, k);
    }

    /** The slot of node k receives the rows and the tag of node k. */
    method StepNode(inputs: seq<SmartVector<F, E>>, start: nat, stop: nat, pc: nat, ghost job: Job<E, E>,
                    ghost inputTags: seq<bool>, ghost k: nat)
      returns (pc': nat)
      requires Runs(job, inputs, inputTags, start, stop) && k < |job.nodes| && pc == Start(job.nodes, job.slots, k)
      requires Sound(job, inputs, inputTags, start, stop, k)
      modifies memory, baseMemory, slotIsBase
      ensures pc' == Start(job.nodes, job.slots, k + 1)
      ensures Wrote(old(Now()), job.slots[k], job.Rows(k), NodeTag(t, job.nodes, inputTags, k))
    {
      DecodeHead(job, k);
      OpcodeOf(job, k);
      var op := bytecode[pc];
      if op == OP_LOAD_CONST || op == OP_LOAD_INPUT {
        pc' := StepLeaf(inputs, start, stop, pc, job, inputTags, k);
      } else if op == OP_MUL || op == OP_LIN_COMB {
        pc' := StepNary(inputs, start, stop, pc, job, inputTags, k);
      } else {
        pc' := StepPoly(inputs, start, stop, pc, job, inputTags, k);
      }
    }

    method StepLeaf(inputs: seq<SmartVector<F, E>>, start: nat, stop: nat, pc: nat, ghost job: Job<E, E>,
                    ghost inputTags: seq<bool>, ghost k: nat)
      returns (pc': nat)
      requires Runs(job, inputs, inputTags, start, stop) && k < |job.nodes| && pc == Start(job.nodes, job.slots, k)
      requires job.nodes[k].op.Constant? || job.nodes[k].op.Variable?
      modifies memory, baseMemory, slotIsBase
      ensures pc' == Start(job.nodes, job.slots, k + 1)
      ensures Wrote(old(Now()), job.slots[k], job.Rows(k), NodeTag(t, job.nodes, inputTags, k))
    {
      DecodeLeaf(job, k);
      var op, dst, arg := bytecode[pc], bytecode[pc + 1], bytecode[pc + 2];
      if op == OP_LOAD_CONST {
        ConstRows(job, k);
        IndexWithin(job.nodes, k, |job.nodes|);
        Load(dst, ConstCell(t, constants[arg], stop - start));
      } else {
        InputRows(job, k);
        Load(dst, InputCell(t, inputs[arg], start, stop));
      }
      pc' := pc + 3;
    }

    method StepNary(inputs: seq<SmartVector<F, E>>, start: nat, stop: nat, pc: nat, ghost job: Job<E, E>,
                    ghost inputTags: seq<bool>, ghost k: nat)
      returns (pc': nat)
      requires Runs(job, inputs, inputTags, start, stop) && k < |job.nodes| && pc == Start(job.nodes, job.slots, k)
      requires Sound(job, inputs, inputTags, start, stop, k) && job.nodes[k].op.Nary?
      modifies memory, baseMemory, slotIsBase
      ensures pc' == Start(job.nodes, job.slots, k + 1)
      ensures Wrote(old(Now()), job.slots[k], job.Rows(k), NodeTag(t, job.nodes, inputTags, k))
    {
      DecodeNary(job, k);
      FoldRows(job, Now().View(t), k);
      OperandRows(job, Now().View(t), k);
      OperandTags(t, job, inputTags, Now().tags, k);
      var op, dst, n := bytecode[pc], bytecode[pc + 1], bytecode[pc + 2];
      Combine(if op == OP_MUL then Prod else Sum, dst, pc + 3, n);
      pc' := pc + 3 + 2 * n;
    }

    method StepPoly(inputs: seq<SmartVector<F, E>>, start: nat, stop: nat, pc: nat, ghost job: Job<E, E>,
                    ghost inputTags: seq<bool>, ghost k: nat)
      returns (pc': nat)
      requires Runs(job, inputs, inputTags, start, stop) && k < |job.nodes| && pc == Start(job.nodes, job.slots, k)
      requires Sound(job, inputs, inputTags, start, stop, k) && job.nodes[k].op.PolyEval?
      modifies memory, baseMemory, slotIsBase
      ensures pc' == Start(job.nodes, job.slots, k + 1)
      ensures Wrote(old(Now()), job.slots[k], job.Rows(k), NodeTag(t, job.nodes, inputTags, k))
    {
      DecodePoly(job, k);
      var dst, n := bytecode[pc + 1], bytecode[pc + 2];
      PolyNode(dst, bytecode[pc + 3..pc + 3 + n], job, inputTags, k);
      pc' := pc + 3 + n;
    }

    /** The operands of a PolyEval node become its rows. */
    method PolyNode(dst: nat, srcs: seq<int>, ghost job: Job<E, E>, ghost inputTags: seq<bool>, ghost k: nat)
      requires t.Lawful() && Separate() && memory.Length == job.numSlots && chunkSize == job.len
      requires job.Valid() && job.r == t.ext && k < |job.nodes| && job.nodes[k].op.PolyEval?
      requires |inputTags| >= InputIndex(job.nodes, |job.nodes|)
      requires job.Live(Now().View(t), k) && LiveTags(t, job, inputTags, Now().tags, k)
      requires dst == job.slots[k] && srcs == Operands(job.slots, job.nodes[k].children)
      modifies memory, baseMemory, slotIsBase
      ensures Wrote(old(Now()), dst, job.Rows(k), NodeTag(t, job.nodes, inputTags, k))
    {
      PolyOperands(t, job, inputTags, Now(), k);
      PolyEval(dst, srcs);
    }

    /** Runs the whole program on one chunk: the result slot denotes the rows of the last
        node, in the memory given by its static tag. */
    method Execute(inputs: seq<SmartVector<F, E>>, start: nat, stop: nat, ghost job: Job<E, E>,
                   ghost inputTags: seq<bool>)
      requires Runs(job, inputs, inputTags, start, stop)
      modifies memory, baseMemory, slotIsBase
      ensures var last := |job.nodes| - 1;
              var slot := job.slots[last];
              && slotIsBase[slot] == NodeTag(t, job.nodes, inputTags, last)
              && Rows(t, Cell(slot, slotIsBase[slot])) == job.Rows(last)
    {
      RunProgram(inputs, start, stop, job, inputTags);
      SoundEnd(t, job, inputTags, Now());
    }

    method RunProgram(inputs: seq<SmartVector<F, E>>, start: nat, stop: nat, ghost job: Job<E, E>,
                      ghost inputTags: seq<bool>)
      requires Runs(job, inputs, inputTags, start, stop)
      modifies memory, baseMemory, slotIsBase
      ensures Sound(job, inputs, inputTags, start, stop, |job.nodes|)
    {
      var pc := 0;
      ghost var k := 0;
      ProgramEnds(job.nodes, job.slots, 0);
      while pc < |bytecode|
        invariant k <= |job.nodes| && pc == Start(job.nodes, job.slots, k)
        invariant pc < |bytecode| <==> k < |job.nodes|
        invariant Sound(job, inputs, inputTags, start, stop, k)
        decreases |job.nodes| - k
      {
        ProgramEnds(job.nodes, job.slots, k + 1);
        pc := Step(inputs, start, stop, pc, job, inputTags, k);
        k := k + 1;
      }
    }
  }

  /** What opPolyEval finds: the operands of a PolyEval node, and what it has to produce. */
  lemma PolyOperands<F(!new), E(!new)>(t: Tower<F, E>, job: Job<E, E>, inputTags: seq<bool>, m: Mem<F, E>, k: nat)
    requires job.Valid() && k < |job.nodes| && job.nodes[k].op.PolyEval?
    requires |inputTags| >= InputIndex(job.nodes, |job.nodes|) && m.Shaped(job.numSlots)
    requires job.Live(m.View(t), k) && LiveTags(t, job, inputTags, m.tags, k)
    ensures var srcs := Operands(job.slots, job.nodes[k].children);
            && 2 <= |srcs| && InRange(srcs, |m.ext|) && SameLength(Gather(m.View(t), srcs), job.len)
            && (forall i :: 0 <= i < |srcs| ==> srcs[i] != job.slots[k])
            && |Gather(m.View(t), srcs)[0]| == job.len
            && VHorner(job.r, Gather(m.View(t), srcs)[0][0], Gather(m.View(t), srcs)[1..], job.len) == job.Rows(k)
            && TagPoly(TagsAt(m.tags, srcs)) == NodeTag(t, job.nodes, inputTags, k)
  {
    PolyRows(job, m.View(t), k);
    OperandRows(job, m.View(t), k);
    OperandTags(t, job, inputTags, m.tags, k);
  }

  lemma SoundEnd<F(!new), E(!new)>(t: Tower<F, E>, job: Job<E, E>, inputTags: seq<bool>, m: Mem<F, E>)
    requires job.Valid() && job.nodes != [] && |inputTags| >= InputIndex(job.nodes, |job.nodes|)
             && m.Shaped(job.numSlots)
    requires job.Live(m.View(t), |job.nodes|) && LiveTags(t, job, inputTags, m.tags, |job.nodes|)
    ensures var last := |job.nodes| - 1;
            var slot := job.slots[last];
            m.tags[slot] == NodeTag(t, job.nodes, inputTags, last) && Rows(t, m.At(slot)) == job.Rows(last)
  {
    LiveEnd(job, m.View(t));
    UseIsLater(job.nodes, |job.nodes| - 1);
  }

  /** The accumulator after k operands, with its tag. */
  ghost predicate Partial<F(!new), E(!new)>(t: Tower<F, E>, kind: Kind, acc: Cell<F, E>, resIsBase: bool, ks: seq<int>,
                                            vecs: seq<seq<E>>, tags: seq<bool>, k: nat, len: nat)
    requires |ks| == |vecs| == |tags| && k <= |ks| && SameLength(vecs, len)
  {
    && acc.InBase? == resIsBase == TagFold(kind, ks[..k], tags[..k])
    && Rows(t, acc) == VFold(t.ext, kind, ks[..k], vecs[..k], len)
  }

  lemma PartialFirst<F(!new), E(!new)>(t: Tower<F, E>, kind: Kind, src: Cell<F, E>, ks: seq<int>,
                                       vecs: seq<seq<E>>, tags: seq<bool>, len: nat)
    requires t.Lawful() && |ks| == |vecs| == |tags| && 0 < |ks| && SameLength(vecs, len)
    requires Rows(t, src) == vecs[0] && src.InBase? == tags[0]
    ensures var c := FirstCell(t, kind, src, ks[0]);
            Partial(t, kind, c, c.InBase?, ks, vecs, tags, 1, len)
  {
    assert ks[..1] == [ks[0]] && vecs[..1] == [vecs[0]] && tags[..1] == [tags[0]];
    VFoldFirst(t.ext, kind, ks[0], vecs[0]);
    assert TagFold(kind, ks[..1], tags[..1]) == (tags[0] || (kind.Sum? && ks[0] == 0)) by {
      assert ks[..1][0] == ks[0] && tags[..1][0] == tags[0];
    }
  }

  lemma PartialNext<F(!new), E(!new)>(t: Tower<F, E>, kind: Kind, acc: Cell<F, E>, src: Cell<F, E>, ks: seq<int>,
                                      vecs: seq<seq<E>>, tags: seq<bool>, k: nat, len: nat)
    requires t.Lawful() && |ks| == |vecs| == |tags| && 0 < k < |ks| && SameLength(vecs, len)
    requires Rows(t, src) == vecs[k] && src.InBase? == tags[k]
    requires Partial(t, kind, acc, acc.InBase?, ks, vecs, tags, k, len)
    ensures acc.Len() == src.Len()
    ensures var c := NextCell(t, kind, acc, src, ks[k]);
            Partial(t, kind, c, c.InBase?, ks, vecs, tags, k + 1, len)
  {
    assert |vecs[k]| == len;
    assert ks[..k + 1] == ks[..k] + [ks[k]] && vecs[..k + 1] == vecs[..k] + [vecs[k]];
    VFoldNext(t.ext, kind, ks[..k], vecs[..k], len, ks[k], vecs[k]);
    TagSnoc(kind, ks, tags, k);
  }

  lemma TagSnoc(kind: Kind, ks: seq<int>, tags: seq<bool>, k: nat)
    requires |ks| == |tags| && k < |ks|
    ensures TagFold(kind, ks[..k + 1], tags[..k + 1])
         == (TagFold(kind, ks[..k], tags[..k]) && (tags[k] || (kind.Sum? && ks[k] == 0)))
  {
    assert ks[..k + 1] == ks[..k] + [ks[k]] && tags[..k + 1] == tags[..k] + [tags[k]];
  }

  function FastResult<F(!new), E(!new)>(t: Tower<F, E>, kind: Kind, k0: int, k1: int, a: seq<F>,
                                        b: seq<F>): Option<seq<F>>
    requires |a| == |b|
  {
    if k0 == 1 && kind.Prod? && k1 == 1 then Some(VMul(t.base, a, b))
    else if k0 == 1 && kind.Sum? && k1 == 1 then Some(VAdd(t.base, a, b))
    else if k0 == 1 && kind.Sum? && k1 == -1 then Some(VSub(t.base, a, b))
    else None
  }

  lemma FastFold<F(!new), E(!new)>(t: Tower<F, E>, kind: Kind, k0: int, k1: int, a: seq<F>, b: seq<F>,
                                   vecs: seq<seq<E>>, len: nat)
    requires t.Lawful() && |vecs| == 2 && SameLength(vecs, len)
    requires vecs[0] == t.LiftAll(a) && vecs[1] == t.LiftAll(b)
    ensures |a| == |b| == len
    ensures var res := FastResult(t, kind, k0, k1, a, b);
            res.Some? ==> VFold(t.ext, kind, [k0, k1], vecs, len) == t.LiftAll(res.value)
  {
    assert |vecs[0]| == len && |vecs[1]| == len;
    assert [k0, k1] == [k0] + [k1] && vecs == [vecs[0]] + [vecs[1]];
    VFoldFirst(t.ext, kind, k0, vecs[0]);
    VFoldNext(t.ext, kind, [k0], [vecs[0]], len, k1, vecs[1]);
    FastProduct(t, a, b);
    FastSum(t, a, b);
  }

  /** Two base operands: the fast result denotes the combination, which stays in the base field. */
  lemma FastOperands<F(!new), E(!new)>(t: Tower<F, E>, m: Mem<F, E>, kind: Kind, s0: int, s1: int, k0: int, k1: int,
                                       len: nat)
    requires t.Lawful() && 0 <= s0 < |m.ext| == |m.base| == |m.tags| && 0 <= s1 < |m.ext|
    requires m.tags[s0] && m.tags[s1] && SameLength(Gather(m.View(t), [s0, s1]), len)
    ensures |m.base[s0]| == |m.base[s1]| && TagFold(kind, [k0, k1], TagsAt(m.tags, [s0, s1]))
    ensures var res := FastResult(t, kind, k0, k1, m.base[s0], m.base[s1]);
            res.Some? ==> VFold(t.ext, kind, [k0, k1], Gather(m.View(t), [s0, s1]), len) == t.LiftAll(res.value)
  {
    var vecs := Gather(m.View(t), [s0, s1]);
    assert vecs[0] == t.LiftAll(m.base[s0]) && vecs[1] == t.LiftAll(m.base[s1]);
    FastFold(t, kind, k0, k1, m.base[s0], m.base[s1], vecs, len);
  }

  // ----- polynomial evaluation -----

  /** The Horner accumulator over the coefficients from k on. */
  ghost predicate HornerAt<F(!new), E(!new)>(t: Tower<F, E>, acc: Cell<F, E>, vecs: seq<seq<E>>, tags: seq<bool>,
                                             k: nat, len: nat)
    requires |vecs| == |tags| && 1 <= k < |vecs| && SameLength(vecs, len) && 1 <= len
  {
    assert |vecs[0]| == len;
    && acc.InBase? == HornerTag(tags, k)
    && Rows(t, acc) == VHorner(t.ext, vecs[0][0], vecs[k..], len)
  }

  ghost predicate HornerTag(tags: seq<bool>, k: nat)
    requires 1 <= k < |tags|
  {
    (forall i :: k <= i < |tags| ==> tags[i]) && (k < |tags| - 1 ==> tags[0])
  }

  lemma HornerFirst<F(!new), E(!new)>(t: Tower<F, E>, acc: Cell<F, E>, vecs: seq<seq<E>>, tags: seq<bool>, len: nat)
    requires t.Lawful() && |vecs| == |tags| && 2 <= |vecs| && SameLength(vecs, len) && 1 <= len
    requires Rows(t, acc) == vecs[|vecs| - 1] && acc.InBase? == tags[|tags| - 1]
    ensures HornerAt(t, acc, vecs, tags, |vecs| - 1, len)
  {
    var n := |vecs| - 1;
    assert |vecs[0]| == len && |vecs[n]| == len;
    assert vecs[n..] == [vecs[n]];
    VHornerOne(t.ext, vecs[0][0], vecs[n]);
  }

  lemma HornerDone<F(!new), E(!new)>(t: Tower<F, E>, acc: Cell<F, E>, vecs: seq<seq<E>>, tags: seq<bool>, len: nat)
    requires |vecs| == |tags| && 2 <= |vecs| && SameLength(vecs, len) && 1 <= len
             && HornerAt(t, acc, vecs, tags, 1, len)
    ensures |vecs[0]| == len && Rows(t, acc) == VHorner(t.ext, vecs[0][0], vecs[1..], len)
    ensures acc.InBase? == TagPoly(tags)
  {
  }

  lemma HornerNext<F(!new), E(!new)>(t: Tower<F, E>, acc: Cell<F, E>, x: Cell<F, E>, coeff: Cell<F, E>,
                                     vecs: seq<seq<E>>, tags: seq<bool>, k: nat, len: nat)
    requires t.Lawful() && |vecs| == |tags| && 1 <= k < |vecs| - 1 && SameLength(vecs, len) && 1 <= len
    requires HornerAt(t, acc, vecs, tags, k + 1, len)
    requires Rows(t, x) == vecs[0] && x.InBase? == tags[0] && Rows(t, coeff) == vecs[k] && coeff.InBase? == tags[k]
    ensures x.Len() == len && acc.Len() == coeff.Len() == len
    ensures HornerAt(t, AddCell(t, ScaleCell(t, acc, x), coeff), vecs, tags, k, len)
  {
    assert |vecs[0]| == len && |vecs[k]| == len;
    assert vecs[k..] == [vecs[k]] + vecs[k + 1..];
    VHornerStep(t.ext, vecs[0][0], vecs[k], vecs[k + 1..], len);
  }

  /** The first n powers of x. */
  method Powers<T(!new)>(r: Ring<T>, x: T, n: nat) returns (powers: seq<T>)
    requires 1 <= n
    ensures |powers| == n && forall i :: 0 <= i < n ==> powers[i] == r.Pow(x, i)
  {
    powers := [r.one];
    for i := 1 to n
      invariant |powers| == i && forall j :: 0 <= j < i ==> powers[j] == r.Pow(x, j)
    {
      powers := powers + [r.Mul(powers[i - 1], x)];
    }
  }

  /** MulAccByElement: acc + b * p. */
  function MulAcc<F(!new), E(!new)>(t: Tower<F, E>, acc: seq<E>, b: seq<F>, p: E): (c: seq<E>)
    requires |acc| == |b|
    ensures c == VAdd(t.ext, acc, VScale(t.ext, t.LiftAll(b), p))
  {
    seq(|acc|, i requires 0 <= i < |acc| => t.ext.Add(acc[i], t.ext.Mul(t.Lift(b[i]), p)))
  }

  lemma SumFirst<T(!new)>(r: Ring<T>, x: T, vecs: seq<seq<T>>, len: nat)
    requires r.Lawful() && vecs != [] && SameLength(vecs, len)
    ensures VPowerSum(r, x, vecs, 1, len) == vecs[0]
  {
    assert |vecs[0]| == len;
    forall i | 0 <= i < len ensures VPowerSum(r, x, vecs, 1, len)[i] == vecs[0][i] {
      var c := vecs[0][i];
      assert r.PowerSum(x, AtRow(vecs, i), 0) == r.zero && r.Pow(x, 0) == r.one;
      assert r.At2(c, r.one) && r.At1(c);
    }
  }

  lemma SumNext<T(!new)>(r: Ring<T>, x: T, vecs: seq<seq<T>>, n: nat, len: nat)
    requires SameLength(vecs, len) && n < |vecs|
    ensures |vecs[n]| == len
    ensures VPowerSum(r, x, vecs, n + 1, len) == VAdd(r, VPowerSum(r, x, vecs, n, len), VScale(r, vecs[n], r.Pow(x, n)))
  {
    assert |vecs[n]| == len;
  }
}
