/** The virtual machine over the base field. */
module BaseMachine {
  import opened Algebra
  import opened Compiler
  import opened Vectors
  import opened Machine
  import opened SmartVectors

  function First<T(!new)>(r: Ring<T>, kind: Kind, v: seq<T>, k: int): (c: seq<T>)
    requires r.Lawful()
    ensures c == VAct(r, kind, v, k)
  {
    if kind.Prod? then FirstFactor(r, v, k) else FirstTerm(r, v, k)
  }

  function Further<T(!new)>(r: Ring<T>, kind: Kind, acc: seq<T>, v: seq<T>, k: int): (c: seq<T>)
    requires r.Lawful() && |acc| == |v|
    ensures c == VJoin(r, kind, acc, VAct(r, kind, v, k))
  {
    if kind.Prod? then NextFactor(r, acc, v, k) else NextTerm(r, acc, v, k)
  }

  /** The memory after the first k operands were combined into the destination. */
  ghost function Folding<T(!new)>(r: Ring<T>, kind: Kind, mem: seq<seq<T>>, dst: nat, srcs: seq<int>, ks: seq<int>,
                                  k: nat, len: nat): seq<seq<T>>
    requires dst < |mem| && |srcs| == |ks| && k <= |ks| && InRange(srcs, |mem|) && SameLength(Gather(mem, srcs), len)
  {
    if k == 0 then mem
    else mem[dst := VFold(r, kind, ks[..k], Gather(mem, srcs)[..k], len)]
  }

  lemma FoldingDone<T(!new)>(r: Ring<T>, kind: Kind, mem: seq<seq<T>>, dst: nat, srcs: seq<int>, ks: seq<int>, len: nat)
    requires dst < |mem| && |srcs| == |ks| && 1 <= |ks| && InRange(srcs, |mem|) && SameLength(Gather(mem, srcs), len)
    ensures Folding(r, kind, mem, dst, srcs, ks, |ks|, len) == mem[dst := VFold(r, kind, ks, Gather(mem, srcs), len)]
  {
    assert ks[..|ks|] == ks && Gather(mem, srcs)[..|ks|] == Gather(mem, srcs);
  }

  lemma FoldingStep<T(!new)>(r: Ring<T>, kind: Kind, mem: seq<seq<T>>, dst: nat, srcs: seq<int>, ks: seq<int>, k: nat,
                             len: nat)
    requires r.Lawful() && dst < |mem| && |srcs| == |ks| && k < |ks| && InRange(srcs, |mem|)
             && SameLength(Gather(mem, srcs), len)
    requires srcs[k] != dst
    ensures var now := Folding(r, kind, mem, dst, srcs, ks, k, len);
            && now[srcs[k]] == mem[srcs[k]] && |now[srcs[k]]| == len
            && (k > 0 ==> |now[dst]| == len)
            && Folding(r, kind, mem, dst, srcs, ks, k + 1, len)
               == now[dst := if k == 0 then VAct(r, kind, now[srcs[k]], ks[k])
                             else VJoin(r, kind, now[dst], VAct(r, kind, now[srcs[k]], ks[k]))]
  {
    var vecs := Gather(mem, srcs);
    assert vecs[k] == mem[srcs[k]];
    if k == 0 {
      assert ks[..1] == [ks[0]] && vecs[..1] == [vecs[0]];
      VFoldFirst(r, kind, ks[0], vecs[0]);
    } else {
      VFoldNext(r, kind, ks[..k], vecs[..k], len, ks[k], vecs[k]);
      assert ks[..k + 1] == ks[..k] + [ks[k]] && vecs[..k + 1] == vecs[..k] + [vecs[k]];
    }
  }

  /** The memory while the Horner loop has consumed the coefficients from k on. */
  ghost function Evaluating<T(!new)>(r: Ring<T>, x: T, mem: seq<seq<T>>, dst: nat, srcs: seq<int>, k: nat,
                                     len: nat): seq<seq<T>>
    requires dst < |mem| && k <= |srcs| && InRange(srcs, |mem|) && SameLength(Gather(mem, srcs), len)
  {
    mem[dst := VHorner(r, x, Gather(mem, srcs)[k..], len)]
  }

  lemma EvaluatingLast<T(!new)>(r: Ring<T>, x: T, mem: seq<seq<T>>, dst: nat, srcs: seq<int>, len: nat)
    requires r.Lawful() && dst < |mem| && srcs != [] && InRange(srcs, |mem|) && SameLength(Gather(mem, srcs), len)
    ensures Evaluating(r, x, mem, dst, srcs, |srcs| - 1, len) == mem[dst := mem[srcs[|srcs| - 1]]]
  {
    var n := |srcs| - 1;
    assert Gather(mem, srcs)[n..] == [mem[srcs[n]]];
    assert |Gather(mem, srcs)[n]| == len;
    VHornerOne(r, x, mem[srcs[n]]);
  }

  lemma EvaluatingStep<T(!new)>(r: Ring<T>, x: T, mem: seq<seq<T>>, dst: nat, srcs: seq<int>, k: nat, len: nat)
    requires dst < |mem| && k < |srcs| && InRange(srcs, |mem|) && SameLength(Gather(mem, srcs), len) && srcs[k] != dst
    ensures var now := Evaluating(r, x, mem, dst, srcs, k + 1, len);
            && |now[dst]| == len && now[srcs[k]] == mem[srcs[k]] && |now[srcs[k]]| == len
            && Evaluating(r, x, mem, dst, srcs, k, len) == now[dst := VAdd(r, VScale(r, now[dst], x), now[srcs[k]])]
  {
    var vecs := Gather(mem, srcs);
    assert vecs[k] == mem[srcs[k]] && vecs[k..] == [vecs[k]] + vecs[k + 1..];
    VHornerStep(r, x, vecs[k], vecs[k + 1..], len);
  }

  class VmBase<F(!new), E(!new)> {
    const t: Tower<F, E>
    const bytecode: seq<int>
    const constants: seq<E>
    const chunkSize: nat
    const memory: array<seq<F>>

    constructor (t: Tower<F, E>, bytecode: seq<int>, constants: seq<E>, numSlots: nat, chunkSize: nat)
      ensures this.t == t && this.bytecode == bytecode && this.constants == constants && this.chunkSize == chunkSize
      ensures fresh(memory) && memory.Length == numSlots
    {
      this.t, this.bytecode, this.constants, this.chunkSize := t, bytecode, constants, chunkSize;
      memory := new seq<F>[numSlots](_ => VFill(t.base.zero, chunkSize));
    }

    /** opMul and opLinComb: combines the operand slots into the destination, in place. */
    method Combine(kind: Kind, dst: nat, pc: nat, n: nat)
      requires t.base.Lawful() && pc + 2 * n <= |bytecode| && 1 <= n && dst < memory.Length
      requires var srcs := PairSlots(bytecode, pc, n);
               && InRange(srcs, memory.Length) && SameLength(Gather(memory[..], srcs), chunkSize)
               && forall k :: 0 <= k < n ==> srcs[k] != dst
      modifies memory
      ensures memory[..] == old(memory[..])[dst := VFold(t.base, kind, PairArgs(bytecode, pc, n),
                                                         Gather(old(memory[..]), PairSlots(bytecode, pc, n)),
                                                         chunkSize)]
    {
      ghost var mem, srcs, ks := memory[..], PairSlots(bytecode, pc, n), PairArgs(bytecode, pc, n);
      for k := 0 to n
        invariant memory[..] == Folding(t.base, kind, mem, dst, srcs, ks, k, chunkSize)
      {
        assert srcs[k] == bytecode[pc + 2 * k] && ks[k] == bytecode[pc + 2 * k + 1];
        CombineStep(kind, dst, bytecode[pc + 2 * k], bytecode[pc + 2 * k + 1], k == 0, mem, srcs, ks, k);
      }
      FoldingDone(t.base, kind, mem, dst, srcs, ks, chunkSize);
    }

    /** One operand of a combination. */
    method CombineStep(kind: Kind, dst: nat, src: int, arg: int, first: bool, ghost mem: seq<seq<F>>,
                       ghost srcs: seq<int>, ghost ks: seq<int>, ghost k: nat)
      requires t.base.Lawful() && dst < |mem| && |srcs| == |ks| && k < |ks| && InRange(srcs, |mem|)
      requires SameLength(Gather(mem, srcs), chunkSize)
      requires memory[..] == Folding(t.base, kind, mem, dst, srcs, ks, k, chunkSize)
      requires src == srcs[k] && src != dst && arg == ks[k] && (first <==> k == 0)
      modifies memory
      ensures memory[..] == Folding(t.base, kind, mem, dst, srcs, ks, k + 1, chunkSize)
    {
      FoldingStep(t.base, kind, mem, dst, srcs, ks, k, chunkSize);
      assert memory[src] == memory[..][src] && memory[dst] == memory[..][dst];
      if first {
        memory[dst] := First(t.base, kind, memory[src], arg);
      } else {
        memory[dst] := Further(t.base, kind, memory[dst], memory[src], arg);
      }
    }

    /** opPolyEval: Horner from the last coefficient, at the point in row 0 of the first slot. */
    method PolyEval(dst: nat, pc: nat, n: nat)
      requires t.base.Lawful() && pc + n <= |bytecode| && 2 <= n && dst < memory.Length && 1 <= chunkSize
      requires var srcs := bytecode[pc..pc + n];
               && InRange(srcs, memory.Length) && SameLength(Gather(memory[..], srcs), chunkSize)
               && forall k :: 0 <= k < n ==> srcs[k] != dst
      modifies memory
      ensures var srcs := bytecode[pc..pc + n];
              memory[..] == old(memory[..])[dst := VHorner(t.base, Gather(old(memory[..]), srcs)[0][0],
                                                           Gather(old(memory[..]), srcs)[1..], chunkSize)]
    {
      ghost var mem, srcs := memory[..], bytecode[pc..pc + n];
      assert srcs[0] == bytecode[pc] && srcs[n - 1] == bytecode[pc + n - 1];
      assert Gather(mem, srcs)[0] == memory[bytecode[pc]] && |Gather(mem, srcs)[0]| == chunkSize;
      var x := memory[bytecode[pc]][0];
      EvaluatingLast(t.base, x, mem, dst, srcs, chunkSize);
      memory[dst] := memory[bytecode[pc + n - 1]];
      var k := n - 2;
      while k >= 1
        invariant 0 <= k <= n - 2
        invariant memory[..] == Evaluating(t.base, x, mem, dst, srcs, k + 1, chunkSize)
      {
        EvaluatingStep(t.base, x, mem, dst, srcs, k, chunkSize);
        assert srcs[k] == bytecode[pc + k];
        assert memory[srcs[k]] == memory[..][srcs[k]] && memory[dst] == memory[..][dst];
        memory[dst] := VScale(t.base, memory[dst], x);
        memory[dst] := VAdd(t.base, memory[dst], memory[bytecode[pc + k]]);
        k := k - 1;
      }
    }

    /** The job describes this machine's program on the rows start..stop of the inputs. */
    ghost predicate Runs(job: Job<E, F>, inputs: seq<SmartVector<F, E>>, start: nat, stop: nat) {
      && job.Valid() && job.r == t.base && job.nodes != []
      && bytecode == Program(job.nodes, job.slots)
      && memory.Length == job.numSlots && chunkSize == job.len && stop == start + chunkSize
      && |constants| == |job.consts| && (forall i :: 0 <= i < |constants| ==> job.consts[i] == t.ToBase(constants[i]))
      && |inputs| == |job.chunk|
      && forall i :: 0 <= i < |inputs| ==>
           inputs[i].IsBase() && stop <= inputs[i].Len() && job.chunk[i] == inputs[i].BaseChunk(start, stop)
    }

    /** Executes the instruction at pc: the slot of node k receives the rows of node k. */
    method Step(inputs: seq<SmartVector<F, E>>, start: nat, stop: nat, pc: nat, ghost job: Job<E, F>, ghost k: nat)
      returns (pc': nat)
      requires Runs(job, inputs, start, stop) && k < |job.nodes| && pc == Start(job.nodes, job.slots, k)
      requires job.Live(memory[..], k)
      modifies memory
      ensures pc' == Start(job.nodes, job.slots, k + 1)
      ensures job.Live(memory[..], k + 1)
    {
      LiveStep(job, memory[..], k);
      DecodeHead(job, k);
      OpcodeOf(job, k);
      var op := bytecode[pc];
      if op == OP_LOAD_CONST || op == OP_LOAD_INPUT {
        pc' := StepLeaf(inputs, start, stop, pc, job, k);
      } else if op == OP_MUL || op == OP_LIN_COMB {
        pc' := StepNary(inputs, start, stop, pc, job, k);
      } else {
        pc' := StepPoly(inputs, start, stop, pc, job, k);
      }
    }

    method StepLeaf(inputs: seq<SmartVector<F, E>>, start: nat, stop: nat, pc: nat, ghost job: Job<E, F>, ghost k: nat)
      returns (pc': nat)
      requires Runs(job, inputs, start, stop) && k < |job.nodes| && pc == Start(job.nodes, job.slots, k)
      requires job.nodes[k].op.Constant? || job.nodes[k].op.Variable?
      modifies memory
      ensures pc' == Start(job.nodes, job.slots, k + 1)
      ensures memory[..] == old(memory[..])[job.slots[k] := job.Rows(k)]
    {
      DecodeLeaf(job, k);
      var op, dst, arg := bytecode[pc], bytecode[pc + 1], bytecode[pc + 2];
      if op == OP_LOAD_CONST {
        ConstRows(job, k);
        memory[dst] := VFill(t.ToBase(constants[arg]), stop - start);
      } else {
        InputRows(job, k);
        memory[dst] := inputs[arg].BaseChunk(start, stop);
      }
      pc' := pc + 3;
    }

    method StepNary(inputs: seq<SmartVector<F, E>>, start: nat, stop: nat, pc: nat, ghost job: Job<E, F>, ghost k: nat)
      returns (pc': nat)
      requires Runs(job, inputs, start, stop) && k < |job.nodes| && pc == Start(job.nodes, job.slots, k)
      requires job.Live(memory[..], k) && job.nodes[k].op.Nary?
      modifies memory
      ensures pc' == Start(job.nodes, job.slots, k + 1)
      ensures memory[..] == old(memory[..])[job.slots[k] := job.Rows(k)]
    {
      DecodeNary(job, k);
      FoldRows(job, memory[..], k);
      OperandRows(job, memory[..], k);
      var op, dst, n := bytecode[pc], bytecode[pc + 1], bytecode[pc + 2];
      Combine(if op == OP_MUL then Prod else Sum, dst, pc + 3, n);
      pc' := pc + 3 + 2 * n;
    }

    method PolyNode(dst: nat, pc: nat, n: nat, ghost job: Job<E, F>, ghost k: nat)
      requires job.Valid() && job.r == t.base && memory.Length == job.numSlots && chunkSize == job.len
      requires k < |job.nodes| && job.nodes[k].op.PolyEval? && job.Live(memory[..], k)
      requires pc + n <= |bytecode| && bytecode[pc..pc + n] == Operands(job.slots, job.nodes[k].children)
      requires dst == job.slots[k]
      modifies memory
      ensures memory[..] == old(memory[..])[dst := job.Rows(k)]
    {
      PolyRows(job, memory[..], k);
      PolyEval(dst, pc, n);
    }

    method StepPoly(inputs: seq<SmartVector<F, E>>, start: nat, stop: nat, pc: nat, ghost job: Job<E, F>, ghost k: nat)
      returns (pc': nat)
      requires Runs(job, inputs, start, stop) && k < |job.nodes| && pc == Start(job.nodes, job.slots, k)
      requires job.Live(memory[..], k) && job.nodes[k].op.PolyEval?
      modifies memory
      ensures pc' == Start(job.nodes, job.slots, k + 1)
      ensures memory[..] == old(memory[..])[job.slots[k] := job.Rows(k)]
    {
      DecodePoly(job, k);
      var dst, n := bytecode[pc + 1], bytecode[pc + 2];
      PolyNode(dst, pc + 3, n, job, k);
      pc' := pc + 3 + n;
    }

    /** Runs the whole program on one chunk: the result slot holds the rows of the last node,
        whatever the memory held before. */
    method Execute(inputs: seq<SmartVector<F, E>>, start: nat, stop: nat, ghost job: Job<E, F>)
      requires Runs(job, inputs, start, stop)
      modifies memory
      ensures memory[job.slots[|job.nodes| - 1]] == job.Rows(|job.nodes| - 1)
    {
      var pc := 0;
      ghost var k := 0;
      ProgramEnds(job.nodes, job.slots, 0);
      while pc < |bytecode|
        invariant k <= |job.nodes| && pc == Start(job.nodes, job.slots, k)
        invariant pc < |bytecode| <==> k < |job.nodes|
        invariant job.Live(memory[..], k)
        decreases |job.nodes| - k
      {
        ProgramEnds(job.nodes, job.slots, k + 1);
        pc := Step(inputs, start, stop, pc, job, k);
        k := k + 1;
      }
      LiveEnd(job, memory[..]);
    }
  }
}
