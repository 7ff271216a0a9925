/** What both virtual machines have in common: decoding an instruction and the invariant
    that every slot still to be read holds the rows of its node. */
module Machine {
  import opened Algebra
  import opened Expressions
  import opened Boards
  import opened Allocation
  import opened Compiler
  import opened Vectors

  /** Operand slots, and the integers interleaved with them, starting at pc. */
  function PairSlots(bytecode: seq<int>, pc: nat, n: nat): (xs: seq<int>)
    requires pc + 2 * n <= |bytecode|
    ensures |xs| == n
  {
    seq(n, k requires 0 <= k < n => bytecode[pc + 2 * k])
  }

  function PairArgs(bytecode: seq<int>, pc: nat, n: nat): (xs: seq<int>)
    requires pc + 2 * n <= |bytecode|
    ensures |xs| == n
  {
    seq(n, k requires 0 <= k < n => bytecode[pc + 2 * k + 1])
  }

  predicate InRange(xs: seq<int>, n: nat) {
    forall k :: 0 <= k < |xs| ==> 0 <= xs[k] < n
  }

  ghost function Gather<T>(mem: seq<seq<T>>, srcs: seq<int>): (vs: seq<seq<T>>)
    requires InRange(srcs, |mem|)
    ensures |vs| == |srcs|
  {
    seq(|srcs|, k requires 0 <= k < |srcs| => mem[srcs[k]])
  }

  /** A board with its slots, the constants and inputs of one chunk, and the chunk length. */
  datatype Job<E(!new), !T(!new)> = Job(r: Ring<T>, nodes: seq<Node<E>>, slots: seq<nat>, numSlots: nat,
                                       consts: seq<T>, chunk: seq<seq<T>>, len: nat)
  {
    ghost predicate Valid() {
      && r.Lawful()
      && Fits(nodes, consts, chunk, len) && NodesWellFormed(nodes)
      && |slots| == |nodes| && NonAliasing(nodes, slots)
      && (forall j :: 0 <= j < |slots| ==> slots[j] < numSlots)
      && 1 <= len
    }

    /** The rows of node j over the chunk. */
    ghost function Rows(j: nat): (v: seq<T>)
      requires Valid() && j < |nodes|
      ensures |v| == len
    {
      seq(len, t requires 0 <= t < len => RowVal(r, nodes, consts, chunk, j, t))
    }

    /** Before instruction k every node still to be read is in its slot. */
    ghost predicate Live(mem: seq<seq<T>>, k: nat)
      requires Valid()
    {
      && |mem| == numSlots && k <= |nodes|
      && forall j :: 0 <= j < k && LastUse(nodes, j) >= k ==> mem[slots[j]] == Rows(j)
    }
  }

  lemma LiveStep<E(!new), T(!new)>(job: Job<E, T>, mem: seq<seq<T>>, k: nat)
    requires job.Valid() && job.Live(mem, k) && k < |job.nodes|
    ensures job.Live(mem[job.slots[k] := job.Rows(k)], k + 1)
  {
  }

  lemma LiveEnd<E(!new), T(!new)>(job: Job<E, T>, mem: seq<seq<T>>)
    requires job.Valid() && job.nodes != [] && job.Live(mem, |job.nodes|)
    ensures mem[job.slots[|job.nodes| - 1]] == job.Rows(|job.nodes| - 1)
  {
    UseIsLater(job.nodes, |job.nodes| - 1);
  }

  /** The operands of node k are live, lie in other slots than its result, and hold the rows
      of the children. */
  lemma OperandRows<E(!new), T(!new)>(job: Job<E, T>, mem: seq<seq<T>>, k: nat)
    requires job.Valid() && job.Live(mem, k) && k < |job.nodes|
    ensures var cs := job.nodes[k].children;
            var srcs := Operands(job.slots, cs);
            && InRange(srcs, |mem|)
            && (forall i :: 0 <= i < |cs| ==> srcs[i] != job.slots[k] && Gather(mem, srcs)[i] == job.Rows(cs[i]))
            && SameLength(Gather(mem, srcs), job.len)
  {
    var cs := job.nodes[k].children;
    var srcs := Operands(job.slots, cs);
    forall i | 0 <= i < |cs| ensures srcs[i] != job.slots[k] && mem[srcs[i]] == job.Rows(cs[i]) {
      UseIsLater(job.nodes, cs[i]);
      assert cs[i] in cs;
      OperandsDiffer(job.nodes, job.slots, k, i);
    }
  }

  lemma FoldRows<E(!new), T(!new)>(job: Job<E, T>, mem: seq<seq<T>>, k: nat)
    requires job.Valid() && job.Live(mem, k) && k < |job.nodes| && job.nodes[k].op.Nary?
    ensures var srcs, op := Operands(job.slots, job.nodes[k].children), job.nodes[k].op;
            && |op.ks| == |srcs| && InRange(srcs, |mem|) && SameLength(Gather(mem, srcs), job.len)
            && VFold(job.r, op.kind, op.ks, Gather(mem, srcs), job.len) == job.Rows(k)
  {
    OperandRows(job, mem, k);
    var op, cs := job.nodes[k].op, job.nodes[k].children;
    assert Arity(op, |cs|);
    var vecs := Gather(mem, Operands(job.slots, cs));
    forall t | 0 <= t < job.len ensures VFold(job.r, op.kind, op.ks, vecs, job.len)[t] == job.Rows(k)[t] {
      assert AtRow(vecs, t) == ChildRows(job.r, job.nodes, job.consts, job.chunk, k, t);
      RowStep(job.r, job.nodes, job.consts, job.chunk, k, t);
    }
  }

  lemma PolyRows<E(!new), T(!new)>(job: Job<E, T>, mem: seq<seq<T>>, k: nat)
    requires job.Valid() && job.Live(mem, k) && k < |job.nodes| && job.nodes[k].op.PolyEval?
    ensures var srcs := Operands(job.slots, job.nodes[k].children);
            && |srcs| >= 2 && InRange(srcs, |mem|) && SameLength(Gather(mem, srcs), job.len)
            && (forall i :: 0 <= i < |srcs| ==> srcs[i] != job.slots[k])
            && VHorner(job.r, Gather(mem, srcs)[0][0], Gather(mem, srcs)[1..], job.len) == job.Rows(k)
  {
    OperandRows(job, mem, k);
    var op, cs := job.nodes[k].op, job.nodes[k].children;
    assert Arity(op, |cs|);
    var vecs := Gather(mem, Operands(job.slots, cs));
    forall t | 0 <= t < job.len ensures VHorner(job.r, vecs[0][0], vecs[1..], job.len)[t] == job.Rows(k)[t] {
      var rows := ChildRows(job.r, job.nodes, job.consts, job.chunk, k, t);
      assert AtRow(vecs[1..], t) == rows[1..];
      assert vecs[0][0] == rows[0];
      RowStep(job.r, job.nodes, job.consts, job.chunk, k, t);
    }
  }

  lemma ConstRows<E(!new), T(!new)>(job: Job<E, T>, k: nat)
    requires job.Valid() && k < |job.nodes| && job.nodes[k].op.Constant?
    ensures ConstIndex(job.nodes, k) < |job.consts|
    ensures job.Rows(k) == VFill(job.consts[ConstIndex(job.nodes, k)], job.len)
  {
    IndexWithin(job.nodes, k, |job.nodes|);
  }

  lemma InputRows<E(!new), T(!new)>(job: Job<E, T>, k: nat)
    requires job.Valid() && k < |job.nodes| && job.nodes[k].op.Variable?
    ensures InputIndex(job.nodes, k) < |job.chunk|
    ensures job.Rows(k) == job.chunk[InputIndex(job.nodes, k)]
  {
    IndexWithin(job.nodes, k, |job.nodes|);
  }

  /** Decoding at the start of instruction k recovers the operator and operands of node k. */
  lemma DecodeHead<E(!new), T(!new)>(job: Job<E, T>, k: nat)
    requires job.Valid() && k < |job.nodes|
    ensures var bytecode, pc := Program(job.nodes, job.slots), Start(job.nodes, job.slots, k);
            var code := Code(job.nodes, job.slots, k);
            && Start(job.nodes, job.slots, k + 1) == pc + |code| <= |bytecode|
            && bytecode[pc..pc + |code|] == code
            && |code| >= 3 && bytecode[pc] == code[0] && bytecode[pc + 1] == code[1] == job.slots[k]
            && bytecode[pc + 2] == code[2]
  {
    var bytecode, pc := Program(job.nodes, job.slots), Start(job.nodes, job.slots, k);
    var code := Code(job.nodes, job.slots, k);
    CodeAt(job.nodes, job.slots, k);
    CodeShape(job.nodes, job.slots, k);
    SliceAt(bytecode, pc, code, 0);
    SliceAt(bytecode, pc, code, 1);
    SliceAt(bytecode, pc, code, 2);
  }

  /** The opcode determines the operator. */
  lemma OpcodeOf<E(!new), T(!new)>(job: Job<E, T>, k: nat)
    requires job.Valid() && k < |job.nodes|
    ensures var opcode, op := Code(job.nodes, job.slots, k)[0], job.nodes[k].op;
            && (opcode == OP_LOAD_CONST <==> op.Constant?)
            && (opcode == OP_LOAD_INPUT <==> op.Variable?)
            && (opcode == OP_MUL <==> op.Nary? && op.kind.Prod?)
            && (opcode == OP_LIN_COMB <==> op.Nary? && op.kind.Sum?)
            && (opcode == OP_POLY_EVAL <==> op.PolyEval?)
  {
    CodeShape(job.nodes, job.slots, k);
  }

  lemma DecodeLeaf<E(!new), T(!new)>(job: Job<E, T>, k: nat)
    requires job.Valid() && k < |job.nodes| && (job.nodes[k].op.Constant? || job.nodes[k].op.Variable?)
    ensures var bytecode, pc := Program(job.nodes, job.slots), Start(job.nodes, job.slots, k);
            && Start(job.nodes, job.slots, k + 1) == pc + 3 <= |bytecode| && bytecode[pc + 1] == job.slots[k]
            && bytecode[pc] == (if job.nodes[k].op.Constant? then OP_LOAD_CONST else OP_LOAD_INPUT)
            && bytecode[pc + 2]
              == (if job.nodes[k].op.Constant? then ConstIndex(job.nodes, k) else InputIndex(job.nodes, k))
  {
    DecodeHead(job, k);
  }

  lemma DecodeNary<E(!new), T(!new)>(job: Job<E, T>, k: nat)
    requires job.Valid() && k < |job.nodes| && job.nodes[k].op.Nary?
    ensures var bytecode, pc := Program(job.nodes, job.slots), Start(job.nodes, job.slots, k);
            var op, n := job.nodes[k].op, |job.nodes[k].children|;
            && 1 <= n && Start(job.nodes, job.slots, k + 1) == pc + 3 + 2 * n <= |bytecode|
            && bytecode[pc + 1] == job.slots[k]
            && bytecode[pc] == (if op.kind.Prod? then OP_MUL else OP_LIN_COMB) && bytecode[pc + 2] == n
            && PairSlots(bytecode, pc + 3, n) == Operands(job.slots, job.nodes[k].children)
            && PairArgs(bytecode, pc + 3, n) == op.ks
  {
    var bytecode, pc := Program(job.nodes, job.slots), Start(job.nodes, job.slots, k);
    var n := |job.nodes[k].children|;
    assert Arity(job.nodes[k].op, n);
    DecodeHead(job, k);
    CodeShape(job.nodes, job.slots, k);
    NaryPairs(job, k, bytecode, pc, n);
  }

  lemma NaryCode<E(!new)>(nodes: seq<Node<E>>, slots: seq<nat>, k: nat)
    requires Sorted(nodes) && NodesWellFormed(nodes) && k < |slots| <= |nodes| && nodes[k].op.Nary?
    ensures Code(nodes, slots, k)[3..] == Interleave(Operands(slots, nodes[k].children), nodes[k].op.ks)
    ensures |nodes[k].op.ks| == |nodes[k].children|
  {
    assert Arity(nodes[k].op, |nodes[k].children|);
  }

  lemma PairsDecoded(bytecode: seq<int>, pc: nat, code: seq<int>, xs: seq<int>, ys: seq<int>)
    requires |xs| == |ys| && |code| == 3 + 2 * |xs| && code[3..] == Interleave(xs, ys)
    requires pc + |code| <= |bytecode| && bytecode[pc..pc + |code|] == code
    ensures PairSlots(bytecode, pc + 3, |xs|) == xs && PairArgs(bytecode, pc + 3, |xs|) == ys
  {
    TailAt(bytecode, pc, code, 2 * |xs|);
    PairsAt(bytecode, pc + 3, code[3..], xs, ys);
    DecodePairs(bytecode, pc + 3, xs, ys);
  }

  lemma NaryPairs<E(!new), T(!new)>(job: Job<E, T>, k: nat, bytecode: seq<int>, pc: nat, n: nat)
    requires job.Valid() && k < |job.nodes| && job.nodes[k].op.Nary?
    requires bytecode == Program(job.nodes, job.slots) && pc == Start(job.nodes, job.slots, k)
    requires n == |job.nodes[k].children| && pc + 3 + 2 * n <= |bytecode|
    ensures PairSlots(bytecode, pc + 3, n) == Operands(job.slots, job.nodes[k].children)
    ensures PairArgs(bytecode, pc + 3, n) == job.nodes[k].op.ks
  {
    DecodeHead(job, k);
    CodeShape(job.nodes, job.slots, k);
    NaryCode(job.nodes, job.slots, k);
    PairsDecoded(bytecode, pc, Code(job.nodes, job.slots, k), Operands(job.slots, job.nodes[k].children),
                 job.nodes[k].op.ks);
  }

  /** The operands follow the three words of the head. */
  lemma TailAt(bytecode: seq<int>, pc: nat, code: seq<int>, n: nat)
    requires |code| == 3 + n && pc + |code| <= |bytecode| && bytecode[pc..pc + |code|] == code
    ensures bytecode[pc + 3..pc + 3 + n] == code[3..]
  {
    assert code[3..] == bytecode[pc..pc + |code|][3..];
  }

  lemma PairAt(bytecode: seq<int>, pc: nat, zs: seq<int>, xs: seq<int>, ys: seq<int>, i: nat)
    requires |xs| == |ys| && i < |xs| && |zs| == 2 * |xs| && zs == Interleave(xs, ys)
    requires pc + |zs| <= |bytecode| && bytecode[pc..pc + |zs|] == zs
    ensures PairIs(bytecode, pc, i, xs[i], ys[i])
  {
    InterleaveAt(xs, ys, i);
    SliceAt(bytecode, pc, zs, 2 * i);
    SliceAt(bytecode, pc, zs, 2 * i + 1);
  }

  ghost predicate PairIs(bytecode: seq<int>, pc: nat, i: nat, x: int, y: int) {
    pc + 2 * i + 1 < |bytecode| && bytecode[pc + 2 * i] == x && bytecode[pc + 2 * i + 1] == y
  }

  ghost predicate Pairs(bytecode: seq<int>, pc: nat, xs: seq<int>, ys: seq<int>) {
    |xs| == |ys| && forall i :: 0 <= i < |xs| ==> PairIs(bytecode, pc, i, xs[i], ys[i])
  }

  lemma PairsAt(bytecode: seq<int>, pc: nat, zs: seq<int>, xs: seq<int>, ys: seq<int>)
    requires |xs| == |ys| && |zs| == 2 * |xs| && zs == Interleave(xs, ys)
    requires pc + |zs| <= |bytecode| && bytecode[pc..pc + |zs|] == zs
    ensures Pairs(bytecode, pc, xs, ys)
  {
    forall i | 0 <= i < |xs| ensures PairIs(bytecode, pc, i, xs[i], ys[i]) { PairAt(bytecode, pc, zs, xs, ys, i); }
  }

  lemma DecodePairs(bytecode: seq<int>, pc: nat, xs: seq<int>, ys: seq<int>)
    requires pc + 2 * |xs| <= |bytecode| && Pairs(bytecode, pc, xs, ys)
    ensures PairSlots(bytecode, pc, |xs|) == xs && PairArgs(bytecode, pc, |xs|) == ys
  {
    forall i | 0 <= i < |xs|
      ensures PairSlots(bytecode, pc, |xs|)[i] == xs[i] && PairArgs(bytecode, pc, |xs|)[i] == ys[i]
    {
      assert PairIs(bytecode, pc, i, xs[i], ys[i]);
    }
  }

  lemma DecodePoly<E(!new), T(!new)>(job: Job<E, T>, k: nat)
    requires job.Valid() && k < |job.nodes| && job.nodes[k].op.PolyEval?
    ensures var bytecode, pc := Program(job.nodes, job.slots), Start(job.nodes, job.slots, k);
            var n := |job.nodes[k].children|;
            && 2 <= n && Start(job.nodes, job.slots, k + 1) == pc + 3 + n <= |bytecode|
            && bytecode[pc + 1] == job.slots[k]
            && bytecode[pc] == OP_POLY_EVAL && bytecode[pc + 2] == n
            && bytecode[pc + 3..pc + 3 + n] == Operands(job.slots, job.nodes[k].children)
  {
    var bytecode, pc := Program(job.nodes, job.slots), Start(job.nodes, job.slots, k);
    var n, code := |job.nodes[k].children|, Code(job.nodes, job.slots, k);
    assert Arity(job.nodes[k].op, n);
    DecodeHead(job, k);
    CodeShape(job.nodes, job.slots, k);
    TailAt(bytecode, pc, code, n);
  }
}
