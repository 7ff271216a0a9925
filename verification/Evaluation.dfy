/** Evaluate: the compiled program over all rows, chunk by chunk. */
module Evaluation {
  import opened Algebra
  import opened Expressions
  import opened Boards
  import opened Allocation
  import opened Compiler
  import opened Machine
  import opened SmartVectors
  import opened MixedKernels
  import opened BaseMachine
  import opened ExtMachine
  import Chunks

  datatype Outcome<F, E> = Panic | Vector(v: SmartVector<F, E>)

  /** The compiled part of a board. */
  datatype CompiledCode<E> = CompiledCode(bytecode: seq<int>, constants: seq<E>, numSlots: nat, resultSlot: nat)

  /** The program is the one compiled from these nodes. */
  ghost predicate CodeOf<E(!new)>(p: CompiledCode<E>, nodes: seq<Node<E>>) {
    && Sorted(nodes) && NodesWellFormed(nodes) && nodes != []
    && p.bytecode == Program(nodes, AllocTo(nodes, |nodes|).slots)
    && p.constants == ConstantsOf(nodes, |nodes|)
    && p.numSlots == AllocTo(nodes, |nodes|).next
    && p.resultSlot == AllocTo(nodes, |nodes|).slots[|nodes| - 1]
  }

  predicate AllBase<F, E>(inputs: seq<SmartVector<F, E>>) {
    forall i :: 0 <= i < |inputs| ==> inputs[i].IsBase()
  }

  predicate AllConstant<F, E>(inputs: seq<SmartVector<F, E>>) {
    forall i :: 0 <= i < |inputs| ==> inputs[i].IsConstant()
  }

  predicate AllLen<F, E>(inputs: seq<SmartVector<F, E>>, total: nat) {
    forall i :: 0 <= i < |inputs| ==> inputs[i].Len() == total
  }

  // ----- what a row of the result is -----

  ghost function BaseConsts<F(!new), E(!new)>(t: Tower<F, E>, nodes: seq<Node<E>>): (cs: seq<F>)
    ensures |cs| == ConstIndex(nodes, |nodes|)
  {
    var cs := ConstantsOf(nodes, |nodes|);
    seq(|cs|, i requires 0 <= i < |cs| => t.ToBase(cs[i]))
  }

  ghost function BaseChunks<F(!new), E(!new)>(inputs: seq<SmartVector<F, E>>, start: nat, stop: nat): (ch: seq<seq<F>>)
    requires AllBase(inputs) && start <= stop && forall i :: 0 <= i < |inputs| ==> stop <= inputs[i].Len()
    ensures |ch| == |inputs|
  {
    seq(|inputs|, i requires 0 <= i < |inputs| => inputs[i].BaseChunk(start, stop))
  }

  ghost function ExtChunks<F(!new), E(!new)>(t: Tower<F, E>, inputs: seq<SmartVector<F, E>>, start: nat,
                                             stop: nat): (ch: seq<seq<E>>)
    requires start <= stop && forall i :: 0 <= i < |inputs| ==> stop <= inputs[i].Len()
    ensures |ch| == |inputs|
  {
    seq(|inputs|, i requires 0 <= i < |inputs| => ExtChunk(t, inputs[i], start, stop))
  }

  ghost function InputTags<F(!new), E(!new)>(t: Tower<F, E>, inputs: seq<SmartVector<F, E>>): (ts: seq<bool>)
    ensures |ts| == |inputs|
  {
    seq(|inputs|, i requires 0 <= i < |inputs| => InputTag(t, inputs[i]))
  }

  /** Evaluation of one program on inputs cut into n chunks of the same size. */
  datatype Run<!F(!new), !E(!new)> = Run(t: Tower<F, E>, nodes: seq<Node<E>>, inputs: seq<SmartVector<F, E>>, size: nat,
                                         n: nat)
  {
    ghost predicate Valid() {
      && t.Lawful() && Sorted(nodes) && NodesWellFormed(nodes) && nodes != []
      && |inputs| >= InputIndex(nodes, |nodes|)
      && 1 <= size && 1 <= n && AllLen(inputs, n * size)
    }

    ghost function Slots(): seq<nat>
      requires Sorted(nodes)
    {
      AllocTo(nodes, |nodes|).slots
    }

    ghost function BaseJob(c: nat): (job: Job<E, F>)
      requires Valid() && AllBase(inputs) && c < n
      ensures job.Valid() && job.r == t.base && job.nodes == nodes && job.slots == Slots() && job.len == size
      ensures job.numSlots == AllocTo(nodes, |nodes|).next
    {
      Chunks.ChunkBounds(n, size, c);
      AllocSafe(nodes, |nodes|);
      Job(t.base, nodes, Slots(), AllocTo(nodes, |nodes|).next, BaseConsts(t, nodes),
          BaseChunks(inputs, c * size, c * size + size), size)
    }

    ghost function ExtJob(c: nat): (job: Job<E, E>)
      requires Valid() && c < n
      ensures job.Valid() && job.r == t.ext && job.nodes == nodes && job.slots == Slots() && job.len == size
      ensures job.numSlots == AllocTo(nodes, |nodes|).next
    {
      Chunks.ChunkBounds(n, size, c);
      AllocSafe(nodes, |nodes|);
      Job(t.ext, nodes, Slots(), AllocTo(nodes, |nodes|).next, ConstantsOf(nodes, |nodes|),
          ExtChunks(t, inputs, c * size, c * size + size), size)
    }

    /** The rows of the result, chunk by chunk. */
    ghost function BaseRows(): (rows: seq<seq<F>>)
      requires Valid() && AllBase(inputs)
      ensures |rows| == n && forall c :: 0 <= c < n ==> |rows[c]| == size
    {
      seq(n, c requires 0 <= c < n => BaseJob(c).Rows(|nodes| - 1))
    }

    ghost function ExtRows(): (rows: seq<seq<E>>)
      requires Valid()
      ensures |rows| == n && forall c :: 0 <= c < n ==> |rows[c]| == size
    {
      seq(n, c requires 0 <= c < n => ExtJob(c).Rows(|nodes| - 1))
    }

    ghost predicate ResultTag()
      requires Valid()
    {
      NodeTag(t, nodes, InputTags(t, inputs), |nodes| - 1)
    }
  }

  // ----- writing the chunks into the result -----

  ghost predicate RowIs<T(!new)>(res: seq<T>, size: nat, d: nat, i: nat, rows: seq<T>) {
    i < |rows| && d * size + i < |res| && res[d * size + i] == rows[i]
  }

  /** The first c chunks of the wanted rows have been written. */
  ghost predicate Done<T(!new)>(res: seq<T>, want: seq<seq<T>>, size: nat, c: nat) {
    && c <= |want| && |res| == |want| * size
    && forall d, i :: 0 <= d < c && 0 <= i < size ==> RowIs(res, size, d, i, want[d])
  }

  ghost function Overwrite<T>(res: seq<T>, start: nat, rows: seq<T>): (s: seq<T>)
    requires start + |rows| <= |res|
    ensures |s| == |res|
  {
    res[..start] + rows + res[start + |rows|..]
  }

  lemma DoneNext<T(!new)>(res: seq<T>, want: seq<seq<T>>, size: nat, c: nat)
    requires Done(res, want, size, c) && c < |want| && |want[c]| == size
    ensures c * size + size <= |res| && Done(Overwrite(res, c * size, want[c]), want, size, c + 1)
  {
    Chunks.ChunkBounds(|want|, size, c);
    var res' := Overwrite(res, c * size, want[c]);
    forall d, i | 0 <= d < c + 1 && 0 <= i < size ensures RowIs(res', size, d, i, want[d]) {
      if d < c {
        assert RowIs(res, size, d, i, want[d]);
        Chunks.ChunkBounds(c, size, d);
      }
    }
  }

  method CopyChunk<T>(buf: array<T>, start: nat, rows: seq<T>)
    requires start + |rows| <= buf.Length
    modifies buf
    ensures buf[..] == Overwrite(old(buf[..]), start, rows)
  {
    for i := 0 to |rows|
      invariant forall k :: 0 <= k < buf.Length ==>
                  buf[k] == if start <= k < start + i then rows[k - start] else old(buf[k])
    {
      buf[start + i] := rows[i];
    }
  }

  /** Writes one chunk of the result. */
  method PutChunk<T(!new)>(buf: array<T>, rows: seq<T>, ghost want: seq<seq<T>>, size: nat, c: nat)
    requires Done(buf[..], want, size, c) && c < |want| && rows == want[c] && |rows| == size
    modifies buf
    ensures Done(buf[..], want, size, c + 1)
  {
    DoneNext(buf[..], want, size, c);
    CopyChunk(buf, c * size, rows);
  }

  // ----- the base path -----

  ghost predicate BaseLoaded<F(!new), E(!new)>(vm: VmBase<F, E>, run: Run<F, E>)
    requires run.Valid()
  {
    && vm.t == run.t && vm.bytecode == Program(run.nodes, run.Slots())
    && vm.constants == ConstantsOf(run.nodes, |run.nodes|)
    && vm.chunkSize == run.size && vm.memory.Length == AllocTo(run.nodes, |run.nodes|).next
  }

  lemma BaseRuns<F(!new), E(!new)>(vm: VmBase<F, E>, run: Run<F, E>, c: nat, start: nat)
    requires run.Valid() && AllBase(run.inputs) && BaseLoaded(vm, run) && c < run.n && start == c * run.size
    ensures vm.Runs(run.BaseJob(c), run.inputs, start, start + vm.chunkSize)
  {
    Chunks.ChunkBounds(run.n, run.size, c);
  }

  method RunBaseChunk<F(!new), E(!new)>(vm: VmBase<F, E>, inputs: seq<SmartVector<F, E>>, start: nat, slot: nat,
                                        ghost job: Job<E, F>)
    returns (rows: seq<F>)
    requires vm.Runs(job, inputs, start, start + vm.chunkSize) && slot == job.slots[|job.nodes| - 1]
    modifies vm.memory
    ensures rows == job.Rows(|job.nodes| - 1)
  {
    vm.Execute(inputs, start, start + vm.chunkSize, job);
    rows := vm.memory[slot];
  }

  method ChunkBase<F(!new), E(!new)>(vm: VmBase<F, E>, inputs: seq<SmartVector<F, E>>, start: nat, slot: nat,
                                     ghost run: Run<F, E>, ghost c: nat)
    returns (rows: seq<F>)
    requires run.Valid() && AllBase(inputs) && run.inputs == inputs && BaseLoaded(vm, run) && c < run.n
    requires slot == run.Slots()[|run.nodes| - 1] && start == c * run.size
    modifies vm.memory
    ensures rows == run.BaseJob(c).Rows(|run.nodes| - 1)
  {
    BaseRuns(vm, run, c, start);
    ghost var job := run.BaseJob(c);
    rows := RunBaseChunk(vm, inputs, start, slot, job);
  }

  method EvaluateBase<F(!new), E(!new)>(p: CompiledCode<E>, t: Tower<F, E>, inputs: seq<SmartVector<F, E>>, size: nat,
                                        n: nat, ghost run: Run<F, E>)
    returns (res: seq<F>)
    requires run.Valid() && AllBase(inputs) && CodeOf(p, run.nodes)
    requires run.t == t && run.inputs == inputs && run.size == size && run.n == n
    ensures Done(res, run.BaseRows(), size, n)
  {
    ghost var want := run.BaseRows();
    var buf := new F[n * size](_ => t.base.zero);
    var vm := new VmBase(t, p.bytecode, p.constants, p.numSlots, size);
    for c := 0 to n
      invariant Done(buf[..], want, size, c)
    {
      var rows := ChunkBase(vm, inputs, c * size, p.resultSlot, run, c);
      PutChunk(buf, rows, want, size, c);
    }
    res := buf[..];
  }

  // ----- the extension path -----

  ghost predicate ExtLoaded<F(!new), E(!new)>(vm: VmExt<F, E>, run: Run<F, E>)
    requires run.Valid()
  {
    && vm.Separate()
    && vm.t == run.t && vm.bytecode == Program(run.nodes, run.Slots())
    && vm.constants == ConstantsOf(run.nodes, |run.nodes|)
    && vm.chunkSize == run.size && vm.memory.Length == AllocTo(run.nodes, |run.nodes|).next
  }

  lemma ExtRuns<F(!new), E(!new)>(vm: VmExt<F, E>, run: Run<F, E>, c: nat, start: nat)
    requires run.Valid() && ExtLoaded(vm, run) && c < run.n && start == c * run.size
    ensures vm.Runs(run.ExtJob(c), run.inputs, InputTags(run.t, run.inputs), start, start + vm.chunkSize)
  {
    Chunks.ChunkBounds(run.n, run.size, c);
  }

  method RunExtChunk<F(!new), E(!new)>(vm: VmExt<F, E>, inputs: seq<SmartVector<F, E>>, start: nat, slot: nat,
                                       ghost job: Job<E, E>, ghost tags: seq<bool>)
    returns (rows: Cell<F, E>)
    requires vm.Runs(job, inputs, tags, start, start + vm.chunkSize) && slot == job.slots[|job.nodes| - 1]
    modifies vm.memory, vm.baseMemory, vm.slotIsBase
    ensures Rows(vm.t, rows) == job.Rows(|job.nodes| - 1)
            && rows.InBase? == NodeTag(vm.t, job.nodes, tags, |job.nodes| - 1)
  {
    vm.Execute(inputs, start, start + vm.chunkSize, job, tags);
    rows := vm.Cell(slot, vm.slotIsBase[slot]);
  }

  /** Every chunk leaves its result in the same representation. */
  method ChunkExt<F(!new), E(!new)>(vm: VmExt<F, E>, inputs: seq<SmartVector<F, E>>, start: nat, slot: nat,
                                    ghost run: Run<F, E>, ghost c: nat)
    returns (rows: Cell<F, E>)
    requires run.Valid() && run.inputs == inputs && ExtLoaded(vm, run) && c < run.n
    requires slot == run.Slots()[|run.nodes| - 1] && start == c * run.size
    modifies vm.memory, vm.baseMemory, vm.slotIsBase
    ensures Rows(run.t, rows) == run.ExtJob(c).Rows(|run.nodes| - 1) && rows.InBase? == run.ResultTag()
  {
    ExtRuns(vm, run, c, start);
    ghost var job, tags := run.ExtJob(c), InputTags(run.t, inputs);
    rows := RunExtChunk(vm, inputs, start, slot, job, tags);
  }

  method EvaluateExt<F(!new), E(!new)>(p: CompiledCode<E>, t: Tower<F, E>, inputs: seq<SmartVector<F, E>>, size: nat,
                                       n: nat, ghost run: Run<F, E>)
    returns (res: seq<E>)
    requires run.Valid() && CodeOf(p, run.nodes) && !run.ResultTag()
    requires run.t == t && run.inputs == inputs && run.size == size && run.n == n
    ensures Done(res, run.ExtRows(), size, n)
  {
    ghost var want := run.ExtRows();
    var buf := new E[n * size](_ => t.ext.zero);
    var vm := new VmExt(t, p.bytecode, p.constants, p.numSlots, size);
    for c := 0 to n
      invariant Done(buf[..], want, size, c)
    {
      var rows := ChunkExt(vm, inputs, c * size, p.resultSlot, run, c);
      PutChunk(buf, rows.ext, want, size, c);
    }
    res := buf[..];
  }

  lemma LiftOverwrite<F(!new), E(!new)>(t: Tower<F, E>, res: seq<F>, start: nat, rows: seq<F>)
    requires start + |rows| <= |res|
    ensures t.LiftAll(Overwrite(res, start, rows)) == Overwrite(t.LiftAll(res), start, t.LiftAll(rows))
  {
  }

  method PutLifted<F(!new), E(!new)>(t: Tower<F, E>, buf: array<F>, rows: seq<F>, ghost want: seq<seq<E>>, size: nat,
                                     c: nat)
    requires Done(t.LiftAll(buf[..]), want, size, c) && c < |want| && t.LiftAll(rows) == want[c] && |rows| == size
    modifies buf
    ensures Done(t.LiftAll(buf[..]), want, size, c + 1)
  {
    ghost var before := buf[..];
    DoneNext(t.LiftAll(before), want, size, c);
    CopyChunk(buf, c * size, rows);
    LiftOverwrite(t, before, c * size, rows);
  }

  /** When the probe says the result stays in the base field, only the base memory is read. */
  method EvaluateExtToBase<F(!new), E(!new)>(p: CompiledCode<E>, t: Tower<F, E>, inputs: seq<SmartVector<F, E>>,
                                             size: nat, n: nat, ghost run: Run<F, E>)
    returns (res: seq<F>)
    requires run.Valid() && CodeOf(p, run.nodes) && run.ResultTag()
    requires run.t == t && run.inputs == inputs && run.size == size && run.n == n
    ensures Done(t.LiftAll(res), run.ExtRows(), size, n)
  {
    ghost var want := run.ExtRows();
    var buf := new F[n * size](_ => t.base.zero);
    var vm := new VmExt(t, p.bytecode, p.constants, p.numSlots, size);
    for c := 0 to n
      invariant Done(t.LiftAll(buf[..]), want, size, c)
    {
      var rows := ChunkExt(vm, inputs, c * size, p.resultSlot, run, c);
      PutLifted(t, buf, rows.base, want, size, c);
    }
    res := buf[..];
  }

  /** Runs the first chunk only to see where its result lies. */
  method Probe<F(!new), E(!new)>(p: CompiledCode<E>, t: Tower<F, E>, inputs: seq<SmartVector<F, E>>, size: nat,
                                 ghost run: Run<F, E>)
    returns (resultIsBase: bool)
    requires run.Valid() && CodeOf(p, run.nodes)
    requires run.t == t && run.inputs == inputs && run.size == size
    ensures resultIsBase == run.ResultTag()
  {
    var vm := new VmExt(t, p.bytecode, p.constants, p.numSlots, size);
    var rows := ChunkExt(vm, inputs, 0, p.resultSlot, run, 0);
    resultIsBase := rows.InBase?;
  }

  // ----- the rows of the two paths -----

  /** What the program computes: base rows lifted, or extension rows. */
  ghost function Wanted<F(!new), E(!new)>(run: Run<F, E>): (rows: seq<seq<E>>)
    requires run.Valid()
    ensures |rows| == run.n && forall c :: 0 <= c < run.n ==> |rows[c]| == run.size
  {
    if AllBase(run.inputs) then
      var rows := run.BaseRows();
      seq(run.n, c requires 0 <= c < run.n => run.t.LiftAll(rows[c]))
    else run.ExtRows()
  }

  ghost predicate BaseConstants<F(!new), E(!new)>(t: Tower<F, E>, nodes: seq<Node<E>>) {
    forall j :: 0 <= j < |nodes| && nodes[j].op.Constant? ==> t.IsBase(nodes[j].op.val)
  }

  /** Base evaluation and lifting commute at row i of chunk c of node j. */
  ghost predicate Commutes<F(!new), E(!new)>(run: Run<F, E>, c: nat, j: nat, i: nat)
    requires run.Valid() && AllBase(run.inputs) && c < run.n && j < |run.nodes| && i < run.size
  {
    var b, e := run.BaseJob(c), run.ExtJob(c);
    run.t.Lift(RowVal(b.r, run.nodes, b.consts, b.chunk, j, i)) == RowVal(e.r, run.nodes, e.consts, e.chunk, j, i)
  }

  /** With base constants they commute everywhere. */
  lemma {:induction false} RowLifts<F(!new), E(!new)>(run: Run<F, E>, c: nat, j: nat, i: nat)
    requires run.Valid() && AllBase(run.inputs) && BaseConstants(run.t, run.nodes)
    requires c < run.n && j < |run.nodes| && i < run.size
    ensures Commutes(run, c, j, i)
    decreases j
  {
    var t, nodes, b, e := run.t, run.nodes, run.BaseJob(c), run.ExtJob(c);
    IndexWithin(nodes, j, |nodes|);
    match nodes[j].op
    case Constant(v) =>
      assert t.BaseAt(v);
    case Variable(_) =>
    case _ =>
      assert Arity(nodes[j].op, |nodes[j].children|);
      var bs, es := ChildRows(b.r, nodes, b.consts, b.chunk, j, i), ChildRows(e.r, nodes, e.consts, e.chunk, j, i);
      forall k | 0 <= k < |bs| ensures t.Lift(bs[k]) == es[k] {
        RowLifts(run, c, nodes[j].children[k], ReadRow(nodes[j].op, k, i));
        assert Commutes(run, c, nodes[j].children[k], ReadRow(nodes[j].op, k, i));
      }
      RowStep(b.r, nodes, b.consts, b.chunk, j, i);
      RowStep(e.r, nodes, e.consts, e.chunk, j, i);
      LiftApply(t, nodes[j].op, bs, es);
  }

  lemma LiftApply<F(!new), E(!new)>(t: Tower<F, E>, op: Op<E>, bs: seq<F>, es: seq<E>)
    requires t.Lawful() && (op.Nary? || op.PolyEval?) && Arity(op, |bs|) && |es| == |bs|
    requires forall k :: 0 <= k < |bs| ==> t.Lift(bs[k]) == es[k]
    ensures t.Lift(Apply(t.base, op, bs)) == Apply(t.ext, op, es)
  {
    assert t.LiftAll(bs) == es;
    if op.Nary? {
      LiftFold(t, op.kind, op.ks, bs);
    } else {
      LiftHorner(t, bs[0], bs[1..]);
      assert t.LiftAll(bs[1..]) == es[1..];
    }
  }

  /** With base constants both paths give the extension rows. */
  lemma WantedIsExt<F(!new), E(!new)>(run: Run<F, E>)
    requires run.Valid() && (AllBase(run.inputs) ==> BaseConstants(run.t, run.nodes))
    ensures Wanted(run) == run.ExtRows()
  {
    if AllBase(run.inputs) {
      forall c | 0 <= c < run.n ensures Wanted(run)[c] == run.ExtRows()[c] {
        forall i | 0 <= i < run.size ensures Wanted(run)[c][i] == run.ExtRows()[c][i] {
          RowLifts(run, c, |run.nodes| - 1, i);
        }
      }
    }
  }

  /** And only then: a constant outside the base field is already lost at its own node. */
  lemma CommutesExactly<F(!new), E(!new)>(run: Run<F, E>)
    requires run.Valid() && AllBase(run.inputs)
    ensures BaseConstants(run.t, run.nodes) <==>
              forall c, j, i :: 0 <= c < run.n && 0 <= j < |run.nodes| && 0 <= i < run.size ==> Commutes(run, c, j, i)
  {
    if BaseConstants(run.t, run.nodes) {
      forall c, j, i | 0 <= c < run.n && 0 <= j < |run.nodes| && 0 <= i < run.size ensures Commutes(run, c, j, i) {
        RowLifts(run, c, j, i);
      }
    }
    if forall c, j, i :: 0 <= c < run.n && 0 <= j < |run.nodes| && 0 <= i < run.size ==> Commutes(run, c, j, i) {
      forall j | 0 <= j < |run.nodes| && run.nodes[j].op.Constant? ensures run.t.IsBase(run.nodes[j].op.val) {
        assert Commutes(run, 0, j, 0);
        ConstantLost(run, j);
      }
    }
  }

  lemma ConstantLost<F(!new), E(!new)>(run: Run<F, E>, j: nat)
    requires run.Valid() && AllBase(run.inputs) && j < |run.nodes| && run.nodes[j].op.Constant?
    ensures Commutes(run, 0, j, 0) ==> run.t.IsBase(run.nodes[j].op.val)
  {
    IndexWithin(run.nodes, j, |run.nodes|);
    var x := run.t.ToBase(run.nodes[j].op.val);
    assert run.t.LiftAt(x, x);
  }

  /** The base path only yields base values, so a row whose value lies outside the base field is lost. */
  lemma BaseResult<F(!new), E(!new)>(run: Run<F, E>, c: nat, i: nat)
    requires run.Valid() && AllBase(run.inputs) && c < run.n && i < run.size
    ensures run.t.IsBase(Wanted(run)[c][i])
  {
    var x := run.BaseRows()[c][i];
    assert run.t.LiftAt(x, x);
  }

  // ----- constant inputs -----

  ghost predicate ConstantColumns<T(!new)>(inputs: seq<seq<T>>) {
    forall k, i :: 0 <= k < |inputs| && 0 <= i < |inputs[k]| ==> inputs[k][i] == inputs[k][0]
  }

  lemma {:induction false} RowConstant<E(!new), T(!new)>(r: Ring<T>, nodes: seq<Node<E>>, consts: seq<T>,
                                                         inputs: seq<seq<T>>, rows: nat, j: nat, i: nat)
    requires Fits(nodes, consts, inputs, rows) && ConstantColumns(inputs) && j < |nodes| && i < rows
    ensures RowVal(r, nodes, consts, inputs, j, i) == RowVal(r, nodes, consts, inputs, j, 0)
    decreases j
  {
    if nodes[j].op.Nary? || nodes[j].op.PolyEval? {
      var vs, ws := ChildRows(r, nodes, consts, inputs, j, i), ChildRows(r, nodes, consts, inputs, j, 0);
      forall k | 0 <= k < |vs| ensures vs[k] == ws[k] {
        RowConstant(r, nodes, consts, inputs, rows, nodes[j].children[k], ReadRow(nodes[j].op, k, i));
      }
      assert vs == ws;
      RowStep(r, nodes, consts, inputs, j, i);
      RowStep(r, nodes, consts, inputs, j, 0);
    }
  }

  lemma ConstantBaseRows<F(!new), E(!new)>(run: Run<F, E>, c: nat, i: nat)
    requires run.Valid() && AllBase(run.inputs) && AllConstant(run.inputs) && c < run.n && i < run.size
    ensures run.BaseRows()[c][i] == run.BaseRows()[0][0]
  {
    var job, first := run.BaseJob(c), run.BaseJob(0);
    assert job.chunk == first.chunk;
    RowConstant(job.r, run.nodes, job.consts, job.chunk, run.size, |run.nodes| - 1, i);
  }

  lemma ConstantExtRows<F(!new), E(!new)>(run: Run<F, E>, c: nat, i: nat)
    requires run.Valid() && AllConstant(run.inputs) && c < run.n && i < run.size
    ensures run.ExtRows()[c][i] == run.ExtRows()[0][0]
  {
    var job, first := run.ExtJob(c), run.ExtJob(0);
    assert job.chunk == first.chunk;
    RowConstant(job.r, run.nodes, job.consts, job.chunk, run.size, |run.nodes| - 1, i);
  }

  /** Constant inputs give a constant result. */
  lemma ConstantResult<F(!new), E(!new)>(run: Run<F, E>, c: nat, i: nat)
    requires run.Valid() && AllConstant(run.inputs) && c < run.n && i < run.size
    ensures Wanted(run)[c][i] == Wanted(run)[0][0]
  {
    if AllBase(run.inputs) { ConstantBaseRows(run, c, i); } else { ConstantExtRows(run, c, i); }
  }
}
