/** The whole pipeline: board, compile, evaluate; at every row the value of the tree. */
module Pipeline {
  import opened Algebra
  import opened Expressions
  import opened Boards
  import opened Compiler
  import opened Vectors
  import opened SmartVectors
  import opened VariableOrder
  import opened Evaluation
  import opened Machine
  import Chunks

  ghost function RowsOf<F(!new), E(!new)>(t: Tower<F, E>, v: SmartVector<F, E>): (rows: seq<E>)
    ensures |rows| == v.Len()
  {
    seq(v.Len(), i requires 0 <= i < v.Len() => RowAt(t, v, i))
  }

  // ----- assembling the result vector -----

  lemma FillDone<T(!new)>(want: seq<seq<T>>, size: nat, x: T)
    requires forall d :: 0 <= d < |want| ==> |want[d]| == size
    requires forall d, i :: 0 <= d < |want| && 0 <= i < size ==> want[d][i] == x
    ensures Done(VFill(x, |want| * size), want, size, |want|)
  {
    forall d, i | 0 <= d < |want| && 0 <= i < size ensures RowIs(VFill(x, |want| * size), size, d, i, want[d]) {
      Chunks.ChunkBounds(|want|, size, d);
    }
  }

  lemma ConstantDone<F(!new), E(!new)>(run: Run<F, E>, x: E)
    requires run.Valid() && AllConstant(run.inputs) && x == Wanted(run)[0][0]
    ensures Done(VFill(x, run.n * run.size), Wanted(run), run.size, run.n)
  {
    var want := Wanted(run);
    forall d, i | 0 <= d < |want| && 0 <= i < run.size ensures want[d][i] == x {
      ConstantResult(run, d, i);
    }
    FillDone(want, run.size, x);
  }

  lemma LiftDone<F(!new), E(!new)>(t: Tower<F, E>, res: seq<F>, base: seq<seq<F>>, want: seq<seq<E>>, size: nat)
    requires Done(res, base, size, |base|) && |base| == |want|
    requires forall d :: 0 <= d < |base| ==> want[d] == t.LiftAll(base[d])
    ensures Done(t.LiftAll(res), want, size, |want|)
  {
    forall d, i | 0 <= d < |want| && 0 <= i < size ensures RowIs(t.LiftAll(res), size, d, i, want[d]) {
      assert RowIs(res, size, d, i, base[d]);
    }
  }

  lemma FirstRow<T(!new)>(res: seq<T>, want: seq<seq<T>>, size: nat)
    requires Done(res, want, size, |want|) && 1 <= |want| && 1 <= size
    ensures 0 < |res| && 0 < |want[0]| && res[0] == want[0][0]
  {
    assert RowIs(res, size, 0, 0, want[0]);
  }

  method AssembleBase<F(!new), E(!new)>(t: Tower<F, E>, inputs: seq<SmartVector<F, E>>, res: seq<F>,
                                        ghost run: Run<F, E>)
    returns (v: SmartVector<F, E>)
    requires run.Valid() && AllBase(inputs) && run.t == t && run.inputs == inputs
             && Done(res, run.BaseRows(), run.size, run.n)
    ensures Done(RowsOf(t, v), Wanted(run), run.size, run.n)
    ensures v.IsBase() && (v.IsConstant() <==> AllConstant(inputs))
  {
    LiftDone(t, res, run.BaseRows(), Wanted(run), run.size);
    FirstRow(t.LiftAll(res), Wanted(run), run.size);
    if AllConstant(inputs) {
      v := SmartVector.Constant(res[0], |res|);
      ConstantDone(run, t.Lift(res[0]));
      assert RowsOf(t, v) == VFill(t.Lift(res[0]), |res|);
    } else {
      v := Regular(res);
      assert RowsOf(t, v) == t.LiftAll(res);
    }
  }

  method AssembleExt<F(!new), E(!new)>(t: Tower<F, E>, inputs: seq<SmartVector<F, E>>, res: seq<E>,
                                       ghost run: Run<F, E>)
    returns (v: SmartVector<F, E>)
    requires run.Valid() && !AllBase(inputs) && run.t == t && run.inputs == inputs
             && Done(res, run.ExtRows(), run.size, run.n)
    ensures Done(RowsOf(t, v), Wanted(run), run.size, run.n)
    ensures !v.IsBase() && (v.IsConstant() <==> AllConstant(inputs))
  {
    FirstRow(res, run.ExtRows(), run.size);
    if AllConstant(inputs) {
      v := ConstantExt(res[0], |res|);
      ConstantDone(run, res[0]);
      assert RowsOf(t, v) == VFill(res[0], |res|);
    } else {
      v := RegularExt(res);
      assert RowsOf(t, v) == res;
    }
  }

  /** Evaluation of a compiled program on inputs of one common size. */
  method EvaluateCode<F(!new), E(!new)>(p: CompiledCode<E>, t: Tower<F, E>, inputs: seq<SmartVector<F, E>>, size: nat,
                                        n: nat, ghost run: Run<F, E>)
    returns (v: SmartVector<F, E>)
    requires run.Valid() && CodeOf(p, run.nodes)
    requires run.t == t && run.inputs == inputs && run.size == size && run.n == n
    ensures Done(RowsOf(t, v), Wanted(run), size, n)
    ensures (v.IsBase() <==> AllBase(inputs)) && (v.IsConstant() <==> AllConstant(inputs))
  {
    if AllBase(inputs) {
      var res := EvaluateBase(p, t, inputs, size, n, run);
      v := AssembleBase(t, inputs, res, run);
    } else {
      var resultIsBase := Probe(p, t, inputs, size, run);
      if resultIsBase {
        var resBase := EvaluateExtToBase(p, t, inputs, size, n, run);
        v := AssembleExt(t, inputs, t.LiftAll(resBase), run);
      } else {
        var res := EvaluateExt(p, t, inputs, size, n, run);
        v := AssembleExt(t, inputs, res, run);
      }
    }
  }

  ghost predicate Mismatch<F(!new), E(!new)>(inputs: seq<SmartVector<F, E>>) {
    inputs == [] || inputs[0].Len() == 0 || !AllLen(inputs, inputs[0].Len())
  }

  method CommonSize<F(!new), E(!new)>(inputs: seq<SmartVector<F, E>>) returns (total: nat)
    ensures total == 0 <==> Mismatch(inputs)
    ensures total > 0 ==> AllLen(inputs, total)
  {
    if inputs == [] { return 0; }
    total := inputs[0].Len();
    if total == 0 { return 0; }
    for i := 1 to |inputs|
      invariant forall k :: 0 <= k < i ==> inputs[k].Len() == total
    {
      if inputs[i].Len() != total { return 0; }
    }
  }

  /** The program of a board, recompiled if nodes were added since. */
  method Prepare<E(!new)>(b: ExpressionBoard<E>) returns (code: CompiledCode<E>)
    requires b.Valid() && b.nodes != []
    requires b.programNodesCount == |b.nodes| ==> b.Compiled()
    modifies b`bytecode, b`constants, b`numSlots, b`resultSlot, b`programNodesCount
    ensures b.Valid() && b.Compiled() && CodeOf(code, b.nodes)
  {
    if b.programNodesCount != |b.nodes| { b.Compile(); }
    code := CompiledCode(b.bytecode, b.constants, b.numSlots, b.resultSlot);
  }

  method EvaluateSized<F(!new), E(!new)>(code: CompiledCode<E>, t: Tower<F, E>, inputs: seq<SmartVector<F, E>>,
                                         total: nat, ghost nodes: seq<Node<E>>)
    returns (v: SmartVector<F, E>, ghost run: Run<F, E>)
    requires t.Lawful() && CodeOf(code, nodes) && |inputs| >= InputIndex(nodes, |nodes|) && 1 <= total
             && AllLen(inputs, total)
    ensures Evaluated(nodes, t, inputs, v, run)
  {
    var size := Chunks.ChunkSize(code.numSlots, total);
    var n := total / size;
    Chunks.Exact(total, size);
    run := Run(t, nodes, inputs, size, n);
    v := EvaluateCode(code, t, inputs, size, n, run);
  }

  method Evaluate<F(!new), E(!new)>(b: ExpressionBoard<E>, t: Tower<F, E>, inputs: seq<SmartVector<F, E>>)
    returns (out: Outcome<F, E>, ghost run: Run<F, E>)
    requires t.Lawful() && b.Valid() && b.nodes != [] && |inputs| >= InputIndex(b.nodes, |b.nodes|)
    requires b.programNodesCount == |b.nodes| ==> b.Compiled()
    modifies b`bytecode, b`constants, b`numSlots, b`resultSlot, b`programNodesCount
    ensures b.Valid() && b.Compiled()
    ensures out.Panic? <==> Mismatch(inputs)
    ensures out.Vector? ==> Evaluated(b.nodes, t, inputs, out.v, run)
  {
    var code := Prepare(b);
    var total := CommonSize(inputs);
    if total == 0 {
      out, run := Panic, Run(t, b.nodes, inputs, 0, 0);
    } else {
      var v;
      v, run := EvaluateSized(code, t, inputs, total, b.nodes);
      out := Vector(v);
    }
  }

  /** The vector holds the rows the nodes compute, in a class fitting the inputs. */
  ghost predicate Evaluated<F(!new), E(!new)>(nodes: seq<Node<E>>, t: Tower<F, E>, inputs: seq<SmartVector<F, E>>,
                                              v: SmartVector<F, E>, run: Run<F, E>)
  {
    && run.Valid() && run.t == t && run.nodes == nodes && run.inputs == inputs
    && Done(RowsOf(t, v), Wanted(run), run.size, run.n)
    && (v.IsBase() <==> AllBase(inputs)) && (v.IsConstant() <==> AllConstant(inputs))
  }

  // ----- the meaning of the rows -----

  /** The assignment of each row gives the k-th listed variable the k-th input. */
  ghost predicate RowEnvs<F(!new), E(!new)>(t: Tower<F, E>, vars: seq<Meta>, inputs: seq<SmartVector<F, E>>,
                                            envs: seq<Env<E>>) {
    && |vars| <= |inputs| && AllLen(inputs, |envs|)
    && forall u, k :: 0 <= u < |envs| && 0 <= k < |vars| ==> Lookup(t.ext, envs[u], vars[k]) == RowAt(t, inputs[k], u)
  }

  /** The expression is evaluated faithfully at every row. */
  ghost predicate Sharable<E(!new)>(r: Ring<E>, e: Expr<E>, envs: seq<Env<E>>) {
    && (forall u :: 0 <= u < |envs| ==> Faithful(r, Subs(e), envs[u]))
    && RowConstantPoints(r, Subs(e), envs)
  }

  lemma SharablePart<E(!new)>(r: Ring<E>, e: Expr<E>, envs: seq<Env<E>>, start: nat, stop: nat)
    requires Sharable(r, e, envs) && start <= stop <= |envs|
    ensures Sharable(r, e, envs[start..stop])
  {
    var part := envs[start..stop];
    forall x, u | x in Subs(e) && x.op.PolyEval? && x.children != [] && 0 <= u < |part|
      ensures Eval(r, x.children[0], part[u]) == Eval(r, x.children[0], part[0])
    {
      assert part[u] == envs[start + u] && part[0] == envs[start];
    }
  }

  /** A chunk of the inputs is described by the assignments of its rows. */
  lemma ChunkAssigns<F(!new), E(!new)>(t: Tower<F, E>, nodes: seq<Node<E>>, inputs: seq<SmartVector<F, E>>,
                                       envs: seq<Env<E>>, start: nat, stop: nat)
    requires RowEnvs(t, Listed(nodes), inputs, envs) && start <= stop <= |envs|
    ensures var part := envs[start..stop];
            forall u :: 0 <= u < |part| ==> Assigns(t.ext, nodes, ExtChunks(t, inputs, start, stop), u, part[u])
  {
    var chunk, part := ExtChunks(t, inputs, start, stop), envs[start..stop];
    forall u, j | 0 <= u < |part| && 0 <= j < |nodes| && nodes[j].op.Variable?
      ensures InputIndex(nodes, j) < |chunk|
      ensures Lookup(t.ext, part[u], nodes[j].op.meta) == chunk[InputIndex(nodes, j)][u]
    {
      IndexWithin(nodes, j, |nodes|);
      ExtChunkRow(t, inputs[InputIndex(nodes, j)], start, stop, u);
      assert part[u] == envs[start + u];
    }
  }

  /** The root of the board of e, over any columns that the assignments describe. */
  lemma RootMeaning<E(!new)>(r: Ring<E>, e: Expr<E>, inputs: seq<seq<E>>, envs: seq<Env<E>>, i: nat)
    requires var nodes := Board(e).nodes;
             && Fits(nodes, ConstantsOf(nodes, |nodes|), inputs, |envs|) && Sharable(r, e, envs) && i < |envs|
             && (forall u :: 0 <= u < |envs| ==> Assigns(r, nodes, inputs, u, envs[u]))
    ensures var nodes := Board(e).nodes;
            nodes != [] && RowVal(r, nodes, ConstantsOf(nodes, |nodes|), inputs, |nodes| - 1, i) == Eval(r, e, envs[i])
  {
    BoardShape(e);
    SubsClosed(e);
    NodeMeaning(r, Board(e), Subs(e), inputs, envs, |Board(e).nodes| - 1, i, e);
  }

  /** The same for a range of the rows of the inputs. */
  lemma PartMeaning<F(!new), E(!new)>(t: Tower<F, E>, e: Expr<E>, nodes: seq<Node<E>>, inputs: seq<SmartVector<F, E>>,
                                      envs: seq<Env<E>>, start: nat, stop: nat, i: nat, val: E)
    requires nodes == Board(e).nodes && Sorted(nodes) && nodes != []
    requires RowEnvs(t, Listed(nodes), inputs, envs) && Sharable(t.ext, e, envs) && start + i < stop <= |envs|
    requires val == RowVal(t.ext, nodes, ConstantsOf(nodes, |nodes|), ExtChunks(t, inputs, start, stop), |nodes| - 1, i)
    ensures val == Eval(t.ext, e, envs[start + i])
  {
    var part := envs[start..stop];
    SharablePart(t.ext, e, envs, start, stop);
    ChunkAssigns(t, nodes, inputs, envs, start, stop);
    RootMeaning(t.ext, e, ExtChunks(t, inputs, start, stop), part, i);
    assert part[i] == envs[start + i];
  }

  lemma WantedAt<T(!new)>(res: seq<T>, want: seq<seq<T>>, size: nat, row: nat) returns (c: nat, start: nat, i: nat)
    requires Done(res, want, size, |want|) && row < |res| && 1 <= size
    ensures c < |want| && start == c * size && start + size <= |res| && i < size && row == start + i
    ensures i < |want[c]| && res[row] == want[c][i]
  {
    Chunks.Locate(|want|, size, row);
    c, i := row / size, row % size;
    start := c * size;
    Chunks.ChunkBounds(|want|, size, c);
    assert RowIs(res, size, c, i, want[c]);
  }

  /** The values of the expression, row by row. */
  ghost function Values<E(!new)>(r: Ring<E>, e: Expr<E>, envs: seq<Env<E>>): (vs: seq<E>)
    ensures |vs| == |envs|
  {
    seq(|envs|, u requires 0 <= u < |envs| => Eval(r, e, envs[u]))
  }

  /** The assignments describe the inputs, and sharing is safe for them. */
  ghost predicate Described<F(!new), E(!new)>(t: Tower<F, E>, e: Expr<E>, inputs: seq<SmartVector<F, E>>,
                                              envs: seq<Env<E>>)
  {
    RowEnvs(t, Listed(Board(e).nodes), inputs, envs) && Sharable(t.ext, e, envs)
  }

  /** The job evaluates the board of e over the rows of the inputs from start on. */
  ghost predicate JobFits<F(!new), E(!new)>(job: Job<E, E>, t: Tower<F, E>, e: Expr<E>,
                                            inputs: seq<SmartVector<F, E>>, start: nat)
  {
    && job.Valid() && job.r == t.ext && job.nodes == Board(e).nodes && job.nodes != []
    && job.consts == ConstantsOf(job.nodes, |job.nodes|)
    && (forall k :: 0 <= k < |inputs| ==> start + job.len <= inputs[k].Len())
    && job.chunk == ExtChunks(t, inputs, start, start + job.len)
  }

  /** The rows of a chunk are the values of the expression at those rows. */
  lemma JobMeaning<F(!new), E(!new)>(job: Job<E, E>, t: Tower<F, E>, e: Expr<E>, inputs: seq<SmartVector<F, E>>,
                                     envs: seq<Env<E>>, start: nat, i: nat, val: E)
    requires JobFits(job, t, e, inputs, start) && Described(t, e, inputs, envs) && start + job.len <= |envs|
    requires i < job.len && val == job.Rows(|job.nodes| - 1)[i]
    ensures val == Eval(t.ext, e, envs[start + i])
  {
    PartMeaning(t, e, job.nodes, inputs, envs, start, start + job.len, i, val);
  }

  lemma ChunkWithin<F(!new), E(!new)>(run: Run<F, E>, c: nat, start: nat)
    requires run.Valid() && c < run.n && start == c * run.size
    ensures start + run.size <= run.n * run.size
    ensures forall k :: 0 <= k < |run.inputs| ==> start + run.size <= run.inputs[k].Len()
  {
    Chunks.ChunkBounds(run.n, run.size, c);
  }

  lemma ChunkInput<F(!new), E(!new)>(run: Run<F, E>, c: nat, start: nat, job: Job<E, E>)
    requires run.Valid() && c < run.n && start == c * run.size && job == run.ExtJob(c)
    requires forall k :: 0 <= k < |run.inputs| ==> start + run.size <= run.inputs[k].Len()
    ensures job.consts == ConstantsOf(run.nodes, |run.nodes|)
    ensures job.chunk == ExtChunks(run.t, run.inputs, start, start + run.size)
  {
  }

  lemma JobShape<F(!new), E(!new)>(run: Run<F, E>, c: nat, job: Job<E, E>)
    requires run.Valid() && c < run.n && job == run.ExtJob(c)
    ensures job.Valid() && job.r == run.t.ext && job.nodes == run.nodes && job.nodes != [] && job.len == run.size
  {
  }

  lemma ChunkJob<F(!new), E(!new)>(run: Run<F, E>, e: Expr<E>, c: nat, start: nat, job: Job<E, E>)
    requires run.Valid() && run.nodes == Board(e).nodes && c < run.n && start == c * run.size && job == run.ExtJob(c)
    ensures JobFits(job, run.t, e, run.inputs, start)
    ensures job.len == run.size && start + run.size <= run.n * run.size
  {
    ChunkWithin(run, c, start);
    ChunkInput(run, c, start, job);
    JobShape(run, c, job);
  }

  lemma ChunkMeaning<F(!new), E(!new)>(run: Run<F, E>, e: Expr<E>, envs: seq<Env<E>>, c: nat, start: nat, i: nat,
                                       job: Job<E, E>, val: E)
    requires run.Valid() && run.nodes == Board(e).nodes && c < run.n && start == c * run.size && i < run.size
    requires Described(run.t, e, run.inputs, envs) && |envs| == run.n * run.size
    requires job == run.ExtJob(c) && val == job.Rows(|job.nodes| - 1)[i]
    ensures start + i < |envs| && val == Eval(run.t.ext, e, envs[start + i])
  {
    ChunkJob(run, e, c, start, job);
    JobMeaning(job, run.t, e, run.inputs, envs, start, i, val);
  }

  lemma PlacedValue<E(!new)>(r: Ring<E>, e: Expr<E>, envs: seq<Env<E>>, size: nat, c: nat, start: nat, i: nat,
                             rows: seq<E>)
    requires start == c * size && i < |rows| && start + i < |envs| && rows[i] == Eval(r, e, envs[start + i])
    ensures RowIs(Values(r, e, envs), size, c, i, rows)
  {
  }

  lemma ValueRow<F(!new), E(!new)>(run: Run<F, E>, e: Expr<E>, envs: seq<Env<E>>, c: nat, i: nat, rows: seq<E>)
    requires run.Valid() && run.nodes == Board(e).nodes && c < run.n && i < run.size
    requires Described(run.t, e, run.inputs, envs) && |envs| == run.n * run.size
    requires rows == run.ExtJob(c).Rows(|run.nodes| - 1)
    ensures RowIs(Values(run.t.ext, e, envs), run.size, c, i, rows)
  {
    ChunkMeaning(run, e, envs, c, c * run.size, i, run.ExtJob(c), rows[i]);
    PlacedValue(run.t.ext, e, envs, run.size, c, c * run.size, i, rows);
  }

  lemma ValuesDone<F(!new), E(!new)>(run: Run<F, E>, e: Expr<E>, envs: seq<Env<E>>, vals: seq<E>, want: seq<seq<E>>)
    requires run.Valid() && run.nodes == Board(e).nodes && |envs| == run.n * run.size
    requires Described(run.t, e, run.inputs, envs)
    requires want == run.ExtRows() && vals == Values(run.t.ext, e, envs)
    ensures Done(vals, want, run.size, run.n)
  {
    forall d, i | 0 <= d < run.n && 0 <= i < run.size ensures RowIs(vals, run.size, d, i, want[d]) {
      ValueRow(run, e, envs, d, i, want[d]);
    }
  }

  /** The wanted chunks determine the rows. */
  lemma DoneUnique<T(!new)>(a: seq<T>, b: seq<T>, want: seq<seq<T>>, size: nat)
    requires Done(a, want, size, |want|) && Done(b, want, size, |want|) && 1 <= size
    ensures a == b
  {
    forall row | 0 <= row < |a| ensures a[row] == b[row] {
      var c, start, i := WantedAt(a, want, size, row);
      assert RowIs(b, size, c, i, want[c]);
    }
  }

  /** The same and, when all inputs are base vectors, so are the constants. */
  ghost predicate Describes<F(!new), E(!new)>(t: Tower<F, E>, e: Expr<E>, inputs: seq<SmartVector<F, E>>,
                                              envs: seq<Env<E>>)
  {
    Described(t, e, inputs, envs) && (AllBase(inputs) ==> BaseConstants(t, Board(e).nodes))
  }

  lemma EvaluatedMeaning<F(!new), E(!new)>(run: Run<F, E>, e: Expr<E>, envs: seq<Env<E>>, v: SmartVector<F, E>)
    requires Evaluated(Board(e).nodes, run.t, run.inputs, v, run) && run.inputs != []
    requires Describes(run.t, e, run.inputs, envs)
    ensures RowsOf(run.t, v) == Values(run.t.ext, e, envs)
  {
    assert run.inputs[0].Len() == |envs|;
    WantedIsExt(run);
    var vals, want := Values(run.t.ext, e, envs), run.ExtRows();
    ValuesDone(run, e, envs, vals, want);
    DoneUnique(RowsOf(run.t, v), vals, want, run.size);
  }

  // ----- assignments from the input columns -----

  /** The assignment of row u: the n first listed variables with their inputs. */
  ghost function EnvAt<F(!new), E(!new)>(t: Tower<F, E>, vars: seq<Meta>, inputs: seq<SmartVector<F, E>>, u: nat,
                                         n: nat): Env<E>
    requires n <= |vars| <= |inputs| && forall k :: 0 <= k < |inputs| ==> u < inputs[k].Len()
  {
    if n == 0 then map[] else EnvAt(t, vars, inputs, u, n - 1)[vars[n - 1] := RowAt(t, inputs[n - 1], u)]
  }

  lemma {:induction false} EnvAtLookup<F(!new), E(!new)>(t: Tower<F, E>, vars: seq<Meta>,
                                                         inputs: seq<SmartVector<F, E>>, u: nat, n: nat, k: nat)
    requires n <= |vars| <= |inputs| && forall k :: 0 <= k < |inputs| ==> u < inputs[k].Len()
    requires NoDuplicates(vars) && k < n
    ensures Lookup(t.ext, EnvAt(t, vars, inputs, u, n), vars[k]) == RowAt(t, inputs[k], u)
  {
    if k < n - 1 { EnvAtLookup(t, vars, inputs, u, n - 1, k); }
  }

  /** The columns of any expression whose variables are listed once describe assignments. */
  lemma RowEnvsExist<F(!new), E(!new)>(t: Tower<F, E>, vars: seq<Meta>, inputs: seq<SmartVector<F, E>>, total: nat)
    returns (envs: seq<Env<E>>)
    requires NoDuplicates(vars) && |vars| <= |inputs| && AllLen(inputs, total)
    ensures |envs| == total && RowEnvs(t, vars, inputs, envs)
  {
    envs := seq(total, u requires 0 <= u < total => EnvAt(t, vars, inputs, u, |vars|));
    forall u, k | 0 <= u < total && 0 <= k < |vars| ensures Lookup(t.ext, envs[u], vars[k]) == RowAt(t, inputs[k], u) {
      EnvAtLookup(t, vars, inputs, u, |vars|, k);
    }
  }

  /** For every expression and every input the rows are described by assignments. */
  lemma InputsAssign<F(!new), E(!new)>(t: Tower<F, E>, h: Env<E>, e: Expr<E>, inputs: seq<SmartVector<F, E>>,
                                       total: nat)
    returns (envs: seq<Env<E>>)
    requires WellFormed(e) && LeavesHashed(t.ext, h, e) && |inputs| >= |Listed(Board(e).nodes)| && AllLen(inputs, total)
    ensures |envs| == total && RowEnvs(t, Listed(Board(e).nodes), inputs, envs)
  {
    BoardListsOnce(t.ext, h, e);
    envs := RowEnvsExist(t, Listed(Board(e).nodes), inputs, total);
  }

  /** Board, compile and evaluate: despite sharing by hash, slot reuse, chunking and the two
      memories, the vector holds at every row the value of the expression tree. */
  method EvaluateExpression<F(!new), E(==, !new)>(t: Tower<F, E>, e: Expr<E>, inputs: seq<SmartVector<F, E>>,
                                                  ghost envs: seq<Env<E>>)
    returns (out: Outcome<F, E>)
    requires t.Lawful() && WellFormed(e) && |inputs| >= |Listed(Board(e).nodes)|
    ensures out.Panic? <==> Mismatch(inputs)
    ensures out.Vector? ==> out.v.Len() == inputs[0].Len()
    ensures out.Vector? && Describes(t, e, inputs, envs) ==> RowsOf(t, out.v) == Values(t.ext, e, envs)
  {
    var b := new ExpressionBoard();
    var id := b.Anchor(e);
    BoardShape(e);
    BoardWellFormed(b.nodes, e);
    ghost var run;
    out, run := Evaluate(b, t, inputs);
    if out.Vector? && Describes(t, e, inputs, envs) {
      EvaluatedMeaning(run, e, envs, out.v);
    }
  }
}
