/** Expression boards: anchoring expressions and compiling the node list to bytecode. */
module Compiler {
  import opened Expressions
  import opened Boards
  import opened Allocation

  const OP_LOAD_CONST := 0
  const OP_LOAD_INPUT := 1
  const OP_MUL := 2
  const OP_LIN_COMB := 3
  const OP_POLY_EVAL := 4

  // ----- the shape of the bytecode -----

  ghost predicate NodesWellFormed<E(!new)>(nodes: seq<Node<E>>) {
    forall i :: 0 <= i < |nodes| ==> Arity(nodes[i].op, |nodes[i].children|)
  }

  lemma BoardWellFormed<E(!new)>(nodes: seq<Node<E>>, e: Expr<E>)
    requires WellFormed(e) && Backed(nodes, Subs(e))
    ensures NodesWellFormed(nodes)
  {
    forall i | 0 <= i < |nodes| ensures Arity(nodes[i].op, |nodes[i].children|) {
      assert HasSource(nodes, i, Subs(e));
      var x :| x in Subs(e) && Represents(nodes, i, x);
      SubsWellFormed(e, x);
    }
  }

  function Operands(slots: seq<nat>, children: seq<nat>): (xs: seq<int>)
    requires forall k :: 0 <= k < |children| ==> children[k] < |slots|
    ensures |xs| == |children|
  {
    seq(|children|, k requires 0 <= k < |children| => slots[children[k]])
  }

  function Interleave(xs: seq<int>, ys: seq<int>): (zs: seq<int>)
    requires |xs| == |ys|
    ensures |zs| == 2 * |xs|
  {
    if xs == [] then []
    else
      var n := |xs| - 1;
      Interleave(xs[..n], ys[..n]) + [xs[n], ys[n]]
  }

  lemma {:induction false} InterleaveAt(xs: seq<int>, ys: seq<int>, k: nat)
    requires |xs| == |ys| && k < |xs|
    ensures Interleave(xs, ys)[2 * k] == xs[k] && Interleave(xs, ys)[2 * k + 1] == ys[k]
  {
    var n := |xs| - 1;
    if k < n { InterleaveAt(xs[..n], ys[..n], k); }
  }

  /** The instruction of node i: opcode, destination, and operands. */
  function Code<E(!new)>(nodes: seq<Node<E>>, slots: seq<nat>, i: nat): seq<int>
    requires Sorted(nodes) && NodesWellFormed(nodes) && i < |slots| <= |nodes|
  {
    var cs := nodes[i].children;
    match nodes[i].op
    case Constant(_) => [OP_LOAD_CONST, slots[i], ConstIndex(nodes, i)]
    case Variable(_) => [OP_LOAD_INPUT, slots[i], InputIndex(nodes, i)]
    case Nary(kind, ks) =>
      assert Arity(nodes[i].op, |cs|);
      [if kind.Prod? then OP_MUL else OP_LIN_COMB, slots[i], |cs|] + Interleave(Operands(slots, cs), ks)
    case PolyEval => [OP_POLY_EVAL, slots[i], |cs|] + Operands(slots, cs)
  }

  lemma CodeShape<E(!new)>(nodes: seq<Node<E>>, slots: seq<nat>, i: nat)
    requires Sorted(nodes) && NodesWellFormed(nodes) && i < |slots| <= |nodes|
    ensures var code, op, n := Code(nodes, slots, i), nodes[i].op, |nodes[i].children|;
            && |code| >= 3 && code[1] == slots[i]
            && (op.Constant? ==> code[0] == OP_LOAD_CONST && |code| == 3)
            && (op.Variable? ==> code[0] == OP_LOAD_INPUT && |code| == 3)
            && (op.Nary? ==>
              code[0] == (if op.kind.Prod? then OP_MUL else OP_LIN_COMB) && code[2] == n && |code| == 3 + 2 * n)
            && (op.PolyEval? ==> code[0] == OP_POLY_EVAL && code[2] == n && |code| == 3 + n)
  {
  }

  function Flat(codes: seq<seq<int>>): seq<int> {
    if codes == [] then [] else Flat(codes[..|codes| - 1]) + codes[|codes| - 1]
  }

  /** Entry i of a flattened list starts where the first i entries end. */
  lemma {:induction false} FlatAt(codes: seq<seq<int>>, i: nat)
    requires i < |codes|
    ensures var pc := |Flat(codes[..i])|;
            && |Flat(codes[..i + 1])| == pc + |codes[i]| <= |Flat(codes)|
            && Flat(codes)[pc..pc + |codes[i]|] == codes[i]
    decreases |codes|
  {
    var n := |codes| - 1;
    if i < n {
      FlatAt(codes[..n], i);
      assert codes[..n][..i] == codes[..i] && codes[..n][..i + 1] == codes[..i + 1];
      var pc := |Flat(codes[..i])|;
      assert Flat(codes)[pc..pc + |codes[i]|] == Flat(codes[..n])[pc..pc + |codes[i]|];
    } else {
      assert codes[..i + 1] == codes;
    }
  }

  function Codes<E(!new)>(nodes: seq<Node<E>>, slots: seq<nat>): (codes: seq<seq<int>>)
    requires Sorted(nodes) && NodesWellFormed(nodes) && |slots| <= |nodes|
    ensures |codes| == |slots|
  {
    seq(|slots|, i requires 0 <= i < |slots| => Code(nodes, slots, i))
  }

  /** The bytecode: the instructions of all nodes one after the other. */
  function Program<E(!new)>(nodes: seq<Node<E>>, slots: seq<nat>): seq<int>
    requires Sorted(nodes) && NodesWellFormed(nodes) && |slots| <= |nodes|
  {
    Flat(Codes(nodes, slots))
  }

  /** Where the instruction of node i starts. */
  ghost function Start<E(!new)>(nodes: seq<Node<E>>, slots: seq<nat>, i: nat): nat
    requires Sorted(nodes) && NodesWellFormed(nodes) && i <= |slots| <= |nodes|
  {
    |Flat(Codes(nodes, slots)[..i])|
  }

  lemma CodeAt<E(!new)>(nodes: seq<Node<E>>, slots: seq<nat>, i: nat)
    requires Sorted(nodes) && NodesWellFormed(nodes) && i < |slots| <= |nodes|
    ensures var pc, code := Start(nodes, slots, i), Code(nodes, slots, i);
            && Start(nodes, slots, i + 1) == pc + |code| <= |Program(nodes, slots)|
            && Program(nodes, slots)[pc..pc + |code|] == code
  {
    FlatAt(Codes(nodes, slots), i);
  }

  lemma SliceAt(s: seq<int>, a: nat, zs: seq<int>, j: nat)
    requires a + |zs| <= |s| && s[a..a + |zs|] == zs && j < |zs|
    ensures s[a + j] == zs[j]
  {
    assert s[a + j] == s[a..a + |zs|][j];
  }

  lemma ProgramEnds<E(!new)>(nodes: seq<Node<E>>, slots: seq<nat>, i: nat)
    requires Sorted(nodes) && NodesWellFormed(nodes) && i <= |slots| <= |nodes|
    ensures Start(nodes, slots, 0) == 0
    ensures Start(nodes, slots, i) < |Program(nodes, slots)| <==> i < |slots|
  {
    assert Codes(nodes, slots)[..|slots|] == Codes(nodes, slots);
    if i < |slots| {
      CodeAt(nodes, slots, i);
      CodeShape(nodes, slots, i);
    }
  }

  /** Code does not depend on the slots of later nodes. */
  lemma CodeStable<E(!new)>(nodes: seq<Node<E>>, slots: seq<nat>, dst: nat, i: nat)
    requires Sorted(nodes) && NodesWellFormed(nodes) && i < |slots| < |nodes|
    ensures Code(nodes, slots + [dst], i) == Code(nodes, slots, i)
  {
    var cs := nodes[i].children;
    assert Operands(slots + [dst], cs) == Operands(slots, cs);
  }

  lemma ProgramSnoc<E(!new)>(nodes: seq<Node<E>>, slots: seq<nat>, dst: nat)
    requires Sorted(nodes) && NodesWellFormed(nodes) && |slots| < |nodes|
    ensures Program(nodes, slots + [dst]) == Program(nodes, slots) + Code(nodes, slots + [dst], |slots|)
  {
    forall i | 0 <= i < |slots| ensures Codes(nodes, slots + [dst])[i] == Codes(nodes, slots)[i] {
      CodeStable(nodes, slots, dst, i);
    }
    assert Codes(nodes, slots + [dst])[..|slots|] == Codes(nodes, slots);
  }

  // ----- liveness and release, as the compiler computes them -----

  method Liveness<E(!new)>(nodes: seq<Node<E>>) returns (lastUse: seq<int>)
    requires Sorted(nodes) && nodes != []
    ensures |lastUse| == |nodes|
    ensures forall j :: 0 <= j < |nodes| ==> lastUse[j] == LastUse(nodes, j)
  {
    var last := new int[|nodes|](_ => -1);
    last[|nodes| - 1] := |nodes|;
    for i := 0 to |nodes|
      invariant forall j :: 0 <= j < |nodes| ==> last[j] == LastUseTo(nodes, j, i)
    {
      var cs := nodes[i].children;
      for k := 0 to |cs|
        invariant forall j :: 0 <= j < |nodes| ==>
                    last[j] == if j in cs[..k] && i > LastUseTo(nodes, j, i) then i else LastUseTo(nodes, j, i)
      {
        assert cs[..k + 1] == cs[..k] + [cs[k]];
        if i > last[cs[k]] { last[cs[k]] := i; }
      }
      assert cs[..|cs|] == cs;
    }
    return last[..];
  }

  /** Frees the slots of the children whose last reader is node i, each slot once. */
  method FreeChildren<E(!new)>(nodes: seq<Node<E>>, i: nat, slots: seq<nat>, free: seq<nat>, lastUse: seq<int>)
    returns (free': seq<nat>)
    requires Sorted(nodes) && i < |nodes| && |slots| == i + 1 && |lastUse| == |nodes|
    requires forall j :: 0 <= j < |nodes| ==> lastUse[j] == LastUse(nodes, j)
    ensures free' == free + Released(nodes, slots, i, |nodes[i].children|)
  {
    var freed: set<nat> := {};
    free' := free;
    for k := 0 to |nodes[i].children|
      invariant free' == free + Released(nodes, slots, i, k)
      invariant forall s :: s in freed <==> s in Released(nodes, slots, i, k)
    {
      var c := nodes[i].children[k];
      if lastUse[c] == i && slots[c] !in freed {
        free', freed := free' + [slots[c]], freed + {slots[c]};
      }
    }
  }

  /** One node: a slot for the result, the instruction, then the release of dead operands. */
  method CompileNode<E(!new)>(nodes: seq<Node<E>>, i: nat, alloc: Alloc, code: seq<int>, constCount: nat,
                              inputCursor: nat, lastUse: seq<int>)
    returns (alloc': Alloc, code': seq<int>)
    requires Sorted(nodes) && NodesWellFormed(nodes) && i < |nodes| && |alloc.slots| == i
    requires constCount == ConstIndex(nodes, i) && inputCursor == InputIndex(nodes, i)
    requires |lastUse| == |nodes| && forall j :: 0 <= j < |nodes| ==> lastUse[j] == LastUse(nodes, j)
    ensures alloc' == Advance(nodes, alloc)
    ensures code' == code + Code(nodes, alloc.slots + [Target(alloc)], i)
  {
    var free, next, dst := alloc.free, alloc.next, alloc.next;
    if |free| > 0 {
      dst, free := free[|free| - 1], free[..|free| - 1];
    } else {
      next := next + 1;
    }
    var slots := alloc.slots + [dst];
    var instruction := Emit(nodes, i, slots, constCount, inputCursor);
    code' := code + instruction;
    free := FreeChildren(nodes, i, slots, free, lastUse);
    alloc' := Alloc(slots, free, next);
  }

  /** Appends the instruction of node i. */
  method Emit<E(!new)>(nodes: seq<Node<E>>, i: nat, slots: seq<nat>, constCount: nat, inputCursor: nat)
    returns (code: seq<int>)
    requires Sorted(nodes) && NodesWellFormed(nodes) && i < |nodes| && |slots| == i + 1
    requires constCount == ConstIndex(nodes, i) && inputCursor == InputIndex(nodes, i)
    ensures code == Code(nodes, slots, i)
  {
    var cs := nodes[i].children;
    match nodes[i].op
    case Constant(_) => code := [OP_LOAD_CONST, slots[i], constCount];
    case Variable(_) => code := [OP_LOAD_INPUT, slots[i], inputCursor];
    case Nary(kind, ks) =>
      assert Arity(nodes[i].op, |cs|);
      var head := [if kind.Prod? then OP_MUL else OP_LIN_COMB, slots[i], |cs|];
      var args := [];
      for k := 0 to |cs|
        invariant args == Interleave(Operands(slots, cs)[..k], ks[..k])
      {
        args := args + [slots[cs[k]], ks[k]];
        assert Operands(slots, cs)[..k + 1][..k] == Operands(slots, cs)[..k] && ks[..k + 1][..k] == ks[..k];
      }
      assert Operands(slots, cs)[..|cs|] == Operands(slots, cs) && ks[..|cs|] == ks;
      code := head + args;
    case PolyEval =>
      var args: seq<int> := [];
      for k := 0 to |cs|
        invariant args == Operands(slots, cs)[..k]
      {
        args := args + [slots[cs[k]]];
      }
      code := [OP_POLY_EVAL, slots[i], |cs|] + args;
  }

  /** Allocation and instruction generation over all nodes. */
  method Generate<E(!new)>(nodes: seq<Node<E>>) returns (code: seq<int>, consts: seq<E>, alloc: Alloc)
    requires Sorted(nodes) && NodesWellFormed(nodes) && nodes != []
    ensures alloc == AllocTo(nodes, |nodes|)
    ensures code == Program(nodes, alloc.slots)
    ensures consts == ConstantsOf(nodes, |nodes|)
  {
    var lastUse := Liveness(nodes);
    var inputCursor := 0;
    code, consts, alloc := [], [], Alloc([], [], 0);
    for i := 0 to |nodes|
      invariant alloc == AllocTo(nodes, i)
      invariant code == Program(nodes, alloc.slots)
      invariant consts == ConstantsOf(nodes, i)
      invariant inputCursor == InputIndex(nodes, i)
    {
      ProgramSnoc(nodes, alloc.slots, Target(alloc));
      alloc, code := CompileNode(nodes, i, alloc, code, |consts|, inputCursor, lastUse);
      if nodes[i].op.Constant? { consts := consts + [nodes[i].op.val]; }
      if nodes[i].op.Variable? { inputCursor := inputCursor + 1; }
    }
  }

  class ExpressionBoard<E(==,!new)> {
    var nodes: seq<Node<E>>
    var pos: map<E, nat>
    var bytecode: seq<int>
    var constants: seq<E>
    var numSlots: nat
    var resultSlot: nat
    var programNodesCount: nat

    ghost function Contents(): Dag<E>
      reads this
    {
      Dag(nodes, pos)
    }

    ghost predicate Valid()
      reads this
    {
      Sorted(nodes) && NodesWellFormed(nodes)
    }

    ghost function Slots(): seq<nat>
      requires Sorted(nodes)
      reads this
    {
      AllocTo(nodes, |nodes|).slots
    }

    /** The program belongs to the node list. */
    ghost predicate Compiled()
      requires Valid()
      reads this
    {
      && programNodesCount == |nodes|
      && bytecode == Program(nodes, Slots())
      && constants == ConstantsOf(nodes, |nodes|)
      && numSlots == AllocTo(nodes, |nodes|).next
      && (nodes != [] ==> resultSlot == Slots()[|nodes| - 1])
    }

    /** An empty board. */
    constructor ()
      ensures Contents() == Dag([], map[]) && Valid() && programNodesCount == 0
    {
      nodes, pos := [], map[];
      bytecode, constants, numSlots, resultSlot, programNodesCount := [], [], 0, 0, 0;
    }

    /** Pins an expression onto the board, its children first. */
    method Anchor(e: Expr<E>) returns (id: nat)
      modifies this`nodes, this`pos
      ensures (Contents(), id) == Boards.Anchor(old(Contents()), e)
      decreases e
    {
      if e.esh in pos { return pos[e.esh]; }
      var ids: seq<nat> := [];
      for k := 0 to |e.children|
        invariant (Contents(), ids) == AnchorAll(old(Contents()), e.children[..k])
      {
        var childId := Anchor(e.children[k]);
        ids := ids + [childId];
        assert e.children[..k + 1][..k] == e.children[..k];
      }
      assert e.children[..|e.children|] == e.children;
      id := |nodes|;
      pos := pos[e.esh := id];
      nodes := nodes + [Node(e.esh, e.op, ids)];
    }

    method Compile()
      requires Valid()
      modifies this`bytecode, this`constants, this`numSlots, this`resultSlot, this`programNodesCount
      ensures Compiled()
    {
      if nodes == [] {
        bytecode, constants, numSlots, programNodesCount := [], [], 0, 0;
        return;
      }
      var code, consts, alloc := Generate(nodes);
      bytecode, constants, numSlots := code, consts, alloc.next;
      resultSlot, programNodesCount := alloc.slots[|nodes| - 1], |nodes|;
    }

    /** BytecodeStats: walking the bytecode finds exactly one instruction per node. */
    method BytecodeStats() returns (stats: Stats)
      requires Valid() && Compiled()
      ensures stats == CountNodes(nodes, |nodes|)
    {
      stats := Stats(0, 0, 0, 0, 0);
      var pc := 0;
      ghost var i := 0;
      ProgramEnds(nodes, Slots(), 0);
      while pc < |bytecode|
        invariant i <= |nodes| && pc == Start(nodes, Slots(), i)
        invariant pc < |bytecode| <==> i < |nodes|
        invariant stats == CountNodes(nodes, i)
        decreases |bytecode| - pc
      {
        ProgramEnds(nodes, Slots(), i + 1);
        stats, pc := CountOne(stats, pc, i);
        i := i + 1;
      }
    }

    /** Counts the instruction at pc and moves behind it. */
    method CountOne(stats: Stats, pc: nat, ghost i: nat) returns (stats': Stats, pc': nat)
      requires Valid() && Compiled() && i < |nodes| && pc == Start(nodes, Slots(), i) && stats == CountNodes(nodes, i)
      ensures stats' == CountNodes(nodes, i + 1) && pc' == Start(nodes, Slots(), i + 1) > pc
    {
      CodeAt(nodes, Slots(), i);
      CodeShape(nodes, Slots(), i);
      ghost var code := Code(nodes, Slots(), i);
      SliceAt(bytecode, pc, code, 0);
      SliceAt(bytecode, pc, code, 2);
      match bytecode[pc]
      case 0 => return stats.(consts := stats.consts + 1), pc + 3;
      case 1 => return stats.(inputs := stats.inputs + 1), pc + 3;
      case 2 => return stats.(muls := stats.muls + 1), pc + 3 + bytecode[pc + 2] * 2;
      case 3 => return stats.(linCombs := stats.linCombs + 1), pc + 3 + bytecode[pc + 2] * 2;
      case _ => return stats.(polyEvals := stats.polyEvals + 1), pc + 3 + bytecode[pc + 2];
    }
  }

  datatype Stats = Stats(consts: nat, inputs: nat, muls: nat, linCombs: nat, polyEvals: nat)

  function CountNodes<E>(nodes: seq<Node<E>>, n: nat): Stats
    requires n <= |nodes|
  {
    if n == 0 then Stats(0, 0, 0, 0, 0)
    else
      var s := CountNodes(nodes, n - 1);
      match nodes[n - 1].op
      case Constant(_) => s.(consts := s.consts + 1)
      case Variable(_) => s.(inputs := s.inputs + 1)
      case Nary(kind, _) => if kind.Prod? then s.(muls := s.muls + 1) else s.(linCombs := s.linCombs + 1)
      case PolyEval => s.(polyEvals := s.polyEvals + 1)
  }

  /** The nodes of one kind among the first n. */
  ghost function NodesOf<E(!new)>(nodes: seq<Node<E>>, n: nat, kind: Node<E> -> bool): set<nat>
    requires n <= |nodes|
  {
    set i: nat | i < n && kind(nodes[i])
  }

  lemma NodesOfStep<E(!new)>(nodes: seq<Node<E>>, n: nat, kind: Node<E> -> bool)
    requires 0 < n <= |nodes|
    ensures |NodesOf(nodes, n, kind)| == |NodesOf(nodes, n - 1, kind)| + if kind(nodes[n - 1]) then 1 else 0
  {
    if kind(nodes[n - 1]) {
      assert NodesOf(nodes, n, kind) == NodesOf(nodes, n - 1, kind) + {n - 1};
    } else {
      assert NodesOf(nodes, n, kind) == NodesOf(nodes, n - 1, kind);
    }
  }

  predicate IsConst<E>(node: Node<E>) { node.op.Constant? }
  predicate IsInput<E>(node: Node<E>) { node.op.Variable? }
  predicate IsMul<E>(node: Node<E>) { node.op.Nary? && node.op.kind.Prod? }
  predicate IsLinComb<E>(node: Node<E>) { node.op.Nary? && node.op.kind.Sum? }
  predicate IsPolyEval<E>(node: Node<E>) { node.op.PolyEval? }

  /** Each statistic is the number of the nodes of its kind. */
  lemma {:induction false} CountExactly<E(!new)>(nodes: seq<Node<E>>, n: nat)
    requires n <= |nodes|
    ensures var s := CountNodes(nodes, n);
            && s.consts == |NodesOf(nodes, n, IsConst)| && s.inputs == |NodesOf(nodes, n, IsInput)|
            && s.muls == |NodesOf(nodes, n, IsMul)| && s.linCombs == |NodesOf(nodes, n, IsLinComb)|
            && s.polyEvals == |NodesOf(nodes, n, IsPolyEval)|
  {
    if n > 0 {
      CountExactly(nodes, n - 1);
      NodesOfStep(nodes, n, IsConst);
      NodesOfStep(nodes, n, IsInput);
      NodesOfStep(nodes, n, IsMul);
      NodesOfStep(nodes, n, IsLinComb);
      NodesOfStep(nodes, n, IsPolyEval);
    }
  }
}
