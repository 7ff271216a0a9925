/** Boards: expressions as topologically sorted, hash-consed node lists. */
module Boards {
  import opened Algebra
  import opened Expressions

  datatype Node<E> = Node(esh: E, op: Op<E>, children: seq<nat>)

  /** The node list with the position of every hash. */
  datatype Dag<E> = Dag(nodes: seq<Node<E>>, pos: map<E, nat>)

  // ----- specification of anchoring -----

  function Anchor<E(==)>(d: Dag<E>, e: Expr<E>): (Dag<E>, nat)
    decreases e, 1
  {
    if e.esh in d.pos then (d, d.pos[e.esh])
    else
      var (d', ids) := AnchorAll(d, e.children);
      (Dag(d'.nodes + [Node(e.esh, e.op, ids)], d'.pos[e.esh := |d'.nodes|]), |d'.nodes|)
  }

  function AnchorAll<E(==)>(d: Dag<E>, es: seq<Expr<E>>): (Dag<E>, seq<nat>)
    decreases es, 0
  {
    if es == [] then (d, [])
    else
      var (d', ids) := AnchorAll(d, es[..|es| - 1]);
      var (d'', id) := Anchor(d', es[|es| - 1]);
      (d'', ids + [id])
  }

  function Board<E(==)>(e: Expr<E>): Dag<E> {
    Anchor(Dag([], map[]), e).0
  }

  // ----- the board is topologically sorted and hash-consed -----

  ghost predicate Sorted<E(!new)>(nodes: seq<Node<E>>) {
    forall i, k :: 0 <= i < |nodes| && 0 <= k < |nodes[i].children| ==> nodes[i].children[k] < i
  }

  ghost predicate Indexed<E(!new)>(d: Dag<E>) {
    && (forall h :: h in d.pos ==> d.pos[h] < |d.nodes| && d.nodes[d.pos[h]].esh == h)
    && (forall i :: 0 <= i < |d.nodes| ==> d.nodes[i].esh in d.pos)
  }

  /** Node j stands for the expression s: same operator, and the children carry the hashes
      of the children of s. */
  ghost predicate Represents<E(!new)>(nodes: seq<Node<E>>, j: nat, s: Expr<E>) {
    && j < |nodes|
    && nodes[j].esh == s.esh
    && nodes[j].op == s.op
    && |nodes[j].children| == |s.children|
    && forall k :: 0 <= k < |s.children| ==>
      nodes[j].children[k] < j && nodes[nodes[j].children[k]].esh == s.children[k].esh
  }

  ghost predicate HasSource<E(!new)>(nodes: seq<Node<E>>, j: nat, s: set<Expr<E>>) {
    exists x :: x in s && Represents(nodes, j, x)
  }

  /** Every node stands for an expression of the set. */
  ghost predicate Backed<E(!new)>(nodes: seq<Node<E>>, s: set<Expr<E>>) {
    forall j :: 0 <= j < |nodes| ==> HasSource(nodes, j, s)
  }

  ghost predicate GoodDag<E(!new)>(d: Dag<E>, s: set<Expr<E>>) {
    Indexed(d) && Backed(d.nodes, s)
  }

  lemma BackedSorted<E(!new)>(nodes: seq<Node<E>>, s: set<Expr<E>>)
    requires Backed(nodes, s)
    ensures Sorted(nodes)
  {
    forall i, k | 0 <= i < |nodes| && 0 <= k < |nodes[i].children| ensures nodes[i].children[k] < i {
      assert HasSource(nodes, i, s);
    }
  }

  lemma BackedPrefix<E(!new)>(nodes: seq<Node<E>>, more: seq<Node<E>>, j: nat, x: Expr<E>)
    requires nodes <= more && Represents(nodes, j, x)
    ensures Represents(more, j, x)
  {
    forall k | 0 <= k < |x.children|
      ensures more[j].children[k] < j && more[more[j].children[k]].esh == x.children[k].esh
    {
      assert nodes[j].children[k] < j;
    }
  }

  /** The identifiers returned for a list of expressions carry their hashes. */
  ghost predicate Located<E(!new)>(nodes: seq<Node<E>>, ids: seq<nat>, es: seq<Expr<E>>) {
    && |ids| == |es|
    && forall k :: 0 <= k < |ids| ==> ids[k] < |nodes| && nodes[ids[k]].esh == es[k].esh
  }

  lemma LocatedPrefix<E(!new)>(nodes: seq<Node<E>>, more: seq<Node<E>>, ids: seq<nat>, es: seq<Expr<E>>)
    requires nodes <= more && Located(nodes, ids, es)
    ensures Located(more, ids, es)
  {
  }

  /** Appending the node of an expression whose children are located keeps the board good. */
  lemma AppendGood<E(!new)>(d: Dag<E>, e: Expr<E>, ids: seq<nat>, s: set<Expr<E>>)
    requires GoodDag(d, s) && e in s && Located(d.nodes, ids, e.children)
    ensures GoodDag(Dag(d.nodes + [Node(e.esh, e.op, ids)], d.pos[e.esh := |d.nodes|]), s)
  {
    var nodes := d.nodes + [Node(e.esh, e.op, ids)];
    forall j | 0 <= j < |nodes| ensures HasSource(nodes, j, s) {
      if j < |d.nodes| {
        assert HasSource(d.nodes, j, s);
        var x :| x in s && Represents(d.nodes, j, x);
        BackedPrefix(d.nodes, nodes, j, x);
      } else {
        assert Represents(nodes, j, e);
      }
    }
  }

  /** Anchoring extends the board, keeps it good, and returns a node with the right hash. */
  lemma {:induction false} AnchorGood<E(!new)>(d: Dag<E>, e: Expr<E>, s: set<Expr<E>>)
    requires GoodDag(d, s) && Subs(e) <= s
    ensures var (d', id) := Anchor(d, e);
            && GoodDag(d', s) && d.nodes <= d'.nodes
            && id < |d'.nodes| && d'.nodes[id].esh == e.esh
    decreases e, 1
  {
    if e.esh !in d.pos {
      forall i | 0 <= i < |e.children| ensures Subs(e.children[i]) <= s {
        ChildSubs(e, i);
      }
      AnchorAllGood(d, e.children, s);
      var (d', ids) := AnchorAll(d, e.children);
      AppendGood(d', e, ids, s);
    }
  }

  lemma {:induction false} AnchorAllGood<E(!new)>(d: Dag<E>, es: seq<Expr<E>>, s: set<Expr<E>>)
    requires GoodDag(d, s) && forall i :: 0 <= i < |es| ==> Subs(es[i]) <= s
    ensures var (d', ids) := AnchorAll(d, es);
            GoodDag(d', s) && d.nodes <= d'.nodes && Located(d'.nodes, ids, es)
    decreases es, 0
  {
    if es != [] {
      var n := |es| - 1;
      AnchorAllGood(d, es[..n], s);
      var (d', ids) := AnchorAll(d, es[..n]);
      AnchorGood(d', es[n], s);
      var (d'', id) := Anchor(d', es[n]);
      LocatedPrefix(d'.nodes, d''.nodes, ids, es[..n]);
    }
  }

  // ----- every node but the root is used -----

  ghost predicate Used<E(!new)>(nodes: seq<Node<E>>, j: nat) {
    exists i :: 0 <= i < |nodes| && j in nodes[i].children
  }

  lemma UsedPrefix<E(!new)>(nodes: seq<Node<E>>, more: seq<Node<E>>, j: nat)
    requires nodes <= more && Used(nodes, j)
    ensures Used(more, j)
  {
    var i :| 0 <= i < |nodes| && j in nodes[i].children;
    assert j in more[i].children;
  }

  /** Every node that anchoring adds is used by a later one, except the node it returns. */
  lemma {:induction false} AnchorUses<E(!new)>(d: Dag<E>, e: Expr<E>)
    ensures var (d', id) := Anchor(d, e);
            && d.nodes <= d'.nodes
            && forall j :: |d.nodes| <= j < |d'.nodes| ==> j == id || Used(d'.nodes, j)
    decreases e, 1
  {
    if e.esh !in d.pos {
      AnchorAllUses(d, e.children);
      var (d', ids) := AnchorAll(d, e.children);
      var nodes := d'.nodes + [Node(e.esh, e.op, ids)];
      forall j | |d.nodes| <= j < |d'.nodes| ensures Used(nodes, j) {
        if j in ids {
          assert nodes[|d'.nodes|].children == ids;
        } else {
          UsedPrefix(d'.nodes, nodes, j);
        }
      }
    }
  }

  lemma {:induction false} AnchorAllUses<E(!new)>(d: Dag<E>, es: seq<Expr<E>>)
    ensures var (d', ids) := AnchorAll(d, es);
            && d.nodes <= d'.nodes
            && forall j :: |d.nodes| <= j < |d'.nodes| ==> j in ids || Used(d'.nodes, j)
    decreases es, 0
  {
    if es != [] {
      var n := |es| - 1;
      AnchorAllUses(d, es[..n]);
      var (d', ids) := AnchorAll(d, es[..n]);
      AnchorUses(d', es[n]);
      var (d'', id) := Anchor(d', es[n]);
      forall j | |d.nodes| <= j < |d''.nodes| ensures j in ids + [id] || Used(d''.nodes, j) {
        if j < |d'.nodes| && j !in ids { UsedPrefix(d'.nodes, d''.nodes, j); }
      }
    }
  }

  ghost predicate AllUsed<E(!new)>(nodes: seq<Node<E>>) {
    forall j :: 0 <= j < |nodes| - 1 ==> Used(nodes, j)
  }

  /** The board of an expression: good, rooted at its last node, and without dead nodes. */
  lemma BoardShape<E(!new)>(e: Expr<E>)
    ensures var d := Board(e);
            && GoodDag(d, Subs(e)) && Sorted(d.nodes)
            && d.nodes != [] && d.nodes[|d.nodes| - 1].esh == e.esh
            && AllUsed(d.nodes)
  {
    var empty: Dag<E> := Dag([], map[]);
    AnchorGood(empty, e, Subs(e));
    AnchorUses(empty, e);
    BackedSorted(Board(e).nodes, Subs(e));
  }

  // ----- the meaning of a board, row by row -----

  /** Number of nodes before n with a given leaf operator: the position of node n in the
      table of constants or in the list of inputs. */
  function ConstIndex<E>(nodes: seq<Node<E>>, n: nat): nat
    requires n <= |nodes|
  {
    if n == 0 then 0 else ConstIndex(nodes, n - 1) + if nodes[n - 1].op.Constant? then 1 else 0
  }

  function InputIndex<E>(nodes: seq<Node<E>>, n: nat): nat
    requires n <= |nodes|
  {
    if n == 0 then 0 else InputIndex(nodes, n - 1) + if nodes[n - 1].op.Variable? then 1 else 0
  }

  /** ListVariableMetadata. */
  function VariablesOf<E>(nodes: seq<Node<E>>, n: nat): (ms: seq<Meta>)
    requires n <= |nodes|
    ensures |ms| == InputIndex(nodes, n)
  {
    if n == 0 then []
    else VariablesOf(nodes, n - 1) + if nodes[n - 1].op.Variable? then [nodes[n - 1].op.meta] else []
  }

  function ConstantsOf<E>(nodes: seq<Node<E>>, n: nat): (cs: seq<E>)
    requires n <= |nodes|
    ensures |cs| == ConstIndex(nodes, n)
  {
    if n == 0 then []
    else ConstantsOf(nodes, n - 1) + if nodes[n - 1].op.Constant? then [nodes[n - 1].op.val] else []
  }

  lemma {:induction false} IndexWithin<E(!new)>(nodes: seq<Node<E>>, j: nat, n: nat)
    requires j < n <= |nodes|
    ensures nodes[j].op.Constant? ==>
              ConstIndex(nodes, j) < ConstIndex(nodes, n)
                && ConstantsOf(nodes, n)[ConstIndex(nodes, j)] == nodes[j].op.val
    ensures nodes[j].op.Variable? ==>
              InputIndex(nodes, j) < InputIndex(nodes, n)
                && VariablesOf(nodes, n)[InputIndex(nodes, j)] == nodes[j].op.meta
    decreases n
  {
    if j < n - 1 { IndexWithin(nodes, j, n - 1); }
  }

  /** A constant table and input columns of the right number and length for a board. */
  ghost predicate Fits<E(!new), T(!new)>(nodes: seq<Node<E>>, consts: seq<T>, inputs: seq<seq<T>>, rows: nat) {
    && Sorted(nodes)
    && |consts| == ConstIndex(nodes, |nodes|)
    && |inputs| >= InputIndex(nodes, |nodes|)
    && forall i :: 0 <= i < |inputs| ==> |inputs[i]| == rows
  }

  /** The row at which an operator reads its k-th child: PolyEval reads its point once. */
  function ReadRow<E>(op: Op<E>, k: nat, t: nat): nat {
    if op.PolyEval? && k == 0 then 0 else t
  }

  /** The value of node j at row t.  The evaluation point of PolyEval is read at row 0. */
  ghost function RowVal<E(!new), T(!new)>(r: Ring<T>, nodes: seq<Node<E>>, consts: seq<T>, inputs: seq<seq<T>>, j: nat,
                                          t: nat): T
    requires Sorted(nodes) && j < |nodes|
    decreases j
  {
    var cs := nodes[j].children;
    match nodes[j].op
    case Constant(_) => if ConstIndex(nodes, j) < |consts| then consts[ConstIndex(nodes, j)] else r.zero
    case Variable(_) =>
      var i := InputIndex(nodes, j);
      if i < |inputs| && t < |inputs[i]| then inputs[i][t] else r.zero
    case _ => Apply(r, nodes[j].op, seq(|cs|, k requires 0 <= k < |cs| =>
                RowVal(r, nodes, consts, inputs, cs[k], ReadRow(nodes[j].op, k, t))))
  }

  ghost function ChildRows<E(!new), T(!new)>(r: Ring<T>, nodes: seq<Node<E>>, consts: seq<T>, inputs: seq<seq<T>>,
                                             j: nat, t: nat): (vs: seq<T>)
    requires Sorted(nodes) && j < |nodes|
    ensures |vs| == |nodes[j].children|
  {
    var cs := nodes[j].children;
    seq(|cs|, k requires 0 <= k < |cs| => RowVal(r, nodes, consts, inputs, cs[k], ReadRow(nodes[j].op, k, t)))
  }

  lemma RowStep<E(!new), T(!new)>(r: Ring<T>, nodes: seq<Node<E>>, consts: seq<T>, inputs: seq<seq<T>>, j: nat, t: nat)
    requires Sorted(nodes) && j < |nodes| && (nodes[j].op.Nary? || nodes[j].op.PolyEval?)
    ensures RowVal(r, nodes, consts, inputs, j, t) == Apply(r, nodes[j].op, ChildRows(r, nodes, consts, inputs, j, t))
  {
    var cs := nodes[j].children;
    assert seq(|cs|, k requires 0 <= k < |cs| =>
                RowVal(r, nodes, consts, inputs, cs[k], ReadRow(nodes[j].op, k, t)))
           == ChildRows(r, nodes, consts, inputs, j, t);
  }

  /** The assignment of a row gives every variable of the board the value of its column. */
  ghost predicate Assigns<E(!new)>(r: Ring<E>, nodes: seq<Node<E>>, inputs: seq<seq<E>>, t: nat, env: Env<E>) {
    forall j :: 0 <= j < |nodes| && nodes[j].op.Variable? ==>
      InputIndex(nodes, j) < |inputs| && t < |inputs[InputIndex(nodes, j)]| &&
      Lookup(r, env, nodes[j].op.meta) == inputs[InputIndex(nodes, j)][t]
  }

  /** The evaluation point of every PolyEval in the set is the same at all rows. */
  ghost predicate RowConstantPoints<E(!new)>(r: Ring<E>, s: set<Expr<E>>, envs: seq<Env<E>>) {
    forall x, t :: x in s && x.op.PolyEval? && x.children != [] && 0 <= t < |envs| ==>
      Eval(r, x.children[0], envs[t]) == Eval(r, x.children[0], envs[0])
  }

  ghost predicate ClosedUnderSubs<E(!new)>(s: set<Expr<E>>) {
    forall x :: x in s ==> Subs(x) <= s
  }

  /** A node and any expression with its hash have the same value at every row: sharing by
      hash does not change the meaning as long as the hash is faithful there. */
  lemma {:induction false} NodeMeaning<E(!new)>(r: Ring<E>, d: Dag<E>, s: set<Expr<E>>, inputs: seq<seq<E>>,
                                                envs: seq<Env<E>>, j: nat, t: nat, x: Expr<E>)
    requires GoodDag(d, s) && Sorted(d.nodes) && ClosedUnderSubs(s)
             && Fits(d.nodes, ConstantsOf(d.nodes, |d.nodes|), inputs, |envs|)
    requires forall u :: 0 <= u < |envs| ==> Faithful(r, s, envs[u]) && Assigns(r, d.nodes, inputs, u, envs[u])
    requires RowConstantPoints(r, s, envs)
    requires j < |d.nodes| && t < |envs| && x in s && x.esh == d.nodes[j].esh
    ensures RowVal(r, d.nodes, ConstantsOf(d.nodes, |d.nodes|), inputs, j, t) == Eval(r, x, envs[t])
    decreases j
  {
    var consts := ConstantsOf(d.nodes, |d.nodes|);
    assert HasSource(d.nodes, j, s);
    var y :| y in s && Represents(d.nodes, j, y);
    assert Faithful(r, s, envs[t]) && SameHash(x, y);
    IndexWithin(d.nodes, j, |d.nodes|);
    if y.op.Nary? || y.op.PolyEval? {
      forall k | 0 <= k < |y.children|
        ensures ChildRows(r, d.nodes, consts, inputs, j, t)[k] == Eval(r, y.children[k], envs[t])
      {
        ChildSubs(y, k);
        var u := ReadRow(y.op, k, t);
        NodeMeaning(r, d, s, inputs, envs, d.nodes[j].children[k], u, y.children[k]);
      }
      assert ChildRows(r, d.nodes, consts, inputs, j, t) == Vals(r, y.children, envs[t]);
      RowStep(r, d.nodes, consts, inputs, j, t);
      EvalStep(r, y, envs[t]);
    }
  }
}
