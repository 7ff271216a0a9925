/** The degree of a board, node by node, and of the expression it was made from. */
module BoardDegrees {
  import opened Expressions
  import opened Boards
  import opened SubProducts
  import opened VariableOrder

  ghost function NodeDegree<E(!new)>(g: DegreeGetter, nodes: seq<Node<E>>, j: nat): int
    requires Sorted(nodes) && j < |nodes|
    decreases j
  {
    var cs := nodes[j].children;
    OpDegree(nodes[j].op, seq(|cs|, k requires 0 <= k < |cs| => NodeDegree(g, nodes, cs[k])), g)
  }

  ghost function ChildDegrees<E(!new)>(g: DegreeGetter, nodes: seq<Node<E>>, j: nat): (ns: seq<int>)
    requires Sorted(nodes) && j < |nodes|
    ensures |ns| == |nodes[j].children|
  {
    var cs := nodes[j].children;
    seq(|cs|, k requires 0 <= k < |cs| => NodeDegree(g, nodes, cs[k]))
  }

  lemma NodeDegreeStep<E(!new)>(g: DegreeGetter, nodes: seq<Node<E>>, j: nat)
    requires Sorted(nodes) && j < |nodes|
    ensures NodeDegree(g, nodes, j) == OpDegree(nodes[j].op, ChildDegrees(g, nodes, j), g)
  {
    var cs := nodes[j].children;
    assert seq(|cs|, k requires 0 <= k < |cs| => NodeDegree(g, nodes, cs[k])) == ChildDegrees(g, nodes, j);
  }

  /** ExpressionBoard.Degree: one pass over the nodes; the degree of the last one. */
  method BoardDegree<E(!new)>(g: DegreeGetter, nodes: seq<Node<E>>) returns (degree: int)
    requires Sorted(nodes)
    ensures degree == if nodes == [] then 0 else NodeDegree(g, nodes, |nodes| - 1)
  {
    if nodes == [] { return 0; }
    var degrees: seq<int> := [];
    for i := 0 to |nodes|
      invariant |degrees| == i && forall j :: 0 <= j < i ==> degrees[j] == NodeDegree(g, nodes, j)
    {
      var cs := nodes[i].children;
      var childrenDeg := seq(|cs|, k requires 0 <= k < |cs| => degrees[cs[k]]);
      assert childrenDeg == ChildDegrees(g, nodes, i);
      NodeDegreeStep(g, nodes, i);
      degrees := degrees + [OpDegree(nodes[i].op, childrenDeg, g)];
    }
    degree := degrees[|nodes| - 1];
  }

  /** Equal hashes in the set belong to expressions of equal degree. */
  ghost predicate SameDegree<E(!new)>(g: DegreeGetter, s: set<Expr<E>>) {
    forall a, b {:trigger SameHash(a, b)} :: a in s && b in s && SameHash(a, b) ==> Degree(g, a) == Degree(g, b)
  }

  lemma {:induction false} NodeDegreeMeaning<E(!new)>(g: DegreeGetter, d: Dag<E>, s: set<Expr<E>>, j: nat, x: Expr<E>)
    requires GoodDag(d, s) && Sorted(d.nodes) && ClosedUnderSubs(s) && SameDegree(g, s)
    requires j < |d.nodes| && x in s && x.esh == d.nodes[j].esh
    ensures NodeDegree(g, d.nodes, j) == Degree(g, x)
    decreases j
  {
    assert HasSource(d.nodes, j, s);
    var y :| y in s && Represents(d.nodes, j, y);
    assert SameHash(x, y);
    forall k | 0 <= k < |y.children| ensures ChildDegrees(g, d.nodes, j)[k] == Degree(g, y.children[k]) {
      ChildSubs(y, k);
      NodeDegreeMeaning(g, d, s, d.nodes[j].children[k], y.children[k]);
    }
    assert ChildDegrees(g, d.nodes, j) == DegreesOf(g, y.children);
    NodeDegreeStep(g, d.nodes, j);
    DegreeStep(g, y);
  }

  /** The degree of the board is the degree of the tree. */
  lemma BoardDegreeIsDegree<E(!new)>(g: DegreeGetter, e: Expr<E>)
    requires SameDegree(g, Subs(e))
    ensures var nodes := Board(e).nodes;
            nodes != [] && Sorted(nodes) && NodeDegree(g, nodes, |nodes| - 1) == Degree(g, e)
  {
    BoardShape(e);
    SubsClosed(e);
    NodeDegreeMeaning(g, Board(e), Subs(e), |Board(e).nodes| - 1, e);
  }
}
