/** A concrete tower, integers inside dual numbers, on which the base path loses a constant. */
module DualNumbers {
  import opened Algebra
  import opened Expressions
  import opened Boards
  import opened Simplification
  import opened SubProducts
  import opened SmartVectors
  import opened Evaluation

  /** re + eps * e with e * e == 0. */
  datatype Dual = Dual(re: int, eps: int)

  function Duals(): Ring<Dual> {
    Ring(Dual(0, 0), Dual(1, 0),
         (x: Dual, y: Dual) => Dual(x.re + y.re, x.eps + y.eps),
         (x: Dual, y: Dual) => Dual(x.re - y.re, x.eps - y.eps),
         (x: Dual, y: Dual) => Dual(x.re * y.re, x.re * y.eps + x.eps * y.re),
         n => Dual(n, 0))
  }

  function IntegersInDuals(): Tower<int, Dual> {
    Tower(Integers(), Duals(), n => Dual(n, 0), (x: Dual) => x.eps == 0, (x: Dual) => x.re)
  }

  lemma MulAssociates(x: Dual, y: Dual, z: Dual)
    ensures Duals().Mul(Duals().Mul(x, y), z) == Duals().Mul(x, Duals().Mul(y, z))
  {
    assert (x.re * y.re) * z.eps + (x.re * y.eps + x.eps * y.re) * z.re
        == x.re * (y.re * z.eps + y.eps * z.re) + x.eps * (y.re * z.re);
  }

  lemma MulDistributes(x: Dual, y: Dual, z: Dual)
    ensures Duals().Mul(x, Duals().Add(y, z)) == Duals().Add(Duals().Mul(x, y), Duals().Mul(x, z))
  {
    assert x.re * (y.re + z.re) == x.re * y.re + x.re * z.re;
    assert x.re * (y.eps + z.eps) == x.re * y.eps + x.re * z.eps;
    assert x.eps * (y.re + z.re) == x.eps * y.re + x.eps * z.re;
  }

  lemma DualsAt3(x: Dual, y: Dual, z: Dual)
    ensures Duals().At3(x, y, z)
  {
    MulAssociates(x, y, z);
    MulDistributes(x, y, z);
  }

  lemma DualsAt2(x: Dual, y: Dual)
    ensures Duals().At2(x, y)
  {
    assert x.re * y.re == y.re * x.re && x.re * y.eps == y.eps * x.re && x.eps * y.re == y.re * x.eps;
    assert Duals().Mul(Duals().OfInt(-1), y) == Dual(-y.re, -y.eps);
  }

  lemma DualsLawful()
    ensures Duals().Lawful()
  {
    var q := Duals();
    forall x, y, z ensures q.At3(x, y, z) { DualsAt3(x, y, z); }
    forall x, y ensures q.At2(x, y) { DualsAt2(x, y); }
    forall x ensures q.At1(x) { }
    forall m: int, n: int ensures q.IntAt(m, n) { }
  }

  lemma TowerLawful()
    ensures IntegersInDuals().Lawful()
  {
    IntegersLawful();
    DualsLawful();
  }

  const LOST := Dual(0, 1)

  function X(): Expr<Dual> { Expr(Dual(2, 0), Variable(Column("x")), []) }

  /** The linear combination of a constant outside the base field and a column, as constructed. */
  function LostPlusX(): Expr<Dual> { NewNary(Duals(), Sum, [NewConstant(LOST), X()], [1, 1]) }

  function Constructed(): Expr<Dual> { Expr(Dual(2, 1), Nary(Sum, [1, 1]), [X(), NewConstant(LOST)]) }

  function Nodes(): seq<Node<Dual>> {
    [Node(Dual(2, 0), Variable(Column("x")), []),
     Node(LOST, Op.Constant(LOST), []),
     Node(Dual(2, 1), Nary(Sum, [1, 1]), [0, 1])]
  }

  lemma LostGrouped()
    ensures AddTerms(Duals(), Sum, Acc([], [], Dual(0, 0)), [NewConstant(LOST), X()], [1, 1]) == Acc([X()], [1], LOST)
  {
    var q, none, mid := Duals(), Acc([], [], Dual(0, 0)), Acc([], [], LOST);
    var items, ks := [NewConstant(LOST), X()], [1, 1];
    assert items[..1] == [NewConstant(LOST)] && ks[..1] == [1];
    assert items[..1][..0] == [] && ks[..1][..0] == [];
    AddTermsStep(q, Sum, none, items[..1], ks[..1], none);
    AddTermsStep(q, Sum, none, items, ks, mid);
    AppendTerm(q, Sum, mid, X(), 1);
    assert mid.items + [X()] == [X()] && mid.ks + [1] == [1];
  }

  lemma SumHash()
    ensures MakeNary(Duals(), Sum, [X(), NewConstant(LOST)], [1, 1]) == Constructed()
  {
    assert Hashes([X(), NewConstant(LOST)]) == [Dual(2, 0), LOST];
    SumOfTwo(Dual(2, 0), LOST);
  }

  lemma FlatSum(items: seq<Expr<Dual>>, ks: seq<int>)
    requires |items| == |ks| && forall i :: 0 <= i < |items| ==> !Nested(Sum, items[i])
    ensures Simplify(Duals(), Sum, items, ks)
         == Finish(Duals(), Sum, AddTerms(Duals(), Sum, Acc([], [], Dual(0, 0)), items, ks))
  {
    FlatItemsIdentity(Sum, items);
    FlatKsIdentity(Sum, items, ks);
  }

  lemma LostSimplified()
    ensures Simplify(Duals(), Sum, [NewConstant(LOST), X()], [1, 1]) == ([X(), NewConstant(LOST)], [1, 1])
  {
    FlatSum([NewConstant(LOST), X()], [1, 1]);
    LostGrouped();
    FinishIdentity(Duals(), Sum, [X()], [1], LOST);
    assert [X()] + [NewConstant(LOST)] == [X(), NewConstant(LOST)] && [1] + [1] == [1, 1];
  }

  /** The constructor puts the constant last. */
  lemma LostIsLast()
    ensures LostPlusX() == Constructed()
  {
    LostSimplified();
    SumHash();
  }

  lemma LeafAnchored(d: Dag<Dual>, e: Expr<Dual>)
    requires e.children == [] && e.esh !in d.pos
    ensures Anchor(d, e) == (Dag(d.nodes + [Node(e.esh, e.op, [])], d.pos[e.esh := |d.nodes|]), |d.nodes|)
  {
  }

  lemma ListAnchored(d: Dag<Dual>, es: seq<Expr<Dual>>, e: Expr<Dual>)
    ensures var (d', ids) := AnchorAll(d, es);
            AnchorAll(d, es + [e]) == (Anchor(d', e).0, ids + [Anchor(d', e).1])
  {
    assert (es + [e])[..|es|] == es;
  }

  lemma ChildrenAnchored()
    ensures AnchorAll(Dag([], map[]), Constructed().children)
         == (Dag([Nodes()[0], Nodes()[1]], map[Dual(2, 0) := 0, LOST := 1]), [0, 1])
  {
    var none: Dag<Dual> := Dag([], map[]);
    var one := Dag([Nodes()[0]], map[Dual(2, 0) := 0]);
    LeafAnchored(none, X());
    assert none.nodes + [Nodes()[0]] == [Nodes()[0]] && none.pos[Dual(2, 0) := 0] == one.pos;
    assert Anchor(none, X()) == (one, 0);
    ListAnchored(none, [], X());
    assert [] + [X()] == [X()] && [] + [0] == [0];
    assert AnchorAll(none, [X()]) == (one, [0]);
    LeafAnchored(one, NewConstant(LOST));
    assert one.nodes + [Nodes()[1]] == [Nodes()[0], Nodes()[1]];
    assert one.pos[LOST := 1] == map[Dual(2, 0) := 0, LOST := 1] && [0] + [1] == [0, 1];
    ListAnchored(none, [X()], NewConstant(LOST));
    assert [X()] + [NewConstant(LOST)] == Constructed().children;
  }

  lemma BoardNodes()
    ensures Board(Constructed()).nodes == Nodes()
  {
    ChildrenAnchored();
    assert [Nodes()[0], Nodes()[1]] + [Nodes()[2]] == Nodes();
  }

  ghost function OneRow(): Run<int, Dual> {
    Run(IntegersInDuals(), Nodes(), [Regular([0])], 1, 1)
  }

  lemma OneRowValid()
    ensures OneRow().Valid() && AllBase(OneRow().inputs) && !BaseConstants(OneRow().t, OneRow().nodes)
  {
    TowerLawful();
    assert Nodes()[1].op.Constant?;
    assert InputIndex(Nodes(), 1) == 1 && InputIndex(Nodes(), 2) == 1;
  }

  /** The two leaves of the board, at the only row. */
  lemma LeafRows()
    requires OneRow().Valid()
    ensures var job := OneRow().ExtJob(0);
            ChildRows(Duals(), Nodes(), job.consts, job.chunk, 2, 0) == [Dual(0, 0), LOST]
  {
    var nodes, job := Nodes(), OneRow().ExtJob(0);
    assert ConstIndex(nodes, 1) == 0 && ConstIndex(nodes, 2) == 1;
    assert ConstantsOf(nodes, 1) == [] && ConstantsOf(nodes, 2) == [LOST];
    assert InputIndex(nodes, 0) == 0;
  }

  lemma SumOfTwo(x: Dual, y: Dual)
    ensures Fold(Duals(), Sum, [1, 1], [x, y]) == Duals().Add(x, y)
  {
    DualsLawful();
    var r := Duals();
    assert [x, y] == ([] + [x]) + [y] && [1, 1] == ([] + [1]) + [1];
    FoldSnoc(r, Sum, [], [], 1, x);
    FoldSnoc(r, Sum, [] + [1], [] + [x], 1, y);
    ActOne(r, Sum, x);
    ActOne(r, Sum, y);
    JoinUnit(r, Sum, x);
  }

  lemma ExtensionRow()
    requires OneRow().Valid()
    ensures OneRow().ExtRows()[0][0] == LOST
  {
    var job := OneRow().ExtJob(0);
    LeafRows();
    RowStep(Duals(), Nodes(), job.consts, job.chunk, 2, 0);
    SumOfTwo(Dual(0, 0), LOST);
  }

  /** On the board of a constructed combination the value at the only row is the constant, but the
      base path cannot give it. */
  lemma ConstantIsLost()
    ensures var run := OneRow();
            && run.nodes == Board(LostPlusX()).nodes
            && run.Valid() && AllBase(run.inputs) && !BaseConstants(run.t, run.nodes)
            && run.ExtRows()[0][0] == LOST && Wanted(run)[0][0] != LOST
  {
    LostIsLast();
    BoardNodes();
    OneRowValid();
    ExtensionRow();
    BaseResult(OneRow(), 0, 0);
  }
}
