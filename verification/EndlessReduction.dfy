/** A reduction that never ends: the cube of x times a constant equal to the hash of x. Every
    candidate is a sub-product that the search in the product misses, in every round. */
module EndlessReduction {
  import opened Algebra
  import opened Expressions
  import opened Simplification
  import opened NormalForm
  import opened Substitution
  import opened Sizes
  import opened SubProducts
  import opened FoundFactors
  import opened Candidates
  import opened DegreeReduction
  import opened CubeReduction
  import Factoring
  import SubMultisets

  function C(): Expr<int> { NewConstant(2) }

  function ScaledCube(): Expr<int> { Expr(16, Nary(Prod, [3, 1]), [X(), C()]) }

  lemma ScaledHash()
    ensures Fold(Integers(), Prod, [3, 1], [2, 2]) == 16
  {
    PowerOfTwo();
    FoldOne(3, 2);
    assert [3, 1][..1] == [3] && [2, 2][..1] == [2];
  }

  lemma LeavesBuilt()
    ensures Built(Integers(), Hashing(), X()) && Built(Integers(), Hashing(), C())
  {
  }

  lemma ScaledNormal()
    ensures NormalTerms(Integers(), Prod, [X(), C()], [3, 1])
  {
  }

  lemma ScaledBuilt()
    ensures Built(Integers(), Hashing(), ScaledCube())
  {
    ScaledHash();
    LeavesBuilt();
    ScaledNormal();
    assert Hashes(ScaledCube().children) == [2, 2];
  }

  lemma ScaledDegrees()
    ensures var g := Uncapped().g; Degree(g, X()) == 1 && Degree(g, C()) == 0 && Degree(g, ScaledCube()) == 3
    ensures DegreesOf(Uncapped().g, ScaledCube().children) == [1, 0]
  {
    var g := Uncapped().g;
    DegreeStep(g, X());
    DegreeStep(g, C());
    assert DegreesOf(g, ScaledCube().children) == [1, 0];
    DegreeStep(g, ScaledCube());
    TwoWeights(3, 1);
  }

  lemma TwoWeights(a: int, b: int)
    ensures SubMultisets.TotalWeight([a, b], [1, 0]) == a
  {
    assert [a, b][..1] == [a] && [1, 0][..1] == [1];
    assert SubMultisets.TotalWeight([a], [1]) == a;
  }

  // ----- every candidate is missed -----

  lemma TwoKept(v: seq<int>)
    requires |v| == 2
    ensures (v[0] == 0 && v[1] == 1) || (v[0] == 1 && v[1] == 0) ==> KeptKs(v) == [1]
  {
    assert v[..1] == [v[0]] && v[..1][..0] == [];
    assert KeptKs(v[..1]) == if v[0] != 0 then [v[0]] else [];
  }

  /** The admissible choices take two or three factors in all, so all are overdrawn. */
  lemma ChosenTakes(v: seq<int>)
    requires Uncapped().Chosen(ScaledCube(), v)
    ensures |v| == 2 && 0 <= v[0] <= 3 && 0 <= v[1] <= 1 && 2 <= v[0] + v[1] <= 3
    ensures Choice(ScaledCube(), v) && Overdrawn(ScaledCube().children, v)
  {
    ChosenIsChoice(Uncapped(), ScaledCube(), v);
    TwoKept(v);
    assert v == [v[0], v[1]];
    TwoWeights(v[0], v[1]);
    ScaledDegrees();
    var cs := ScaledCube().children;
    assert cs[0].esh == cs[1].esh;
  }

  lemma TwosFold(v: seq<int>)
    requires |v| == 2 && 0 <= v[0] && 0 <= v[1]
    ensures Fold(Integers(), Prod, v, [2, 2]) == Integers().Pow(2, v[0] + v[1])
  {
    IntegersLawful();
    assert v[..1] == [v[0]] && [2, 2][..1] == [2];
    FoldOne(v[0], 2);
    PowAdd(Integers(), 2, v[0], v[1]);
  }

  lemma TwosHash(v: seq<int>)
    requires |v| == 2 && 0 <= v[0] && 0 <= v[1] && 2 <= v[0] + v[1] <= 3
    ensures Fold(Integers(), Prod, v, [2, 2]) in {4, 8}
  {
    TwosFold(v);
    PowerOfTwo();
  }

  lemma MadeHash(cs: seq<Expr<int>>, v: seq<int>)
    requires |cs| == |v|
    ensures |KeptItems(cs, v)| == |KeptKs(v)|
    ensures MakeNary(Integers(), Prod, KeptItems(cs, v), KeptKs(v)).esh == Fold(Integers(), Prod, v, Hashes(cs))
  {
    IntegersLawful();
    KeptLengths(cs, v);
    KeptHashes(cs, v);
    Factoring.KeptFold(Integers(), Prod, v, Hashes(cs));
  }

  lemma SubProductHash(e: Expr<int>, v: seq<int>)
    requires Built(Integers(), Hashing(), e) && Choice(e, v)
    requires forall i :: 0 <= i < |e.children| ==> e.children[i].esh != 0
    ensures SubProduct(Integers(), e.children, v).esh == Fold(Integers(), Prod, v, Hashes(e.children))
  {
    IntegersLawful();
    SubProductTerms(Integers(), Hashing(), e, v);
    SubProductForm(Integers(), Hashing(), e, v);
    MadeHash(e.children, v);
  }

  /** The hash of a candidate is a power of two between those of x and of the product. */
  lemma ChosenHash(v: seq<int>)
    requires Uncapped().Chosen(ScaledCube(), v)
    ensures SubProduct(Integers(), ScaledCube().children, v).esh in {4, 8}
  {
    ScaledBuilt();
    ChosenTakes(v);
    SubProductHash(ScaledCube(), v);
    assert Hashes(ScaledCube().children) == [2, 2];
    TwosHash(v);
  }

  lemma {:induction false} KeptHashes(cs: seq<Expr<int>>, v: seq<int>)
    requires |cs| == |v|
    ensures Hashes(KeptItems(cs, v)) == Factoring.Kept(Hashes(cs), v)
  {
    if cs != [] {
      var n := |cs| - 1;
      KeptHashes(cs[..n], v[..n]);
      assert Hashes(cs)[..n] == Hashes(cs[..n]);
    }
  }

  lemma LeafMissed(e: Expr<int>, t: Expr<int>)
    requires e.children == [] && !e.op.Nary? && e.esh != t.esh
    ensures !Occurs(Integers(), e, t, t)
  {
  }

  lemma NodeMissed(t: Expr<int>)
    requires t.esh in {4, 8} && Factored(Integers(), ScaledCube(), t, t).None?
    ensures !Occurs(Integers(), ScaledCube(), t, t)
  {
    LeafMissed(X(), t);
    LeafMissed(C(), t);
  }

  lemma ChosenMissed(v: seq<int>)
    requires Uncapped().Chosen(ScaledCube(), v)
    ensures var t := SubProduct(Integers(), ScaledCube().children, v); !Occurs(Integers(), ScaledCube(), t, t)
  {
    var t := SubProduct(Integers(), ScaledCube().children, v);
    IntegersLawful();
    ScaledBuilt();
    ChosenTakes(v);
    ChosenHash(v);
    SubProductFound(Integers(), Hashing(), ScaledCube(), v, t);
    NodeMissed(t);
  }

  lemma OfferedChosen(t: Expr<int>) returns (v: seq<int>)
    requires Uncapped().Offered(ScaledCube(), t)
    ensures Uncapped().Chosen(ScaledCube(), v) && t == SubProduct(Integers(), ScaledCube().children, v)
  {
    var c, e := Uncapped(), ScaledCube();
    ScaledDegrees();
    assert !c.Direct(e) && !c.Offered(X(), t) && !c.Offered(C(), t);
    assert c.SubOffered(e, t);
    v :| c.Chosen(e, v) && t == SubProduct(c.r, e.children, v);
  }

  lemma CandidateMissed(t: Expr<int>)
    requires CandidateOf(Uncapped(), [ScaledCube()], t)
    ensures Missed(Integers(), [ScaledCube()], t)
  {
    var v := OfferedChosen(t);
    ChosenMissed(v);
  }

  // ----- no run ends -----

  lemma SquareChosen()
    ensures Uncapped().Chosen(ScaledCube(), [2, 0])
  {
    ScaledDegrees();
    TwoWeights(2, 0);
    var f := Uncapped().FrameOf(ScaledCube());
    assert f.Eligible(0) && f.Eligible(1);
    assert [2, 0][0] != 0;
    assert [2, 0][..1] == [2] && [2, 0][..1][..0] == [];
    assert KeptKs([2, 0][..1]) == [2];
  }

  lemma HasCandidate() returns (t: Expr<int>)
    ensures CandidateOf(Uncapped(), [ScaledCube()], t)
  {
    var c, e := Uncapped(), ScaledCube();
    SquareChosen();
    ScaledDegrees();
    t := SubProduct(Integers(), e.children, [2, 0]);
    assert c.SubOffered(e, t);
    assert OverBound(c, [e][0]) && c.Offered([e][0], t);
  }

  /** Whatever candidates a run picks, it is back at its input after every round and may not stop. */
  lemma {:induction false} NoRunEnds(rounds: seq<Round<int>>)
    requires Chain(Uncapped(), Hashing(), [ScaledCube()], rounds)
    ensures Current([ScaledCube()], rounds) == [ScaledCube()]
    ensures !MayStop(Uncapped(), Current([ScaledCube()], rounds), |rounds|)
  {
    var c, es := Uncapped(), [ScaledCube()];
    if rounds != [] {
      var n := |rounds| - 1;
      ChainLast(c, Hashing(), es, rounds);
      NoRunEnds(rounds[..n]);
      CandidateMissed(rounds[n].target);
      MissedRound(c, Hashing(), rounds[n], n);
    }
    var t := HasCandidate();
    ScaledDegrees();
    assert Degree(c.g, es[0]) > c.bound;
  }

  /** There are runs of every length. */
  lemma RunsOfEveryLength(n: nat) returns (rounds: seq<Round<int>>)
    ensures |rounds| == n && Chain(Uncapped(), Hashing(), [ScaledCube()], rounds)
  {
    var t := HasCandidate();
    CandidateMissed(t);
    rounds := EndlessRun(Uncapped(), Hashing(), [ScaledCube()], t, n);
  }

  /** The product is built, and the failing condition is visible on it. */
  lemma ScaledNotClear()
    ensures Built(Integers(), Hashing(), ScaledCube()) && !Clear(ScaledCube())
  {
    ScaledBuilt();
    var e := ScaledCube();
    assert e in Subs(e) && e.children[0].esh == e.children[1].esh;
  }
}
