/** A reduction with a round: the cube of a variable over the integers under degree bound 2.
    Every uncapped run on it compares expressions with pairwise distinct hashes. */
module CubeReduction {
  import opened Algebra
  import opened Expressions
  import opened Simplification
  import opened Factoring
  import opened Substitution
  import opened SubProducts
  import opened Offers
  import opened Candidates
  import opened DegreeReduction
  import opened Wrappers
  import SubMultisets

  const COLUMN := Column("x")

  function Hashing(): Env<int> {
    map[COLUMN := 2, Eliminated(0) := 3]
  }

  function Uncapped(): Setting<int> {
    Setting(Integers(), DegreeGetter(_ => 1), 2, SubMultisets.Config(0, 0, 1, 8192, 0))
  }

  function X(): Expr<int> { Expr(2, Variable(COLUMN), []) }

  function V(): Expr<int> { Expr(3, Variable(Eliminated(0)), []) }

  function Cube(): Expr<int> { Expr(8, Nary(Prod, [3]), [X()]) }

  function Square(): Expr<int> { Expr(4, Nary(Prod, [2]), [X()]) }

  function Replaced(): Expr<int> { Expr(6, Nary(Prod, [1, 1]), [V(), X()]) }

  lemma PowerOfTwo()
    ensures Integers().Pow(2, 3) == 8 && Integers().Pow(2, 2) == 4 && Integers().Pow(2, 1) == 2
            && Integers().Pow(3, 1) == 3
  {
    var q := Integers();
    assert q.Pow(2, 0) == 1 && q.Pow(3, 0) == 1;
    assert q.Pow(2, 1) == 2 && q.Pow(3, 1) == 3;
    assert q.Pow(2, 2) == 4;
  }

  lemma FoldOne(k: nat, v: int)
    ensures Fold(Integers(), Prod, [k], [v]) == Integers().Pow(v, k)
  {
    assert [k][..0] == [] && [v][..0] == [];
  }

  lemma CubeBuilt()
    ensures Built(Integers(), Hashing(), Cube()) && Built(Integers(), Hashing(), X())
            && Built(Integers(), Hashing(), V())
  {
    PowerOfTwo();
    FoldOne(3, 2);
    assert Hashes(Cube().children) == [2];
  }

  lemma Degrees()
    ensures var g := Uncapped().g;
            Degree(g, X()) == 1 && Degree(g, V()) == 1 && Degree(g, Cube()) == 3 && Degree(g, Replaced()) == 2
  {
    var g := Uncapped().g;
    DegreeStep(g, X());
    DegreeStep(g, V());
    assert DegreesOf(g, [X()]) == [1] && DegreesOf(g, [V(), X()]) == [1, 1];
    DegreeStep(g, Cube());
    DegreeStep(g, Replaced());
    assert [1, 1][..1] == [1];
    assert SubMultisets.TotalWeight([3], [1]) == 3;
    assert SubMultisets.TotalWeight([1], [1]) == 1;
  }

  // ----- the only candidate -----

  lemma KeptOne(x: Expr<int>, k: int)
    requires k != 0
    ensures KeptItems([x], [k]) == [x] && KeptKs([k]) == [k]
  {
    assert [x][..0] == [] && [k][..0] == [];
  }

  lemma SquareChoice()
    ensures Choice(Cube(), [2])
  {
    KeptOne(X(), 2);
    assert [2][0] != 0;
  }

  lemma SquareHash()
    ensures MakeNary(Integers(), Prod, [X()], [2]) == Square()
  {
    PowerOfTwo();
    FoldOne(2, 2);
    assert Hashes([X()]) == [2];
  }

  lemma SquareIsSubProduct()
    ensures SubProduct(Integers(), [X()], [2]) == Square()
  {
    IntegersLawful();
    CubeBuilt();
    KeptOne(X(), 2);
    SquareChoice();
    SubProductForm(Integers(), Hashing(), Cube(), [2]);
    SquareHash();
  }

  lemma ChosenExactly(v: seq<int>)
    ensures Uncapped().Chosen(Cube(), v) <==> v == [2]
  {
    var c := Uncapped();
    Degrees();
    assert DegreesOf(c.g, Cube().children) == [1];
    if |v| == 1 {
      assert KeptKs(v[..0]) == [];
      assert SubMultisets.TotalWeight(v[..0], [1][..0]) == 0;
      assert v == [v[0]];
      assert c.FrameOf(Cube()).Eligible(0);
    }
  }

  lemma SubOfferedExactly(t: Expr<int>)
    ensures Uncapped().SubOffered(Cube(), t) <==> t == Square()
  {
    var c := Uncapped();
    SquareIsSubProduct();
    ChosenExactly([2]);
    if c.SubOffered(Cube(), t) {
      var v :| c.Chosen(Cube(), v) && t == SubProduct(c.r, Cube().children, v);
      ChosenExactly(v);
    }
  }

  lemma OfferedExactly(t: Expr<int>)
    ensures Uncapped().Offered(Cube(), t) <==> t == Square()
  {
    var c := Uncapped();
    Degrees();
    SubOfferedExactly(t);
    assert !c.Direct(Cube());
    assert !c.Offered(X(), t);
  }

  lemma CandidateExactly(t: Expr<int>)
    ensures CandidateOf(Uncapped(), [Cube()], t) <==> t == Square()
  {
    Degrees();
    OfferedExactly(t);
    assert OverBound(Uncapped(), [Cube()][0]);
  }

  // ----- the only round -----

  lemma TakeOne(x: Expr<int>, k: int, n: int)
    requires 0 < n < k
    ensures FactorOut([x], [k], [x], [n]) == Some(([x], [k - n]))
  {
    assert [x][..0] == [] && [k][..0] == [] && [n][..0] == [];
    var all, rest := map[x.esh := k], map[x.esh := k - n];
    assert BuildMap([x], [k]) == all && all[x.esh := k - n] == rest;
    assert Subtract(all, [x], [n]) == Some(rest);
    assert Collect(rest, [x][..0]) == Gathered(rest, [], []);
    assert Collect(rest, [x]) == Gathered(rest[x.esh := 0], [x], [k - n]);
  }

  lemma SubstituteInX()
    ensures Substitute(Integers(), X(), Square(), V()) == X()
  {
  }

  lemma ReplacedTerms()
    ensures NewNary(Integers(), Prod, [V(), X()], [1, 1]) == Replaced()
  {
    IntegersLawful();
    SimplifyIdentity(Integers(), [V(), X()], [1, 1]);
    ReplacedHash();
  }

  lemma FactoredCube()
    ensures Factored(Integers(), Cube(), Square(), V()) == Some(Replaced())
  {
    TakeOne(X(), 3, 2);
    assert [V()] + [X()] == [V(), X()] && [1] + [1] == [1, 1];
    ReplacedTerms();
  }

  lemma SubstituteInCube()
    ensures Substitute(Integers(), Cube(), Square(), V()) == Replaced()
  {
    FactoredCube();
  }

  lemma ReplacedHash()
    ensures MakeNary(Integers(), Prod, [V(), X()], [1, 1]) == Replaced()
  {
    PowerOfTwo();
    FoldOne(1, 3);
    assert Hashes([V(), X()]) == [3, 2];
    assert [1, 1][..1] == [1] && [3, 2][..1] == [3];
  }

  function TheRound(): Round<int> { Round([Cube()], Square(), [Replaced()]) }

  lemma RoundExactly(rd: Round<int>)
    requires rd.before == [Cube()]
    ensures IsRound(Uncapped(), Hashing(), rd, 0) <==> rd == TheRound()
  {
    CandidateExactly(rd.target);
    SubstituteInCube();
    assert Fresh(Integers(), Hashing(), 0) == V();
    assert SubstituteAll(Integers(), [Cube()], Square(), V()) == [Replaced()];
  }

  lemma NothingLeft(t: Expr<int>)
    ensures !CandidateOf(Uncapped(), [Replaced()], t)
  {
    Degrees();
  }

  /** The runs on the cube: no round yet, or the one round that replaces its square. */
  lemma RunsExactly(rounds: seq<Round<int>>)
    ensures Chain(Uncapped(), Hashing(), [Cube()], rounds) <==> rounds == [] || rounds == [TheRound()]
  {
    var c, h := Uncapped(), Hashing();
    RoundExactly(TheRound());
    ChainSnoc(c, h, [Cube()], [], TheRound());
    assert [] + [TheRound()] == [TheRound()];
    if Chain(c, h, [Cube()], rounds) && rounds != [] {
      ChainAt(c, h, [Cube()], rounds, 0);
      assert rounds[..0] == [];
      RoundExactly(rounds[0]);
      if |rounds| > 1 {
        ChainAt(c, h, [Cube()], rounds, 1);
        assert rounds[..1] == [TheRound()];
        NothingLeft(rounds[1].target);
      }
    }
  }

  // ----- the expressions in play -----

  function InPlay(): set<Expr<int>> {
    {Cube(), X(), Square(), V(), Replaced()}
  }

  lemma LeafSubs(e: Expr<int>)
    requires e.children == []
    ensures Subs(e) == {e}
  {
  }

  lemma PowerSubs(e: Expr<int>)
    requires e.children == [X()]
    ensures Subs(e) == {e, X()}
  {
    LeafSubs(X());
    assert e.children[0] == X();
  }

  lemma ReplacedSubs()
    ensures Subs(Replaced()) == {Replaced(), V(), X()}
  {
    LeafSubs(X());
    LeafSubs(V());
    var cs := Replaced().children;
    assert cs[0] == V() && cs[1] == X();
  }

  lemma AllSubsOne(e: Expr<int>)
    ensures AllSubs([e]) == Subs(e)
  {
    assert [e][0] == e;
  }

  lemma SubstitutedInPlay(x: Expr<int>)
    requires x in Subs(Cube())
    ensures Subs(Substitute(Integers(), x, Square(), V())) <= InPlay()
  {
    PowerSubs(Cube());
    LeafSubs(X());
    ReplacedSubs();
    SubstituteInCube();
    SubstituteInX();
  }

  lemma RoundInPlay()
    ensures RoundPlay(Integers(), TheRound(), V()) <= InPlay()
  {
    LeafSubs(V());
    PowerSubs(Cube());
    PowerSubs(Square());
    AllSubsOne(Cube());
    forall x | x in Subs(Cube()) ensures Subs(Substitute(Integers(), x, Square(), V())) <= InPlay() {
      SubstitutedInPlay(x);
    }
  }

  lemma PlayIsInPlay()
    ensures PlaySet(Integers(), Hashing(), [TheRound()]) <= InPlay()
  {
    RoundInPlay();
    assert Fresh(Integers(), Hashing(), 0) == V();
    assert [TheRound()][..0] == [];
  }

  lemma InPlayAgrees(s: set<Expr<int>>)
    requires s <= InPlay()
    ensures Agreeing(s)
  {
    forall a, b | a in s && b in s && SameHash(a, b) ensures a == b { }
  }

  /** The cube is above the bound, a round replaces its square, and every run compares only
      expressions whose hashes agree with their sizes and constants. */
  lemma CubeAgrees()
    ensures var c, h := Uncapped(), Hashing();
            && OverBound(c, Cube()) && Chain(c, h, [Cube()], [TheRound()])
            && AlwaysAgreeing(c, h, [Cube()])
  {
    var c, h := Uncapped(), Hashing();
    Degrees();
    RunsExactly([TheRound()]);
    PlayIsInPlay();
    forall rounds | Chain(c, h, [Cube()], rounds) ensures Agreeing(PlaySet(c.r, h, rounds)) {
      RunsExactly(rounds);
      InPlayAgrees(PlaySet(c.r, h, rounds));
    }
  }
}
