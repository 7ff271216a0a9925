/** Symbolic expressions, their values and their expression-sensitive hashes. */
module Expressions {
  import opened Algebra

  /** A variable is identified by the string of its metadata: a column of the caller or
      the k-th variable created by degree reduction. */
  datatype Meta = Column(name: string) | Eliminated(id: nat)

  /** `Nary(Sum, coeffs)` is a linear combination, `Nary(Prod, exponents)` a product.
      The first child of `PolyEval` is the evaluation point, the others the coefficients. */
  datatype Op<E> = Constant(val: E) | Variable(meta: Meta) | Nary(kind: Kind, ks: seq<int>) | PolyEval

  datatype Expr<E> = Expr(esh: E, op: Op<E>, children: seq<Expr<E>>)

  type Env<T> = map<Meta, T>

  function Lookup<T(!new)>(r: Ring<T>, env: Env<T>, m: Meta): T {
    if m in env then env[m] else r.zero
  }

  /** The arity rules that the operators check in Validate; exponents are not negative. */
  ghost predicate ValidArity<E>(op: Op<E>, n: nat) {
    match op
    case Constant(_) => n == 0
    case Variable(_) => n == 0
    case Nary(kind, ks) => |ks| == n && Weights(kind, ks)
    case PolyEval => 2 <= n
  }

  /** The constructors never build an empty combination. */
  ghost predicate Arity<E>(op: Op<E>, n: nat) {
    ValidArity(op, n) && (op.Nary? ==> 1 <= n)
  }

  ghost predicate WellFormed<E>(e: Expr<E>) {
    && Arity(e.op, |e.children|)
    && forall i :: 0 <= i < |e.children| ==> WellFormed(e.children[i])
  }

  ghost predicate AllWellFormed<E>(es: seq<Expr<E>>) {
    forall i :: 0 <= i < |es| ==> WellFormed(es[i])
  }

  /** What an operator computes from the values of its children. */
  function Apply<T(!new), E(!new)>(r: Ring<T>, op: Op<E>, vs: seq<T>): T {
    match op
    case Nary(kind, ks) => if |ks| == |vs| then Fold(r, kind, ks, vs) else r.zero
    case PolyEval => if vs == [] then r.zero else r.Horner(vs[0], vs[1..])
    case _ => r.zero
  }

  /** The value of the expression tree under an assignment of its variables. */
  function Eval<E(!new)>(r: Ring<E>, e: Expr<E>, env: Env<E>): E {
    match e.op
    case Constant(v) => v
    case Variable(m) => Lookup(r, env, m)
    case _ => Apply(r, e.op, seq(|e.children|, i requires 0 <= i < |e.children| => Eval(r, e.children[i], env)))
  }

  function Vals<E(!new)>(r: Ring<E>, es: seq<Expr<E>>, env: Env<E>): (vs: seq<E>)
    ensures |vs| == |es|
  {
    seq(|es|, i requires 0 <= i < |es| => Eval(r, es[i], env))
  }

  lemma EvalStep<E(!new)>(r: Ring<E>, e: Expr<E>, env: Env<E>)
    requires e.op.Nary? || e.op.PolyEval?
    ensures Eval(r, e, env) == Apply(r, e.op, Vals(r, e.children, env))
  {
    assert seq(|e.children|, i requires 0 <= i < |e.children| => Eval(r, e.children[i], env))
      == Vals(r, e.children, env);
  }

  lemma ValsSnoc<E(!new)>(r: Ring<E>, es: seq<Expr<E>>, e: Expr<E>, env: Env<E>)
    ensures Vals(r, es + [e], env) == Vals(r, es, env) + [Eval(r, e, env)]
  {
  }

  // ----- sub-expressions -----

  ghost function Subs<E(!new)>(e: Expr<E>): set<Expr<E>> {
    {e} + set i, s | 0 <= i < |e.children| && s in Subs(e.children[i]) :: s
  }

  ghost function AllSubs<E(!new)>(es: seq<Expr<E>>): set<Expr<E>> {
    set i, s | 0 <= i < |es| && s in Subs(es[i]) :: s
  }

  lemma ChildSubs<E(!new)>(e: Expr<E>, i: nat)
    requires i < |e.children|
    ensures Subs(e.children[i]) <= Subs(e) && e.children[i] in Subs(e)
  {
  }

  lemma {:induction false} SubsTransitive<E(!new)>(e: Expr<E>, s: Expr<E>)
    requires s in Subs(e)
    ensures Subs(s) <= Subs(e)
  {
    if s != e {
      var i :| 0 <= i < |e.children| && s in Subs(e.children[i]);
      SubsTransitive(e.children[i], s);
    }
  }

  lemma {:induction false} SubsWellFormed<E(!new)>(e: Expr<E>, s: Expr<E>)
    requires WellFormed(e) && s in Subs(e)
    ensures WellFormed(s)
  {
    if s != e {
      var i :| 0 <= i < |e.children| && s in Subs(e.children[i]);
      SubsWellFormed(e.children[i], s);
    }
  }

  ghost predicate SameHash<E>(a: Expr<E>, b: Expr<E>) {
    a.esh == b.esh
  }

  ghost predicate DistinctHashes<E(!new)>(es: seq<Expr<E>>) {
    forall i, j :: 0 <= i < j < |es| ==> es[i].esh != es[j].esh
  }

  ghost predicate ZeroHash<E(!new)>(r: Ring<E>, a: Expr<E>) {
    a.esh == r.zero
  }

  /** Hash faithfulness on a finite set of expressions at one assignment: the hash
      decides the value there, and the hash of zero stands for zero. */
  ghost predicate Faithful<E(!new)>(r: Ring<E>, s: set<Expr<E>>, env: Env<E>) {
    && (forall a, b {:trigger SameHash(a, b)} ::
          a in s && b in s && SameHash(a, b) ==> Eval(r, a, env) == Eval(r, b, env))
    && (forall a {:trigger ZeroHash(r, a)} :: a in s && ZeroHash(r, a) ==> Eval(r, a, env) == r.zero)
  }

  // ----- the expression-sensitive hash -----

  function Hashes<E>(es: seq<Expr<E>>): (hs: seq<E>)
    ensures |hs| == |es|
    ensures forall i :: 0 <= i < |es| ==> hs[i] == es[i].esh
  {
    seq(|es|, i requires 0 <= i < |es| => es[i].esh)
  }

  /** Every hash in the tree is what its operator computes from the hashes below it. */
  ghost predicate HashValid<E(!new)>(r: Ring<E>, h: Env<E>, e: Expr<E>) {
    && (match e.op
        case Constant(v) => e.esh == v
        case Variable(m) => e.esh == Lookup(r, h, m)
        case _ => e.esh == Apply(r, e.op, Hashes(e.children)))
    && forall i :: 0 <= i < |e.children| ==> HashValid(r, h, e.children[i])
  }

  ghost predicate AllHashValid<E(!new)>(r: Ring<E>, h: Env<E>, es: seq<Expr<E>>) {
    forall i :: 0 <= i < |es| ==> HashValid(r, h, es[i])
  }

  /** The hash is the value of the expression at the point where each variable is its own hash. */
  lemma {:induction false} HashIsEval<E(!new)>(r: Ring<E>, h: Env<E>, e: Expr<E>)
    requires HashValid(r, h, e)
    ensures e.esh == Eval(r, e, h)
  {
    if e.op.Nary? || e.op.PolyEval? {
      forall i | 0 <= i < |e.children| ensures Eval(r, e.children[i], h) == e.children[i].esh {
        HashIsEval(r, h, e.children[i]);
      }
      assert Vals(r, e.children, h) == Hashes(e.children);
      EvalStep(r, e, h);
    }
  }

  lemma {:induction false} SubsHashValid<E(!new)>(r: Ring<E>, h: Env<E>, e: Expr<E>, s: Expr<E>)
    requires HashValid(r, h, e) && s in Subs(e)
    ensures HashValid(r, h, s)
  {
    if s != e {
      var i :| 0 <= i < |e.children| && s in Subs(e.children[i]);
      SubsHashValid(r, h, e.children[i], s);
    }
  }

  /** At the hash point itself faithfulness needs no hypothesis. */
  lemma FaithfulAtHashPoint<E(!new)>(r: Ring<E>, h: Env<E>, s: set<Expr<E>>)
    requires forall e :: e in s ==> HashValid(r, h, e)
    ensures Faithful(r, s, h)
  {
    forall e | e in s ensures e.esh == Eval(r, e, h) {
      HashIsEval(r, h, e);
    }
  }

  /** Expression.Validate: the hash of every node with children is recomputed from their hashes,
      then the operator checks its arity, then the children are validated. */
  ghost predicate Validate<E(!new)>(r: Ring<E>, e: Expr<E>) {
    && (e.children != [] ==> e.esh == Apply(r, e.op, Hashes(e.children)))
    && ValidArity(e.op, |e.children|)
    && forall i :: 0 <= i < |e.children| ==> Validate(r, e.children[i])
  }

  ghost predicate LeavesHashed<E(!new)>(r: Ring<E>, h: Env<E>, e: Expr<E>) {
    && (e.op.Constant? ==> e.esh == e.op.val)
    && (e.op.Variable? ==> e.esh == Lookup(r, h, e.op.meta))
    && forall i :: 0 <= i < |e.children| ==> LeavesHashed(r, h, e.children[i])
  }

  ghost predicate NoEmptyCombination<E(!new)>(e: Expr<E>) {
    (e.op.Nary? ==> e.children != []) && forall i :: 0 <= i < |e.children| ==> NoEmptyCombination(e.children[i])
  }

  lemma {:induction false} HashesLeaves<E(!new)>(r: Ring<E>, h: Env<E>, e: Expr<E>)
    requires HashValid(r, h, e)
    ensures LeavesHashed(r, h, e)
  {
    forall i | 0 <= i < |e.children| ensures LeavesHashed(r, h, e.children[i]) { HashesLeaves(r, h, e.children[i]); }
  }

  /** What Validate leaves open: the hashes of the leaves, and empty combinations. */
  ghost predicate Checked<E(!new)>(r: Ring<E>, h: Env<E>, e: Expr<E>) {
    Validate(r, e) && LeavesHashed(r, h, e) && NoEmptyCombination(e)
  }

  /** With correct leaf hashes and without empty combinations Validate accepts exactly the
      well-formed trees whose hashes are right. */
  lemma {:induction false} ValidateExact<E(!new)>(r: Ring<E>, h: Env<E>, e: Expr<E>)
    ensures Checked(r, h, e) <==> WellFormed(e) && HashValid(r, h, e)
  {
    forall i | 0 <= i < |e.children|
      ensures Checked(r, h, e.children[i]) <==> WellFormed(e.children[i]) && HashValid(r, h, e.children[i])
    {
      ValidateExact(r, h, e.children[i]);
    }
    if Checked(r, h, e) {
      forall i | 0 <= i < |e.children| ensures WellFormed(e.children[i]) && HashValid(r, h, e.children[i]) {
        assert Checked(r, h, e.children[i]);
      }
    }
    if WellFormed(e) && HashValid(r, h, e) {
      forall i | 0 <= i < |e.children| ensures Checked(r, h, e.children[i]) {
        assert WellFormed(e.children[i]) && HashValid(r, h, e.children[i]);
      }
    }
  }

  /** An empty combination passes Validate whatever its hash. */
  lemma EmptyCombinationPasses<E(!new)>(r: Ring<E>, esh: E, kind: Kind)
    ensures Validate(r, Expr(esh, Nary(kind, []), [])) && !WellFormed(Expr(esh, Nary(kind, []), []))
  {
  }
}
