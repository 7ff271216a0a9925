/** The order of the variables: the tree walk and the board agree on it. */
module VariableOrder {
  import opened Algebra
  import opened Expressions
  import opened Boards

  ghost function Vars<E(!new)>(e: Expr<E>): set<Meta> {
    (if e.op.Variable? then {e.op.meta} else {})
    + set i, m | 0 <= i < |e.children| && m in Vars(e.children[i]) :: m
  }

  lemma ChildVars<E(!new)>(e: Expr<E>, i: nat)
    requires i < |e.children|
    ensures Vars(e.children[i]) <= Vars(e)
  {
  }

  // ----- the walk of ListBoardVariableMetadata -----

  /** Variables in the order of their first occurrence. */
  function Walk<E>(seen: seq<Meta>, e: Expr<E>): seq<Meta>
    decreases e, 1
  {
    match e.op
    case Variable(m) => if m in seen then seen else seen + [m]
    case _ => WalkAll(seen, e.children)
  }

  function WalkAll<E>(seen: seq<Meta>, es: seq<Expr<E>>): seq<Meta>
    decreases es, 0
  {
    if es == [] then seen else Walk(WalkAll(seen, es[..|es| - 1]), es[|es| - 1])
  }

  class VariableCollector {
    var unique: set<Meta>
    var metadatas: seq<Meta>

    ghost predicate Valid()
      reads this
    {
      forall m :: m in unique <==> m in metadatas
    }

    constructor ()
      ensures Valid() && metadatas == []
    {
      unique, metadatas := {}, [];
    }

    method Collect<E(!new)>(e: Expr<E>)
      requires Valid()
      modifies this
      ensures Valid() && metadatas == Walk(old(metadatas), e)
      decreases e
    {
      match e.op
      case Variable(m) =>
        if m !in unique {
          unique, metadatas := unique + {m}, metadatas + [m];
        }
      case _ =>
        for k := 0 to |e.children|
          invariant Valid() && metadatas == WalkAll(old(metadatas), e.children[..k])
        {
          assert e.children[..k + 1][..k] == e.children[..k];
          Collect(e.children[k]);
        }
        assert e.children[..|e.children|] == e.children;
    }
  }

  /** ListBoardVariableMetadata. */
  method ListBoardVariables<E(!new)>(e: Expr<E>) returns (metas: seq<Meta>)
    ensures metas == Walk([], e) && NoDuplicates(metas)
  {
    var c := new VariableCollector();
    c.Collect(e);
    metas := c.metadatas;
    WalkNoDuplicates([], e);
  }

  // ----- agreement with the board -----

  ghost function Listed<E(!new)>(nodes: seq<Node<E>>): seq<Meta> {
    VariablesOf(nodes, |nodes|)
  }

  /** Equal hashes in the set stand for the same variables. */
  ghost predicate SameVars<E(!new)>(s: set<Expr<E>>) {
    forall a, b {:trigger SameHash(a, b)} :: a in s && b in s && SameHash(a, b) ==> Vars(a) == Vars(b)
  }

  /** The variables of every anchored expression are listed, and listed variables are anchored. */
  ghost predicate Covered<E(!new)>(r: Ring<E>, h: Env<E>, d: Dag<E>, s: set<Expr<E>>) {
    && (forall x, m {:trigger x in s, m in Vars(x)} :: x in s && x.esh in d.pos && m in Vars(x) ==>
      m in Listed(d.nodes))
    && (forall m {:trigger m in Listed(d.nodes)} :: m in Listed(d.nodes) ==> Lookup(r, h, m) in d.pos)
  }

  ghost predicate WalkReady<E(!new)>(r: Ring<E>, h: Env<E>, s: set<Expr<E>>) {
    ClosedUnderSubs(s) && SameVars(s) && forall x :: x in s ==> WellFormed(x) && LeavesHashed(r, h, x)
  }

  lemma {:induction false} VariablesPrefix<E(!new)>(nodes: seq<Node<E>>, more: seq<Node<E>>, n: nat)
    requires nodes <= more && n <= |nodes|
    ensures VariablesOf(more, n) == VariablesOf(nodes, n)
  {
    if n > 0 { VariablesPrefix(nodes, more, n - 1); }
  }

  lemma ListedSnoc<E(!new)>(nodes: seq<Node<E>>, node: Node<E>)
    ensures Listed(nodes + [node]) == Listed(nodes) + if node.op.Variable? then [node.op.meta] else []
  {
    VariablesPrefix(nodes, nodes + [node], |nodes|);
  }

  lemma {:induction false} WalkKnown<E(!new)>(seen: seq<Meta>, e: Expr<E>)
    requires forall m :: m in Vars(e) ==> m in seen
    ensures Walk(seen, e) == seen
    decreases e, 1
  {
    if !e.op.Variable? {
      forall i, m | 0 <= i < |e.children| && m in Vars(e.children[i]) ensures m in seen { ChildVars(e, i); }
      WalkAllKnown(seen, e.children);
    }
  }

  lemma {:induction false} WalkAllKnown<E(!new)>(seen: seq<Meta>, es: seq<Expr<E>>)
    requires forall i, m :: 0 <= i < |es| && m in Vars(es[i]) ==> m in seen
    ensures WalkAll(seen, es) == seen
    decreases es, 0
  {
    if es != [] {
      WalkAllKnown(seen, es[..|es| - 1]);
      WalkKnown(seen, es[|es| - 1]);
    }
  }

  /** Adding the node of e keeps the cover. */
  lemma CoverSnoc<E(!new)>(r: Ring<E>, h: Env<E>, d: Dag<E>, s: set<Expr<E>>, e: Expr<E>, ids: seq<nat>)
    requires Covered(r, h, d, s) && SameVars(s) && e in s && LeavesHashed(r, h, e)
    requires !e.op.Variable? ==> forall m :: m in Vars(e) ==> m in Listed(d.nodes)
    requires e.op.Variable? ==> e.children == []
    ensures Covered(r, h, Dag(d.nodes + [Node(e.esh, e.op, ids)], d.pos[e.esh := |d.nodes|]), s)
  {
    var d' := Dag(d.nodes + [Node(e.esh, e.op, ids)], d.pos[e.esh := |d.nodes|]);
    ListedSnoc(d.nodes, Node(e.esh, e.op, ids));
    forall x, m | x in s && x.esh in d'.pos && m in Vars(x) ensures m in Listed(d'.nodes) {
      if x.esh == e.esh {
        assert SameHash(x, e);
        assert m in Vars(e);
      } else {
        assert x in s && m in Vars(x);
      }
    }
    forall m | m in Listed(d'.nodes) ensures Lookup(r, h, m) in d'.pos {
      if m !in Listed(d.nodes) { assert e.op.Variable? && m == e.op.meta; }
    }
  }

  lemma {:induction false} AnchorWalk<E(!new)>(r: Ring<E>, h: Env<E>, d: Dag<E>, e: Expr<E>, s: set<Expr<E>>)
    requires WalkReady(r, h, s) && e in s && Covered(r, h, d, s)
    ensures var d' := Anchor(d, e).0;
            && Covered(r, h, d', s) && e.esh in d'.pos && (forall x :: x in d.pos ==> x in d'.pos)
            && Listed(d'.nodes) == Walk(Listed(d.nodes), e)
    decreases e, 1
  {
    if e.esh in d.pos {
      assert forall m :: m in Vars(e) ==> m in Listed(d.nodes);
      WalkKnown(Listed(d.nodes), e);
    } else {
      assert WellFormed(e) && LeavesHashed(r, h, e);
      forall i | 0 <= i < |e.children| ensures e.children[i] in s { ChildSubs(e, i); }
      AnchorAllWalk(r, h, d, e.children, s);
      var (d', ids) := AnchorAll(d, e.children);
      if !e.op.Variable? {
        forall m | m in Vars(e) ensures m in Listed(d'.nodes) {
          var i :| 0 <= i < |e.children| && m in Vars(e.children[i]);
          assert e.children[i] in s;
        }
      }
      CoverSnoc(r, h, d', s, e, ids);
      ListedSnoc(d'.nodes, Node(e.esh, e.op, ids));
      if e.op.Variable? {
        assert e.children == [];
        assert e.op.meta !in Listed(d.nodes);
      }
    }
  }

  lemma {:induction false} AnchorAllWalk<E(!new)>(r: Ring<E>, h: Env<E>, d: Dag<E>, es: seq<Expr<E>>, s: set<Expr<E>>)
    requires WalkReady(r, h, s) && Covered(r, h, d, s) && forall i :: 0 <= i < |es| ==> es[i] in s
    ensures var d' := AnchorAll(d, es).0;
            && Covered(r, h, d', s) && (forall x :: x in d.pos ==> x in d'.pos)
            && (forall i :: 0 <= i < |es| ==> es[i].esh in d'.pos)
            && Listed(d'.nodes) == WalkAll(Listed(d.nodes), es)
    decreases es, 0
  {
    if es != [] {
      var n := |es| - 1;
      AnchorAllWalk(r, h, d, es[..n], s);
      var (d', _) := AnchorAll(d, es[..n]);
      AnchorWalk(r, h, d', es[n], s);
    }
  }

  lemma SubsClosed<E(!new)>(e: Expr<E>)
    ensures ClosedUnderSubs(Subs(e))
  {
    forall x | x in Subs(e) ensures Subs(x) <= Subs(e) { SubsTransitive(e, x); }
  }

  lemma {:induction false} SubsLeavesHashed<E(!new)>(r: Ring<E>, h: Env<E>, e: Expr<E>, s: Expr<E>)
    requires LeavesHashed(r, h, e) && s in Subs(e)
    ensures LeavesHashed(r, h, s)
  {
    if s != e {
      var i :| 0 <= i < |e.children| && s in Subs(e.children[i]);
      SubsLeavesHashed(r, h, e.children[i], s);
    }
  }

  /** The walk over the tree lists the same variables in the same order as the board, in
      particular in the order in which the compiled program loads its inputs. */
  lemma ListsAgree<E(!new)>(r: Ring<E>, h: Env<E>, e: Expr<E>)
    requires WellFormed(e) && LeavesHashed(r, h, e) && SameVars(Subs(e))
    ensures Listed(Board(e).nodes) == Walk([], e)
  {
    SubsClosed(e);
    forall x | x in Subs(e) ensures WellFormed(x) && LeavesHashed(r, h, x) {
      SubsWellFormed(e, x);
      SubsLeavesHashed(r, h, e, x);
    }
    AnchorWalk(r, h, Dag([], map[]), e, Subs(e));
  }

  ghost predicate NoDuplicates(ms: seq<Meta>) {
    forall i, j :: 0 <= i < j < |ms| ==> ms[i] != ms[j]
  }

  lemma {:induction false} WalkNoDuplicates<E(!new)>(seen: seq<Meta>, e: Expr<E>)
    requires NoDuplicates(seen)
    ensures NoDuplicates(Walk(seen, e))
    decreases e, 1
  {
    if !e.op.Variable? { WalkAllNoDuplicates(seen, e.children); }
  }

  lemma {:induction false} WalkAllNoDuplicates<E(!new)>(seen: seq<Meta>, es: seq<Expr<E>>)
    requires NoDuplicates(seen)
    ensures NoDuplicates(WalkAll(seen, es))
    decreases es, 0
  {
    if es != [] {
      WalkAllNoDuplicates(seen, es[..|es| - 1]);
      WalkNoDuplicates(WalkAll(seen, es[..|es| - 1]), es[|es| - 1]);
    }
  }

  // ----- the board lists every variable once -----

  ghost predicate ListedOnce<E(!new)>(r: Ring<E>, h: Env<E>, d: Dag<E>) {
    && NoDuplicates(Listed(d.nodes))
    && forall m {:trigger m in Listed(d.nodes)} :: m in Listed(d.nodes) ==> Lookup(r, h, m) in d.pos
  }

  lemma {:induction false} AnchorListsOnce<E(!new)>(r: Ring<E>, h: Env<E>, d: Dag<E>, e: Expr<E>)
    requires WellFormed(e) && LeavesHashed(r, h, e) && ListedOnce(r, h, d)
    ensures ListedOnce(r, h, Anchor(d, e).0)
    decreases e, 1
  {
    if e.esh !in d.pos {
      AnchorAllListsOnce(r, h, d, e.children);
      var (d', ids) := AnchorAll(d, e.children);
      ListedSnoc(d'.nodes, Node(e.esh, e.op, ids));
      if e.op.Variable? { assert e.children == [] && e.op.meta !in Listed(d.nodes); }
    }
  }

  lemma {:induction false} AnchorAllListsOnce<E(!new)>(r: Ring<E>, h: Env<E>, d: Dag<E>, es: seq<Expr<E>>)
    requires ListedOnce(r, h, d) && forall i :: 0 <= i < |es| ==> WellFormed(es[i]) && LeavesHashed(r, h, es[i])
    ensures ListedOnce(r, h, AnchorAll(d, es).0)
    decreases es, 0
  {
    if es != [] {
      var n := |es| - 1;
      AnchorAllListsOnce(r, h, d, es[..n]);
      AnchorListsOnce(r, h, AnchorAll(d, es[..n]).0, es[n]);
    }
  }

  /** No collision of hashes makes a board list a variable twice. */
  lemma BoardListsOnce<E(!new)>(r: Ring<E>, h: Env<E>, e: Expr<E>)
    requires WellFormed(e) && LeavesHashed(r, h, e)
    ensures NoDuplicates(Listed(Board(e).nodes))
  {
    AnchorListsOnce(r, h, Dag([], map[]), e);
  }
}
