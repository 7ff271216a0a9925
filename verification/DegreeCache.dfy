/** The degree cache of expressions. An expression is a node of a graph whose edges lead to
    smaller nodes, so nodes may be shared and equal expressions may be distinct nodes. */
module DegreeCache {
  import opened Expressions
  import opened Boards
  import opened SubProducts
  import opened BoardDegrees

  type Cache = map<nat, int>

  /** The nodes reachable from node j, itself included. */
  ghost function Reach<E(!new)>(nodes: seq<Node<E>>, j: nat): set<nat>
    requires Sorted(nodes) && j < |nodes|
    decreases j
  {
    var cs := nodes[j].children;
    {j} + set k, s | 0 <= k < |cs| && s in Reach(nodes, cs[k]) :: s
  }

  /** The nodes reachable through the first n children of node j. */
  ghost function ChildReach<E(!new)>(nodes: seq<Node<E>>, j: nat, n: nat): set<nat>
    requires Sorted(nodes) && j < |nodes| && n <= |nodes[j].children|
  {
    set k, s | 0 <= k < n && s in Reach(nodes, nodes[j].children[k]) :: s
  }

  lemma ChildReachNext<E(!new)>(nodes: seq<Node<E>>, j: nat, n: nat)
    requires Sorted(nodes) && j < |nodes| && n < |nodes[j].children|
    ensures ChildReach(nodes, j, n + 1) == ChildReach(nodes, j, n) + Reach(nodes, nodes[j].children[n])
  {
    var s, t := ChildReach(nodes, j, n + 1), ChildReach(nodes, j, n) + Reach(nodes, nodes[j].children[n]);
    forall x | x in s ensures x in t {
      var k :| 0 <= k < n + 1 && x in Reach(nodes, nodes[j].children[k]);
    }
  }

  lemma ReachIsChildReach<E(!new)>(nodes: seq<Node<E>>, j: nat)
    requires Sorted(nodes) && j < |nodes|
    ensures Reach(nodes, j) == {j} + ChildReach(nodes, j, |nodes[j].children|)
  {
  }

  // ----- what a cached computation answers -----

  /** The answer at node j: its cached degree, or the operator over the answers of its children. */
  ghost function Seen<E(!new)>(g: DegreeGetter, nodes: seq<Node<E>>, cache: Cache, j: nat): int
    requires Sorted(nodes) && j < |nodes|
    decreases j
  {
    if j in cache then cache[j]
    else
      var cs := nodes[j].children;
      OpDegree(nodes[j].op, seq(|cs|, k requires 0 <= k < |cs| => Seen(g, nodes, cache, cs[k])), g)
  }

  ghost function SeenChildren<E(!new)>(g: DegreeGetter, nodes: seq<Node<E>>, cache: Cache, j: nat): (ns: seq<int>)
    requires Sorted(nodes) && j < |nodes|
    ensures |ns| == |nodes[j].children|
  {
    var cs := nodes[j].children;
    seq(|cs|, k requires 0 <= k < |cs| => Seen(g, nodes, cache, cs[k]))
  }

  lemma SeenStep<E(!new)>(g: DegreeGetter, nodes: seq<Node<E>>, cache: Cache, j: nat)
    requires Sorted(nodes) && j < |nodes| && j !in cache
    ensures Seen(g, nodes, cache, j) == OpDegree(nodes[j].op, SeenChildren(g, nodes, cache, j), g)
  {
    var cs := nodes[j].children;
    assert seq(|cs|, k requires 0 <= k < |cs| => Seen(g, nodes, cache, cs[k])) == SeenChildren(g, nodes, cache, j);
  }

  /** The later cache keeps every entry and adds only answers of the earlier one. */
  ghost predicate Grown<E(!new)>(g: DegreeGetter, nodes: seq<Node<E>>, was: Cache, now: Cache)
    requires Sorted(nodes)
  {
    && (forall k :: k in was ==> k in now && now[k] == was[k])
    && (forall k :: k in now && k < |nodes| ==> now[k] == Seen(g, nodes, was, k))
  }

  /** Remembering answers does not change any answer. */
  lemma {:induction false} GrownSeen<E(!new)>(g: DegreeGetter, nodes: seq<Node<E>>, was: Cache, now: Cache, j: nat)
    requires Sorted(nodes) && j < |nodes| && Grown(g, nodes, was, now)
    ensures Seen(g, nodes, now, j) == Seen(g, nodes, was, j)
    decreases j
  {
    if j !in now {
      forall k | 0 <= k < |nodes[j].children|
        ensures SeenChildren(g, nodes, now, j)[k] == SeenChildren(g, nodes, was, j)[k]
      {
        GrownSeen(g, nodes, was, now, nodes[j].children[k]);
      }
      assert SeenChildren(g, nodes, now, j) == SeenChildren(g, nodes, was, j);
      SeenStep(g, nodes, now, j);
      SeenStep(g, nodes, was, j);
    }
  }

  lemma GrownChain<E(!new)>(g: DegreeGetter, nodes: seq<Node<E>>, a: Cache, b: Cache, c: Cache)
    requires Sorted(nodes) && Grown(g, nodes, a, b) && Grown(g, nodes, b, c)
    ensures Grown(g, nodes, a, c)
  {
    forall k | k in c && k < |nodes| ensures c[k] == Seen(g, nodes, a, k) { GrownSeen(g, nodes, a, b, k); }
  }

  /** The cache has grown by answers at the given nodes only. */
  ghost predicate Kept<E(!new)>(g: DegreeGetter, nodes: seq<Node<E>>, was: Cache, now: Cache, among: set<nat>)
    requires Sorted(nodes)
  {
    Grown(g, nodes, was, now) && now.Keys <= was.Keys + among
  }

  /** The first k children of node j have been answered and remembered. */
  ghost predicate KeptTo<E(!new)>(g: DegreeGetter, nodes: seq<Node<E>>, j: nat, k: nat, was: Cache, now: Cache,
                                  degrees: seq<int>)
    requires Sorted(nodes) && j < |nodes|
  {
    && k <= |nodes[j].children| && degrees == SeenChildren(g, nodes, was, j)[..k]
    && Kept(g, nodes, was, now, ChildReach(nodes, j, k))
  }

  lemma KeptChain<E(!new)>(g: DegreeGetter, nodes: seq<Node<E>>, a: Cache, b: Cache, c: Cache, s: set<nat>, t: set<nat>)
    requires Sorted(nodes) && Kept(g, nodes, a, b, s) && Kept(g, nodes, b, c, t)
    ensures Kept(g, nodes, a, c, s + t)
  {
    GrownChain(g, nodes, a, b, c);
  }

  lemma PrefixNext(want: seq<int>, degrees: seq<int>, k: nat)
    requires k < |want| && degrees == want[..k]
    ensures degrees + [want[k]] == want[..k + 1]
  {
  }

  lemma KeptNext<E(!new)>(g: DegreeGetter, nodes: seq<Node<E>>, j: nat, k: nat, was: Cache, mid: Cache, now: Cache,
                          degrees: seq<int>, d: int)
    requires Sorted(nodes) && j < |nodes| && k < |nodes[j].children| && KeptTo(g, nodes, j, k, was, mid, degrees)
    requires var c := nodes[j].children[k];
             Kept(g, nodes, mid, now, Reach(nodes, c)) && d == Seen(g, nodes, mid, c)
    ensures KeptTo(g, nodes, j, k + 1, was, now, degrees + [d])
  {
    var c := nodes[j].children[k];
    GrownSeen(g, nodes, was, mid, c);
    KeptChain(g, nodes, was, mid, now, ChildReach(nodes, j, k), Reach(nodes, c));
    ChildReachNext(nodes, j, k);
    PrefixNext(SeenChildren(g, nodes, was, j), degrees, k);
  }

  lemma KeptLast<E(!new)>(g: DegreeGetter, nodes: seq<Node<E>>, j: nat, was: Cache, now: Cache, degrees: seq<int>,
                          d: int)
    requires Sorted(nodes) && j < |nodes| && j !in was && d == OpDegree(nodes[j].op, degrees, g)
    requires KeptTo(g, nodes, j, |nodes[j].children|, was, now, degrees)
    ensures d == Seen(g, nodes, was, j) && Kept(g, nodes, was, now[j := d], Reach(nodes, j))
  {
    assert degrees == SeenChildren(g, nodes, was, j);
    SeenStep(g, nodes, was, j);
    ReachIsChildReach(nodes, j);
  }

  // ----- when the answers are right -----

  /** Every cached degree of the given nodes is the degree under this getter. */
  ghost predicate Agrees<E(!new)>(g: DegreeGetter, nodes: seq<Node<E>>, cache: Cache, among: set<nat>)
    requires Sorted(nodes)
  {
    forall k :: k in among && k in cache && k < |nodes| ==> cache[k] == NodeDegree(g, nodes, k)
  }

  lemma {:induction false} AgreeingSeen<E(!new)>(g: DegreeGetter, nodes: seq<Node<E>>, cache: Cache, j: nat)
    requires Sorted(nodes) && j < |nodes| && Agrees(g, nodes, cache, Reach(nodes, j))
    ensures Seen(g, nodes, cache, j) == NodeDegree(g, nodes, j)
    decreases j
  {
    if j !in cache {
      var cs := nodes[j].children;
      forall k | 0 <= k < |cs| ensures SeenChildren(g, nodes, cache, j)[k] == ChildDegrees(g, nodes, j)[k] {
        assert Reach(nodes, cs[k]) <= Reach(nodes, j);
        AgreeingSeen(g, nodes, cache, cs[k]);
      }
      assert SeenChildren(g, nodes, cache, j) == ChildDegrees(g, nodes, j);
      SeenStep(g, nodes, cache, j);
      NodeDegreeStep(g, nodes, j);
    }
  }

  ghost predicate AllRight<E(!new)>(g: DegreeGetter, nodes: seq<Node<E>>, cache: Cache, j: nat)
    requires Sorted(nodes) && j < |nodes|
  {
    forall k :: k in Reach(nodes, j) && k < |nodes| ==> Seen(g, nodes, cache, k) == NodeDegree(g, nodes, k)
  }

  lemma {:induction false} ReachTransitive<E(!new)>(nodes: seq<Node<E>>, j: nat, k: nat)
    requires Sorted(nodes) && k < |nodes| && j < |nodes| && k in Reach(nodes, j)
    ensures Reach(nodes, k) <= Reach(nodes, j)
    decreases j
  {
    if k != j {
      var i :| 0 <= i < |nodes[j].children| && k in Reach(nodes, nodes[j].children[i]);
      ReachTransitive(nodes, nodes[j].children[i], k);
    }
  }

  /** The degrees of an expression and of all below it are right exactly when no cached degree
      below it disagrees with the getter. */
  lemma RightExactly<E(!new)>(g: DegreeGetter, nodes: seq<Node<E>>, cache: Cache, j: nat)
    requires Sorted(nodes) && j < |nodes|
    ensures AllRight(g, nodes, cache, j) <==> Agrees(g, nodes, cache, Reach(nodes, j))
  {
    if Agrees(g, nodes, cache, Reach(nodes, j)) {
      forall k | k in Reach(nodes, j) && k < |nodes| ensures Seen(g, nodes, cache, k) == NodeDegree(g, nodes, k) {
        ReachTransitive(nodes, j, k);
        AgreeingSeen(g, nodes, cache, k);
      }
    }
    if AllRight(g, nodes, cache, j) {
      forall k | k in Reach(nodes, j) && k in cache && k < |nodes| ensures cache[k] == NodeDegree(g, nodes, k) {
        assert Seen(g, nodes, cache, k) == cache[k];
      }
    }
  }

  /** A cache left by one getter answers for it whatever getter asks next: the answer at a cached
      node is right exactly when the two getters give it the same degree. */
  lemma StaleExactly<E(!new)>(g: DegreeGetter, other: DegreeGetter, nodes: seq<Node<E>>, cache: Cache, j: nat)
    requires Sorted(nodes) && j < |nodes| && j in cache && Grown(g, nodes, map[], cache)
    ensures Seen(other, nodes, cache, j) == NodeDegree(g, nodes, j)
    ensures Seen(other, nodes, cache, j) == NodeDegree(other, nodes, j)
            <==> NodeDegree(g, nodes, j) == NodeDegree(other, nodes, j)
  {
    AgreeingSeen(g, nodes, map[], j);
  }

  /** A single variable, asked under degree 1 and then under degree 2. */
  lemma StaleVariable<E(!new)>(m: Meta, h: E)
    ensures var nodes, one, two := [Node(h, Variable(m), [])], DegreeGetter(_ => 1), DegreeGetter(_ => 2);
            && Sorted(nodes) && Grown(one, nodes, map[], map[0 := 1])
            && Seen(two, nodes, map[0 := 1], 0) == 1 && NodeDegree(two, nodes, 0) == 2
  {
    var nodes := [Node(h, Variable(m), [])];
    SeenStep(DegreeGetter(_ => 1), nodes, map[], 0);
  }

  // ----- the cached fields -----

  class ExpressionNodes<E(!new)> {
    const nodes: seq<Node<E>>
    var cached: Cache

    constructor (nodes: seq<Node<E>>)
      requires Sorted(nodes)
      ensures this.nodes == nodes && cached == map[]
    {
      this.nodes := nodes;
      cached := map[];
    }

    /** degreeKeepCache: answers from the cache and remembers every answer that is not a constant's. */
    method KeepDegree(g: DegreeGetter, j: nat) returns (d: int)
      requires Sorted(nodes) && j < |nodes|
      modifies this`cached
      ensures d == Seen(g, nodes, old(cached), j)
      ensures Kept(g, nodes, old(cached), cached, Reach(nodes, j))
      ensures j in cached || nodes[j].op.Constant?
      decreases j, 1
    {
      if j in cached { return cached[j]; }
      if nodes[j].op.Constant? {
        SeenStep(g, nodes, cached, j);
        return 0;
      }
      var childrenDeg := KeepChildren(g, j);
      d := OpDegree(nodes[j].op, childrenDeg, g);
      KeptLast(g, nodes, j, old(cached), cached, childrenDeg, d);
      cached := cached[j := d];
    }

    method KeepChildren(g: DegreeGetter, j: nat) returns (childrenDeg: seq<int>)
      requires Sorted(nodes) && j < |nodes|
      modifies this`cached
      ensures KeptTo(g, nodes, j, |nodes[j].children|, old(cached), cached, childrenDeg)
      decreases j, 0
    {
      childrenDeg := [];
      for k := 0 to |nodes[j].children|
        invariant KeptTo(g, nodes, j, k, old(cached), cached, childrenDeg)
      {
        ghost var mid := cached;
        var d := KeepDegree(g, nodes[j].children[k]);
        KeptNext(g, nodes, j, k, old(cached), mid, cached, childrenDeg, d);
        childrenDeg := childrenDeg + [d];
      }
    }

    /** uncacheDegree: forgets the expression and everything below it, and nothing else. */
    method Uncache(j: nat)
      requires Sorted(nodes) && j < |nodes|
      modifies this`cached
      ensures cached == old(cached) - Reach(nodes, j)
      decreases j
    {
      for k := 0 to |nodes[j].children|
        invariant cached == old(cached) - ChildReach(nodes, j, k)
      {
        Uncache(nodes[j].children[k]);
        ChildReachNext(nodes, j, k);
      }
      cached := cached - {j};
    }

    /** Degree: the answer of the cache as it was found; nothing below stays cached. */
    method Degree(g: DegreeGetter, j: nat) returns (d: int)
      requires Sorted(nodes) && j < |nodes|
      modifies this`cached
      ensures d == Seen(g, nodes, old(cached), j)
      ensures cached == old(cached) - Reach(nodes, j)
    {
      ghost var was := cached;
      d := KeepDegree(g, j);
      Uncache(j);
      assert cached == was - Reach(nodes, j);
    }

    /** findOverDegreeIndices: the indices whose answers are above the bound, which are the
        degrees unless a cached one was stale. */
    method FindOverDegree(g: DegreeGetter, exprs: seq<nat>, bound: int) returns (indices: seq<nat>)
      requires Sorted(nodes) && forall i :: 0 <= i < |exprs| ==> exprs[i] < |nodes|
      modifies this`cached
      ensures Grown(g, nodes, old(cached), cached)
      ensures forall j, k :: 0 <= j < k < |indices| ==> indices[j] < indices[k]
      ensures forall i: nat :: i in indices <==> i < |exprs| && Seen(g, nodes, old(cached), exprs[i]) > bound
    {
      indices := [];
      for i := 0 to |exprs|
        invariant Grown(g, nodes, old(cached), cached)
        invariant forall j, k :: 0 <= j < k < |indices| ==> indices[j] < indices[k]
        invariant forall k: nat :: k in indices <==> k < i && Seen(g, nodes, old(cached), exprs[k]) > bound
      {
        ghost var mid := cached;
        var deg := KeepDegree(g, exprs[i]);
        GrownSeen(g, nodes, old(cached), mid, exprs[i]);
        GrownChain(g, nodes, old(cached), mid, cached);
        assert forall k :: 0 <= k < |indices| ==> indices[k] in indices;
        if deg > bound { indices := indices + [i]; }
      }
    }
  }

  /** A cache without stale degrees stays so, and every answer from it is the degree. */
  lemma GrownAgrees<E(!new)>(g: DegreeGetter, nodes: seq<Node<E>>, was: Cache, now: Cache)
    requires Sorted(nodes) && Grown(g, nodes, was, now) && Agrees(g, nodes, was, was.Keys)
    ensures Agrees(g, nodes, now, now.Keys)
    ensures forall j :: 0 <= j < |nodes| ==> Seen(g, nodes, now, j) == NodeDegree(g, nodes, j)
  {
    forall k: nat | k < |nodes| ensures Seen(g, nodes, was, k) == NodeDegree(g, nodes, k) {
      AgreeingSeen(g, nodes, was, k);
    }
    forall k: nat | k < |nodes| ensures Seen(g, nodes, now, k) == NodeDegree(g, nodes, k) {
      GrownSeen(g, nodes, was, now, k);
    }
  }

  /** Once Degree has cleared the expression it is right, whatever was cached before. */
  lemma ClearedRight<E(!new)>(g: DegreeGetter, nodes: seq<Node<E>>, cache: Cache, j: nat)
    requires Sorted(nodes) && j < |nodes|
    ensures Seen(g, nodes, cache - Reach(nodes, j), j) == NodeDegree(g, nodes, j)
  {
    AgreeingSeen(g, nodes, cache - Reach(nodes, j), j);
  }
}
