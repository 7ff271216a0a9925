/** Liveness analysis and slot allocation of the bytecode compiler. */
module Allocation {
  import opened Expressions
  import opened Boards

  // ----- liveness -----

  /** Last node among the first n that reads node j; the root counts as read at the end,
      a node never read has -1. */
  function LastUseTo<E>(nodes: seq<Node<E>>, j: nat, n: nat): int
    requires n <= |nodes| && j < |nodes|
  {
    if n == 0 then if j == |nodes| - 1 then |nodes| else -1
    else
      var before := LastUseTo(nodes, j, n - 1);
      if j in nodes[n - 1].children && n - 1 > before then n - 1 else before
  }

  function LastUse<E>(nodes: seq<Node<E>>, j: nat): int
    requires j < |nodes|
  {
    LastUseTo(nodes, j, |nodes|)
  }

  lemma {:induction false} LastUseIsReader<E(!new)>(nodes: seq<Node<E>>, j: nat, n: nat)
    requires n <= |nodes| && j < |nodes|
    ensures var u := LastUseTo(nodes, j, n);
            && (if j == |nodes| - 1 then u == |nodes| else u < n)
            && (j != |nodes| - 1 && 0 <= u ==> j in nodes[u].children)
            && (forall i :: 0 <= i < n && j in nodes[i].children ==> i <= u)
  {
    if n > 0 { LastUseIsReader(nodes, j, n - 1); }
  }

  /** After node i is computed a node j < i is kept while it still has a reader at or
      after i, and for ever when it has none. */
  ghost predicate Held<E(!new)>(nodes: seq<Node<E>>, j: nat, i: nat)
    requires j < |nodes|
  {
    LastUse(nodes, j) >= i || LastUse(nodes, j) < 0
  }

  /** A node is read only by later nodes. */
  lemma UseIsLater<E(!new)>(nodes: seq<Node<E>>, j: nat)
    requires Sorted(nodes) && j < |nodes|
    ensures LastUse(nodes, j) > j || LastUse(nodes, j) < 0
    ensures LastUse(nodes, |nodes| - 1) == |nodes|
    ensures forall i :: 0 <= i < |nodes| && j in nodes[i].children ==> i <= LastUse(nodes, j)
    ensures forall i :: 0 <= i < |nodes| && LastUse(nodes, j) == i ==> j in nodes[i].children
  {
    LastUseIsReader(nodes, j, |nodes|);
    LastUseIsReader(nodes, |nodes| - 1, |nodes|);
    var u := LastUse(nodes, j);
    if 0 <= u < |nodes| {
      var k :| 0 <= k < |nodes[u].children| && nodes[u].children[k] == j;
    }
  }

  // ----- the allocator -----

  datatype Alloc = Alloc(slots: seq<nat>, free: seq<nat>, next: nat)

  predicate ReadsBelow<E>(nodes: seq<Node<E>>, i: nat, m: nat)
    requires i < |nodes|
  {
    m <= |nodes| && forall k :: 0 <= k < |nodes[i].children| ==> nodes[i].children[k] < m
  }

  /** The slots released after node i by its first k children, each once. */
  function Released<E>(nodes: seq<Node<E>>, slots: seq<nat>, i: nat, k: nat): seq<nat>
    requires i < |nodes| && k <= |nodes[i].children|
    requires ReadsBelow(nodes, i, |slots|)
  {
    if k == 0 then []
    else
      var before := Released(nodes, slots, i, k - 1);
      var c := nodes[i].children[k - 1];
      if LastUse(nodes, c) == i && slots[c] !in before then before + [slots[c]] else before
  }

  /** Takes the most recently freed slot, or a new one. */
  function Take(a: Alloc, dst: nat): Alloc {
    if a.free != [] then Alloc(a.slots + [dst], a.free[..|a.free| - 1], a.next)
    else Alloc(a.slots + [dst], [], a.next + 1)
  }

  function Target(a: Alloc): nat {
    if a.free != [] then a.free[|a.free| - 1] else a.next
  }

  function AllocTo<E(!new)>(nodes: seq<Node<E>>, n: nat): (a: Alloc)
    requires Sorted(nodes) && n <= |nodes|
    ensures |a.slots| == n
  {
    if n == 0 then Alloc([], [], 0) else Advance(nodes, AllocTo(nodes, n - 1))
  }

  /** Gives the next node a slot, then releases the operands it was the last to read. */
  function Advance<E(!new)>(nodes: seq<Node<E>>, before: Alloc): (a: Alloc)
    requires Sorted(nodes) && |before.slots| < |nodes|
    ensures |a.slots| == |before.slots| + 1
  {
    var i := |before.slots|;
    var a := Take(before, Target(before));
    Alloc(a.slots, a.free + Released(nodes, a.slots, i, |nodes[i].children|), a.next)
  }

  // ----- the allocation invariant -----

  ghost predicate NoRepeats(xs: seq<nat>) {
    forall i, j :: 0 <= i < j < |xs| ==> xs[i] != xs[j]
  }

  /** The slots below `next` are split between the free list and the held nodes, which own
      pairwise different slots. */
  ghost predicate Partition(held: set<nat>, a: Alloc) {
    && (forall j :: j in held ==> j < |a.slots| && a.slots[j] < a.next && a.slots[j] !in a.free)
    && (forall j, k :: j in held && k in held && j != k ==> a.slots[j] != a.slots[k])
    && NoRepeats(a.free)
    && (forall s :: s in a.free ==> s < a.next)
    && (forall s: nat {:trigger s in a.free} :: s < a.next && s !in a.free ==> Owned(held, a, s))
  }

  ghost predicate Owned(held: set<nat>, a: Alloc, s: nat) {
    exists j :: j in held && j < |a.slots| && a.slots[j] == s
  }

  ghost function HeldAt<E(!new)>(nodes: seq<Node<E>>, i: nat): set<nat>
    requires i <= |nodes|
  {
    set j: nat | j < i && Held(nodes, j, i)
  }

  /** The slot taken is owned by nobody and leaves the free list. */
  lemma TargetIsFresh(held: set<nat>, a: Alloc)
    requires Partition(held, a)
    ensures Target(a) !in Take(a, Target(a)).free && Target(a) < Take(a, Target(a)).next
    ensures forall j :: j in held ==> a.slots[j] != Target(a)
  {
    if a.free != [] { assert a.free[|a.free| - 1] in a.free; }
  }

  lemma TakeFree(held: set<nat>, a: Alloc)
    requires Partition(held, a)
    ensures NoRepeats(Take(a, Target(a)).free)
    ensures forall s :: s in a.free <==> s in Take(a, Target(a)).free || (a.free != [] && s == Target(a))
  {
    if a.free != [] { assert a.free == Take(a, Target(a)).free + [Target(a)]; }
  }

  lemma TakeKeepsPartition(held: set<nat>, a: Alloc)
    requires Partition(held, a)
    ensures Partition(held + {|a.slots|}, Take(a, Target(a)))
  {
    TargetIsFresh(held, a);
    TakeFree(held, a);
    var b := Take(a, Target(a));
    var held' := held + {|a.slots|};
    assert b.slots[|a.slots|] == Target(a);
    forall s: nat | s < b.next && s !in b.free ensures Owned(held', b, s) {
      if s != Target(a) {
        assert s !in a.free;
        assert Owned(held, a, s);
        var j :| j in held && j < |a.slots| && a.slots[j] == s;
        assert b.slots[j] == s;
      }
    }
  }

  /** What is released is exactly the slots of the children read for the last time. */
  lemma {:induction false} ReleasedSlots<E(!new)>(nodes: seq<Node<E>>, slots: seq<nat>, i: nat, k: nat)
    requires i < |nodes| && k <= |nodes[i].children|
    requires ReadsBelow(nodes, i, |slots|)
    ensures NoRepeats(Released(nodes, slots, i, k))
    ensures forall s :: s in Released(nodes, slots, i, k) <==> LastRead(nodes, slots, i, k, s)
  {
    if k > 0 {
      ReleasedSlots(nodes, slots, i, k - 1);
      forall s ensures s in Released(nodes, slots, i, k) <==> LastRead(nodes, slots, i, k, s) {
        LastReadStep(nodes, slots, i, k, s);
      }
    }
  }

  lemma LastReadStep<E(!new)>(nodes: seq<Node<E>>, slots: seq<nat>, i: nat, k: nat, s: nat)
    requires i < |nodes| && 0 < k <= |nodes[i].children| && ReadsBelow(nodes, i, |slots|)
    ensures var c := nodes[i].children[k - 1];
            LastRead(nodes, slots, i, k, s) <==>
            (LastRead(nodes, slots, i, k - 1, s) || (LastUse(nodes, c) == i && slots[c] == s))
  {
  }

  ghost predicate LastRead<E(!new)>(nodes: seq<Node<E>>, slots: seq<nat>, i: nat, k: nat, s: nat)
    requires i < |nodes| && k <= |nodes[i].children|
    requires ReadsBelow(nodes, i, |slots|)
  {
    exists m :: 0 <= m < k && LastUse(nodes, nodes[i].children[m]) == i && slots[nodes[i].children[m]] == s
  }

  /** Moving a set of held nodes to the free list keeps the partition. */
  lemma ReleaseKeepsPartition(held: set<nat>, gone: set<nat>, a: Alloc, released: seq<nat>)
    requires Partition(held, a) && gone <= held && NoRepeats(released)
    requires forall j :: j in gone ==> a.slots[j] in released
    requires forall s :: s in released ==> exists j :: j in gone && a.slots[j] == s
    ensures Partition(held - gone, Alloc(a.slots, a.free + released, a.next))
  {
    var b := Alloc(a.slots, a.free + released, a.next);
    forall s | s in released ensures s !in a.free && s < a.next && forall j :: j in held - gone ==> a.slots[j] != s {
      var g :| g in gone && a.slots[g] == s;
    }
    assert NoRepeats(b.free) by {
      forall i, j | 0 <= i < j < |b.free| ensures b.free[i] != b.free[j] {
        if i < |a.free| <= j { assert b.free[i] in a.free && b.free[j] in released; }
      }
    }
    forall s: nat | s < b.next && s !in b.free ensures Owned(held - gone, b, s) {
      assert s !in a.free && s !in released;
      assert Owned(held, a, s);
    }
  }

  ghost function Retired<E(!new)>(nodes: seq<Node<E>>, i: nat): set<nat>
    requires i < |nodes|
  {
    set j: nat | j < i && LastUse(nodes, j) == i
  }

  lemma HeldStep<E(!new)>(nodes: seq<Node<E>>, i: nat)
    requires Sorted(nodes) && i < |nodes|
    ensures Retired(nodes, i) <= HeldAt(nodes, i)
    ensures HeldAt(nodes, i + 1) == HeldAt(nodes, i) + {i} - Retired(nodes, i)
  {
    UseIsLater(nodes, i);
  }

  lemma {:induction false} AllocInvariant<E(!new)>(nodes: seq<Node<E>>, n: nat)
    requires Sorted(nodes) && n <= |nodes|
    ensures Partition(HeldAt(nodes, n), AllocTo(nodes, n))
  {
    if n > 0 {
      var i := n - 1;
      AllocInvariant(nodes, i);
      var before := AllocTo(nodes, i);
      TakeKeepsPartition(HeldAt(nodes, i), before);
      var a := Take(before, Target(before));
      ReleasedSlots(nodes, a.slots, i, |nodes[i].children|);
      HeldStep(nodes, i);
      RetiredReleased(nodes, a.slots, i);
      ReleaseKeepsPartition(HeldAt(nodes, i) + {i}, Retired(nodes, i), a,
                            Released(nodes, a.slots, i, |nodes[i].children|));
    }
  }

  lemma RetiredReleased<E(!new)>(nodes: seq<Node<E>>, slots: seq<nat>, i: nat)
    requires Sorted(nodes) && i < |nodes| && |slots| == i + 1
    ensures var released := Released(nodes, slots, i, |nodes[i].children|);
            && (forall j :: j in Retired(nodes, i) ==> slots[j] in released)
            && (forall s :: s in released ==> exists j :: j in Retired(nodes, i) && slots[j] == s)
  {
    var n := |nodes[i].children|;
    ReleasedSlots(nodes, slots, i, n);
    forall j | j in Retired(nodes, i) ensures slots[j] in Released(nodes, slots, i, n) {
      UseIsLater(nodes, j);
      assert LastRead(nodes, slots, i, n, slots[j]);
    }
    forall s | s in Released(nodes, slots, i, n) ensures exists j :: j in Retired(nodes, i) && slots[j] == s {
      assert LastRead(nodes, slots, i, n, s);
      var m :| 0 <= m < n && LastUse(nodes, nodes[i].children[m]) == i && slots[nodes[i].children[m]] == s;
      assert nodes[i].children[m] in Retired(nodes, i);
    }
  }

  // ----- safety -----

  /** No node is written into the slot of a node that is still to be read, in particular
      not into the slot of one of its own operands. */
  ghost predicate NonAliasing<E(!new)>(nodes: seq<Node<E>>, slots: seq<nat>) {
    && |slots| <= |nodes|
    && forall j, i :: 0 <= j < i < |slots| && LastUse(nodes, j) >= i ==> slots[j] != slots[i]
  }

  lemma {:induction false} AllocSafe<E(!new)>(nodes: seq<Node<E>>, n: nat)
    requires Sorted(nodes) && n <= |nodes|
    ensures NonAliasing(nodes, AllocTo(nodes, n).slots)
    ensures forall j :: 0 <= j < n ==> AllocTo(nodes, n).slots[j] < AllocTo(nodes, n).next
  {
    if n > 0 {
      var before := AllocTo(nodes, n - 1);
      AllocSafe(nodes, n - 1);
      AllocInvariant(nodes, n - 1);
      TargetIsFresh(HeldAt(nodes, n - 1), before);
      var slots := AllocTo(nodes, n).slots;
      assert slots == before.slots + [Target(before)];
      forall j | 0 <= j < n - 1 && LastUse(nodes, j) >= n - 1 ensures slots[j] != slots[n - 1] {
        assert j in HeldAt(nodes, n - 1);
      }
    }
  }

  lemma OperandsDiffer<E(!new)>(nodes: seq<Node<E>>, slots: seq<nat>, i: nat, k: nat)
    requires Sorted(nodes) && NonAliasing(nodes, slots) && i < |slots| && k < |nodes[i].children|
    ensures slots[nodes[i].children[k]] != slots[i]
  {
    UseIsLater(nodes, nodes[i].children[k]);
    assert nodes[i].children[k] in nodes[i].children;
  }

  // ----- optimality -----

  /** The largest number of nodes held at the same time, counting the one being written. */
  ghost function Peak<E(!new)>(nodes: seq<Node<E>>, n: nat): nat
    requires n <= |nodes|
  {
    if n == 0 then 0
    else
      var here := |HeldAt(nodes, n - 1)| + 1;
      if Peak(nodes, n - 1) < here then here else Peak(nodes, n - 1)
  }

  ghost function Below(n: nat): set<nat> {
    if n == 0 then {} else Below(n - 1) + {n - 1}
  }

  lemma {:induction false} BelowSize(n: nat)
    ensures |Below(n)| == n
    ensures forall s: nat :: s in Below(n) <==> s < n
  {
    if n > 0 { BelowSize(n - 1); }
  }

  lemma SubsetSize<T>(a: set<T>, b: set<T>)
    requires a <= b
    ensures |a| <= |b|
  {
    assert b == a + (b - a);
  }

  ghost function SlotsOf(held: set<nat>, slots: seq<nat>): set<nat>
    requires forall j :: j in held ==> j < |slots|
  {
    set j | j in held :: slots[j]
  }

  lemma {:induction false} InjectiveSize(held: set<nat>, slots: seq<nat>)
    requires forall j :: j in held ==> j < |slots|
    requires forall j, k :: j in held && k in held && j != k ==> slots[j] != slots[k]
    ensures |SlotsOf(held, slots)| == |held|
  {
    if held != {} {
      var j :| j in held;
      InjectiveSize(held - {j}, slots);
      assert SlotsOf(held, slots) == SlotsOf(held - {j}, slots) + {slots[j]};
      assert held == (held - {j}) + {j};
    }
  }

  /** With an empty free list every slot is held; with a free slot one more fits. */
  lemma PartitionSize(held: set<nat>, a: Alloc)
    requires Partition(held, a)
    ensures a.free == [] ==> |held| == a.next
    ensures a.free != [] ==> |held| < a.next
  {
    InjectiveSize(held, a.slots);
    BelowSize(a.next);
    var owned := SlotsOf(held, a.slots);
    if a.free == [] {
      forall s | s in Below(a.next) ensures s in owned {
        assert s !in a.free;
        assert Owned(held, a, s);
      }
      assert owned == Below(a.next);
    } else {
      var s := a.free[0];
      assert s in a.free;
      assert s !in owned && owned + {s} <= Below(a.next);
      SubsetSize(owned + {s}, Below(a.next));
    }
  }

  /** The allocator never opens more slots than the peak demand. */
  lemma {:induction false} AllocIsPeak<E(!new)>(nodes: seq<Node<E>>, n: nat)
    requires Sorted(nodes) && n <= |nodes|
    ensures AllocTo(nodes, n).next == Peak(nodes, n)
  {
    if n > 0 {
      AllocIsPeak(nodes, n - 1);
      AllocInvariant(nodes, n - 1);
      PartitionSize(HeldAt(nodes, n - 1), AllocTo(nodes, n - 1));
    }
  }

  /** When every node has a reader, no assignment without aliasing gets by with fewer slots. */
  lemma {:induction false} PeakIsNeeded<E(!new)>(nodes: seq<Node<E>>, slots: seq<nat>, bound: nat, n: nat)
    requires Sorted(nodes) && AllUsed(nodes) && |slots| == |nodes| && NonAliasing(nodes, slots) && n <= |nodes|
    requires forall j :: 0 <= j < |slots| ==> slots[j] < bound
    ensures Peak(nodes, n) <= bound
  {
    if n > 0 {
      PeakIsNeeded(nodes, slots, bound, n - 1);
      var i := n - 1;
      var live := HeldAt(nodes, i) + {i};
      forall j | j in HeldAt(nodes, i) ensures LastUse(nodes, j) >= i {
        UseIsLater(nodes, j);
        assert Used(nodes, j);
      }
      forall j, k | j in live && k in live && j < k ensures slots[j] != slots[k] {
        assert LastUse(nodes, j) >= k;
      }
      InjectiveSize(live, slots);
      BelowSize(bound);
      SubsetSize(SlotsOf(live, slots), Below(bound));
    }
  }

  /** Slot allocation is optimal on the board of an expression. */
  lemma AllocOptimal<E(!new)>(e: Expr<E>, slots: seq<nat>, bound: nat)
    requires |slots| == |Board(e).nodes| && NonAliasing(Board(e).nodes, slots)
    requires forall j :: 0 <= j < |slots| ==> slots[j] < bound
    ensures Sorted(Board(e).nodes) && AllocTo(Board(e).nodes, |slots|).next <= bound
  {
    BoardShape(e);
    AllocIsPeak(Board(e).nodes, |slots|);
    PeakIsNeeded(Board(e).nodes, slots, bound, |slots|);
  }
}
