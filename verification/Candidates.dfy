/** Collecting the candidates for elimination and selecting the most frequent one. */
module Candidates {
  import opened Algebra
  import opened Expressions
  import opened Simplification
  import opened SubProducts
  import opened SubMultisets
  import opened Offers

  // ----- the candidate map -----

  datatype Candidate<E> = Candidate(expr: Expr<E>, count: nat)

  function Slot<E(==)>(cs: seq<Candidate<E>>, h: E): (i: nat)
    ensures i <= |cs|
    ensures i < |cs| ==> cs[i].expr.esh == h
    ensures forall j :: 0 <= j < i ==> cs[j].expr.esh != h
  {
    if cs == [] then 0 else if cs[0].expr.esh == h then 0 else 1 + Slot(cs[1..], h)
  }

  function AddOffer<E(==)>(cs: seq<Candidate<E>>, e: Expr<E>): seq<Candidate<E>> {
    var i := Slot(cs, e.esh);
    if i < |cs| then cs[i := cs[i].(count := cs[i].count + 1)] else cs + [Candidate(e, 1)]
  }

  function AddOffers<E(==)>(cs: seq<Candidate<E>>, es: seq<Expr<E>>): seq<Candidate<E>> {
    if es == [] then cs else AddOffer(AddOffers(cs, es[..|es| - 1]), es[|es| - 1])
  }

  lemma AddOffersSnoc<E>(cs: seq<Candidate<E>>, es: seq<Expr<E>>, e: Expr<E>)
    ensures AddOffers(cs, es + [e]) == AddOffer(AddOffers(cs, es), e)
  {
    assert (es + [e])[..|es|] == es;
  }

  lemma {:induction false} AddOffersAppend<E>(cs: seq<Candidate<E>>, es: seq<Expr<E>>, more: seq<Expr<E>>)
    ensures AddOffers(AddOffers(cs, es), more) == AddOffers(cs, es + more)
    decreases |more|
  {
    if more == [] {
      assert es + more == es;
    } else {
      var front, e := more[..|more| - 1], more[|more| - 1];
      AddOffersAppend(cs, es, front);
      assert more == front + [e] && es + more == (es + front) + [e];
      AddOffersSnoc(AddOffers(cs, es), front, e);
      AddOffersSnoc(cs, es + front, e);
    }
  }

  /** t is the first of its hash in the list. */
  ghost predicate IsFirst<E(!new)>(es: seq<Expr<E>>, t: Expr<E>) {
    exists p :: 0 <= p < |es| && es[p] == t && forall q :: 0 <= q < p ==> es[q].esh != t.esh
  }

  /** One entry per hash, with the first expression offered and the number of offers. */
  ghost predicate Tallied<E(!new)>(cs: seq<Candidate<E>>, es: seq<Expr<E>>) {
    && (forall i, j :: 0 <= i < j < |cs| ==> cs[i].expr.esh != cs[j].expr.esh)
    && (forall i :: 0 <= i < |cs| ==> EntryFor(cs[i], es))
    && (forall e :: e in es ==> HasEntry(cs, e.esh))
  }

  ghost predicate EntryFor<E(!new)>(entry: Candidate<E>, es: seq<Expr<E>>) {
    IsFirst(es, entry.expr) && entry.count == Occurrences(es, entry.expr.esh)
  }

  ghost predicate HasEntry<E(!new)>(cs: seq<Candidate<E>>, h: E) {
    exists i :: 0 <= i < |cs| && cs[i].expr.esh == h
  }

  lemma {:induction false} Tally<E(!new)>(es: seq<Expr<E>>)
    ensures Tallied(AddOffers([], es), es)
  {
    if es != [] {
      var n := |es| - 1;
      Tally(es[..n]);
      TallyStep(AddOffers([], es[..n]), es[..n], es[n]);
      assert es == es[..n] + [es[n]];
    }
  }

  lemma FirstStays<E(!new)>(es: seq<Expr<E>>, t: Expr<E>, e: Expr<E>)
    requires IsFirst(es, t)
    ensures IsFirst(es + [e], t)
  {
    var p :| 0 <= p < |es| && es[p] == t && forall q :: 0 <= q < p ==> es[q].esh != t.esh;
    assert (es + [e])[p] == t;
  }

  lemma OccurrencesSnoc<E(!new)>(es: seq<Expr<E>>, e: Expr<E>, h: E)
    ensures Occurrences(es + [e], h) == Occurrences(es, h) + if e.esh == h then 1 else 0
  {
    assert (es + [e])[..|es|] == es;
  }

  lemma NewEntry<E(!new)>(cs: seq<Candidate<E>>, es: seq<Expr<E>>, e: Expr<E>)
    requires Tallied(cs, es) && !HasEntry(cs, e.esh)
    ensures EntryFor(Candidate(e, 1), es + [e])
  {
    forall x | x in es ensures x.esh != e.esh { assert HasEntry(cs, x.esh); }
    NoOccurrence(es, e.esh);
    OccurrencesSnoc(es, e, e.esh);
    assert (es + [e])[|es|] == e;
  }

  lemma EntryKept<E(!new)>(cs: seq<Candidate<E>>, es: seq<Expr<E>>, e: Expr<E>, k: nat)
    requires Tallied(cs, es) && k < |cs|
    ensures EntryFor(AddOffer(cs, e)[k], es + [e])
  {
    assert EntryFor(cs[k], es);
    FirstStays(es, cs[k].expr, e);
    OccurrencesSnoc(es, e, cs[k].expr.esh);
    if Slot(cs, e.esh) < |cs| && cs[k].expr.esh == e.esh { assert Slot(cs, e.esh) == k; }
  }

  lemma EntryOf<E(!new)>(cs: seq<Candidate<E>>, es: seq<Expr<E>>, e: Expr<E>, x: Expr<E>)
    requires Tallied(cs, es) && x in es + [e]
    ensures HasEntry(AddOffer(cs, e), x.esh)
  {
    var cs' := AddOffer(cs, e);
    if x in es {
      assert HasEntry(cs, x.esh);
      var k :| 0 <= k < |cs| && cs[k].expr.esh == x.esh;
      assert cs'[k].expr.esh == x.esh;
    } else {
      assert cs'[Slot(cs, e.esh)].expr.esh == x.esh;
    }
  }

  lemma TallyStep<E(!new)>(cs: seq<Candidate<E>>, es: seq<Expr<E>>, e: Expr<E>)
    requires Tallied(cs, es)
    ensures Tallied(AddOffer(cs, e), es + [e])
  {
    var cs' := AddOffer(cs, e);
    forall k | 0 <= k < |cs'| ensures EntryFor(cs'[k], es + [e]) {
      if k < |cs| { EntryKept(cs, es, e, k); } else { NewEntry(cs, es, e); }
    }
    forall x | x in es + [e] ensures HasEntry(cs', x.esh) { EntryOf(cs, es, e, x); }
  }

  // ----- the number of entries -----

  ghost function HashesOf<E(!new)>(es: seq<Expr<E>>): set<E> {
    set t | t in es :: t.esh
  }

  ghost function EntryHashes<E(!new)>(cs: seq<Candidate<E>>): (hs: seq<E>)
    ensures |hs| == |cs|
  {
    seq(|cs|, i requires 0 <= i < |cs| => cs[i].expr.esh)
  }

  lemma {:induction false} AllCounted<T(!new)>(s: seq<T>, of: set<T>)
    requires forall x :: x in s ==> x in of
    ensures CountMembers(s, of) == |s|
  {
    if s != [] { AllCounted(s[..|s| - 1], of); }
  }

  /** There are as many entries as hashes. */
  lemma TallySize<E(!new)>(cs: seq<Candidate<E>>, es: seq<Expr<E>>)
    requires Tallied(cs, es)
    ensures |cs| == |HashesOf(es)|
  {
    var hs := EntryHashes(cs);
    forall h | h in hs ensures h in HashesOf(es) {
      var i :| 0 <= i < |hs| && hs[i] == h;
      assert EntryFor(cs[i], es);
      assert cs[i].expr in es;
    }
    forall h | h in HashesOf(es) ensures h in hs {
      var t :| t in es && t.esh == h;
      assert HasEntry(cs, h);
      var i :| 0 <= i < |cs| && cs[i].expr.esh == h;
      assert hs[i] == h;
    }
    AllCounted(hs, HashesOf(es));
    MembersCounted(hs, HashesOf(es));
  }

  class CandidateMap<E(==,!new)> {
    var values: seq<Candidate<E>>
    var innerMap: map<E, nat>

    ghost predicate Valid()
      reads this
    {
      && (forall h :: h in innerMap ==> innerMap[h] < |values| && values[innerMap[h]].expr.esh == h)
      && (forall i :: 0 <= i < |values| ==> values[i].expr.esh in innerMap && innerMap[values[i].expr.esh] == i)
    }

    constructor ()
      ensures Valid() && values == []
    {
      values, innerMap := [], map[];
    }

    /** addCandidate. */
    method Add(e: Expr<E>)
      requires Valid()
      modifies this
      ensures Valid() && values == AddOffer(old(values), e)
    {
      if e.esh in innerMap {
        var i := innerMap[e.esh];
        assert Slot(values, e.esh) == i;
        values := values[i := values[i].(count := values[i].count + 1)];
      } else {
        assert Slot(values, e.esh) == |values|;
        innerMap := innerMap[e.esh := |values|];
        values := values + [Candidate(e, 1)];
      }
    }
  }

  // ----- collecting -----

  lemma FrameValid<E(!new)>(c: Setting<E>, e: Expr<E>)
    requires WellFormed(e) && Nested(Prod, e)
    ensures c.FrameOf(e).Valid()
  {
    forall i | 0 <= i < |e.children| ensures 0 <= DegreesOf(c.g, e.children)[i] {
      DegreeNonNegative(c.g, e.children[i]);
    }
    assert forall i :: 0 <= i < |e.op.ks| ==> Weight(Prod, e.op.ks[i]);
  }

  ghost predicate NonNegative(v: seq<int>) {
    forall i :: 0 <= i < |v| ==> 0 <= v[i]
  }

  function SumOf(v: seq<int>): int {
    if v == [] then 0 else SumOf(v[..|v| - 1]) + v[|v| - 1]
  }

  lemma {:induction false} KeptSum(v: seq<int>)
    requires NonNegative(v)
    ensures SumOf(KeptKs(v)) == SumOf(v) && forall i :: 0 <= i < |KeptKs(v)| ==> KeptKs(v)[i] >= 1
  {
    if v != [] {
      var n := |v| - 1;
      KeptSum(v[..n]);
      if v[n] != 0 {
        assert KeptKs(v)[..|KeptKs(v)| - 1] == KeptKs(v[..n]);
      } else {
        assert KeptKs(v) == KeptKs(v[..n]);
      }
    }
  }

  /** hasOnlyASingleOne. */
  method HasOnlyASingleOne(v: seq<int>) returns (b: bool)
    requires NonNegative(v)
    ensures b <==> KeptKs(v) == [1]
  {
    var sum, countNonZero := 0, 0;
    for i := 0 to |v|
      invariant sum == SumOf(v[..i]) && countNonZero == |KeptKs(v[..i])|
    {
      assert v[..i + 1][..i] == v[..i];
      if v[i] != 0 {
        countNonZero := countNonZero + 1;
        sum := sum + v[i];
      }
    }
    assert v[..|v|] == v;
    KeptSum(v);
    SingleSum(KeptKs(v));
    b := countNonZero == 1 && sum == 1;
  }

  lemma SingleSum(ks: seq<int>)
    ensures |ks| == 1 ==> SumOf(ks) == ks[0]
  {
    if |ks| == 1 { assert ks[..0] == []; }
  }

  /** The vectors that the iterator yields and that are not a single factor. */
  method Choices<E(!new)>(c: Setting<E>, e: Expr<E>) returns (vs: seq<seq<int>>)
    requires WellFormed(e) && Nested(Prod, e)
    ensures Increasing(vs) && forall v :: v in vs <==> c.Chosen(e, v)
  {
    FrameValid(c, e);
    var members := Enumerate(e.op.ks, DegreesOf(c.g, e.children), c.bound, c.cfg);
    vs := [];
    for k := 0 to |members|
      invariant forall v :: v in vs <==> v in members[..k] && KeptKs(v) != [1]
      invariant Increasing(vs)
    {
      assert members[k] in members;
      var single := HasOnlyASingleOne(members[k]);
      if !single {
        forall v | v in vs ensures LexLess(v, members[k]) { assert v in members[..k]; }
        vs := vs + [members[k]];
      }
      assert members[..k + 1] == members[..k] + [members[k]];
    }
    assert members[..|members|] == members;
  }

  function BuildEach<E(==,!new)>(r: Ring<E>, cs: seq<Expr<E>>, vs: seq<seq<int>>): (subs: seq<Expr<E>>)
    requires forall j :: 0 <= j < |vs| ==> |vs[j]| == |cs|
    ensures |subs| == |vs| && forall j :: 0 <= j < |vs| ==> IsSub(r, cs, vs[j], subs[j])
  {
    seq(|vs|, j requires 0 <= j < |vs| => SubProduct(r, cs, vs[j]))
  }

  method BuildSubProducts<E(==,!new)>(c: Setting<E>, e: Expr<E>) returns (subs: seq<Expr<E>>)
    requires WellFormed(e) && Nested(Prod, e)
    ensures SubsListed(c, e, subs)
  {
    var vs := Choices(c, e);
    forall j | 0 <= j < |vs| ensures |vs[j]| == |e.children| {
      assert vs[j] in vs;
      assert c.Chosen(e, vs[j]);
    }
    subs := BuildEach(c.r, e.children, vs);
    assert SubList(c, e, vs, subs);
  }

  method AddAll<E(==,!new)>(candidates: CandidateMap<E>, es: seq<Expr<E>>)
    requires candidates.Valid()
    modifies candidates
    ensures candidates.Valid() && candidates.values == AddOffers(old(candidates.values), es)
  {
    for k := 0 to |es|
      invariant candidates.Valid() && candidates.values == AddOffers(old(candidates.values), es[..k])
    {
      AddOffersSnoc(old(candidates.values), es[..k], es[k]);
      assert es[..k + 1] == es[..k] + [es[k]];
      candidates.Add(es[k]);
    }
    assert es[..|es|] == es;
  }

  /** collectSubProducts. */
  method CollectSubProducts<E(==,!new)>(c: Setting<E>, e: Expr<E>, candidates: CandidateMap<E>)
    returns (added: nat, ghost offers: seq<Expr<E>>)
    requires WellFormed(e) && Nested(Prod, e) && candidates.Valid()
    modifies candidates
    ensures candidates.Valid() && candidates.values == AddOffers(old(candidates.values), offers) && added == |offers|
    ensures SubsListed(c, e, offers)
  {
    var subs := BuildSubProducts(c, e);
    AddAll(candidates, subs);
    offers, added := subs, |subs|;
  }

  method CollectFromChildren<E(==,!new)>(c: Setting<E>, e: Expr<E>, candidates: CandidateMap<E>)
    returns (added: nat, ghost parts: seq<seq<Expr<E>>>)
    requires WellFormed(e) && candidates.Valid()
    modifies candidates
    ensures candidates.Valid() && candidates.values == AddOffers(old(candidates.values), Flatten(parts))
    ensures added == |Flatten(parts)| && |parts| == |e.children|
    ensures forall i :: 0 <= i < |parts| ==> OfferList(c, e.children[i], parts[i])
    decreases e, 0
  {
    added, parts := 0, [];
    for i := 0 to |e.children|
      invariant candidates.Valid() && candidates.values == AddOffers(old(candidates.values), Flatten(parts))
      invariant added == |Flatten(parts)| && |parts| == i
      invariant forall j :: 0 <= j < i ==> OfferList(c, e.children[j], parts[j])
    {
      ghost var before := parts;
      var n;
      ghost var more;
      n, more := CollectFromExpr(c, e.children[i], candidates);
      AddOffersAppend(old(candidates.values), Flatten(before), more);
      FlattenSnoc(before, more);
      added, parts := added + n, before + [more];
    }
  }

  lemma FlattenSnoc<T>(parts: seq<seq<T>>, part: seq<T>)
    ensures Flatten(parts + [part]) == Flatten(parts) + part
  {
    assert (parts + [part])[..|parts|] == parts;
  }

  /** collectFromExpr. */
  method CollectFromExpr<E(==,!new)>(c: Setting<E>, e: Expr<E>, candidates: CandidateMap<E>)
    returns (added: nat, ghost offers: seq<Expr<E>>)
    requires WellFormed(e) && candidates.Valid()
    modifies candidates
    ensures candidates.Valid() && candidates.values == AddOffers(old(candidates.values), offers) && added == |offers|
    ensures OfferList(c, e, offers)
    decreases e, 1
  {
    added, offers := 0, [];
    if Degree(c.g, e) < c.cfg.minDegreeForCandidate { return; }
    if c.Direct(e) {
      AddOffersSnoc(candidates.values, [], e);
      candidates.Add(e);
      added, offers := 1, [] + [e];
    }
    var n;
    ghost var parts, subs := [], [];
    n, parts := CollectFromChildren(c, e, candidates);
    AddOffersAppend(old(candidates.values), offers, Flatten(parts));
    added, offers := added + n, offers + Flatten(parts);
    if Nested(Prod, e) {
      n, subs := CollectSubProducts(c, e, candidates);
      added := added + n;
    }
    AddOffersAppend(old(candidates.values), offers, subs);
    offers := offers + subs;
    assert Assembled(c, e, parts, subs, offers);
  }

  // ----- one round of collecting, and the choice -----

  predicate OverBound<E(!new)>(c: Setting<E>, e: Expr<E>) {
    Degree(c.g, e) > c.bound
  }

  /** The positions of the expressions above the bound, in order. */
  ghost predicate OverIndices<E(!new)>(c: Setting<E>, current: seq<Expr<E>>, indices: seq<nat>) {
    && (forall j, k :: 0 <= j < k < |indices| ==> indices[j] < indices[k])
    && (forall k :: 0 <= k < |indices| ==> indices[k] < |current| && OverBound(c, current[indices[k]]))
    && (forall i: nat :: i < |current| && OverBound(c, current[i]) ==> i in indices)
  }

  /** findOverDegreeIndices. */
  method FindOverDegree<E(!new)>(c: Setting<E>, current: seq<Expr<E>>) returns (indices: seq<nat>)
    ensures OverIndices(c, current, indices)
  {
    indices := [];
    for i := 0 to |current|
      invariant forall j, k :: 0 <= j < k < |indices| ==> indices[j] < indices[k]
      invariant forall k :: 0 <= k < |indices| ==> indices[k] < i && OverBound(c, current[indices[k]])
      invariant forall j: nat :: j < i && OverBound(c, current[j]) ==> j in indices
    {
      if OverBound(c, current[i]) { indices := indices + [i]; }
    }
  }

  /** t is a candidate of one of the expressions above the bound. */
  ghost predicate CandidateOf<E(!new)>(c: Setting<E>, current: seq<Expr<E>>, t: Expr<E>) {
    exists i :: 0 <= i < |current| && OverBound(c, current[i]) && c.Offered(current[i], t)
  }

  /** The offers of the expressions visited in a round. */
  ghost predicate Gathered<E(!new)>(c: Setting<E>, current: seq<Expr<E>>, indices: seq<nat>, parts: seq<seq<Expr<E>>>) {
    && |parts| <= |indices| && (forall k :: 0 <= k < |indices| ==> indices[k] < |current|)
    && forall j :: 0 <= j < |parts| ==> OfferList(c, current[indices[j]], parts[j])
  }

  /** How many hashes are known after the first k expressions. */
  ghost function Known<E(!new)>(parts: seq<seq<Expr<E>>>, k: nat): nat
    requires k <= |parts|
  {
    |HashesOf(Flatten(parts[..k]))|
  }

  /** The round visits the expressions above the bound in order, the first in any case, and goes on
      as long as fewer hashes are known than may be collected in a round. */
  ghost predicate Visits<E(!new)>(c: Setting<E>, current: seq<Expr<E>>, indices: seq<nat>, parts: seq<seq<Expr<E>>>) {
    && OverIndices(c, current, indices) && Gathered(c, current, indices, parts)
    && (indices != [] ==> parts != [])
    && (forall k :: 1 <= k < |parts| ==> Known(parts, k) < c.cfg.maxCandidatePerRound)
    && (|parts| < |indices| ==> Known(parts, |parts|) >= c.cfg.maxCandidatePerRound)
  }

  /** How often the expressions visited offer the hash h. */
  ghost function CountVisited<E(!new)>(c: Setting<E>, current: seq<Expr<E>>, indices: seq<nat>, n: nat, h: E): nat
    requires n <= |indices| && forall k :: 0 <= k < |indices| ==> indices[k] < |current|
  {
    if n == 0 then 0 else CountVisited(c, current, indices, n - 1, h) + CountIn(c, current[indices[n - 1]], h)
  }

  lemma {:induction false} VisitedCount<E(!new)>(c: Setting<E>, current: seq<Expr<E>>, indices: seq<nat>,
                                                 parts: seq<seq<Expr<E>>>, h: E)
    requires Gathered(c, current, indices, parts)
    ensures Occurrences(Flatten(parts), h) == CountVisited(c, current, indices, |parts|, h)
    decreases |parts|
  {
    if parts != [] {
      var n := |parts| - 1;
      VisitedCount(c, current, indices, parts[..n], h);
      OccurrencesAppend(Flatten(parts[..n]), parts[n], h);
      OfferCount(c, current[indices[n]], parts[n], h);
    }
  }

  lemma VisitedOffer<E(!new)>(c: Setting<E>, current: seq<Expr<E>>, indices: seq<nat>, parts: seq<seq<Expr<E>>>,
                              t: Expr<E>)
    requires Gathered(c, current, indices, parts)
    ensures t in Flatten(parts) <==> exists j :: 0 <= j < |parts| && c.Offered(current[indices[j]], t)
  {
    InFlatten(parts, t);
    forall j | 0 <= j < |parts| ensures t in parts[j] <==> c.Offered(current[indices[j]], t) {
      OfferMembers(c, current[indices[j]], parts[j], t);
    }
  }

  /** What was offered is a candidate, and if all were visited every candidate was offered. */
  lemma VisitedCandidates<E(!new)>(c: Setting<E>, current: seq<Expr<E>>, indices: seq<nat>, parts: seq<seq<Expr<E>>>,
                                   t: Expr<E>)
    requires OverIndices(c, current, indices) && Gathered(c, current, indices, parts)
    ensures t in Flatten(parts) ==> CandidateOf(c, current, t)
    ensures |parts| == |indices| && CandidateOf(c, current, t) ==> t in Flatten(parts)
  {
    VisitedOffer(c, current, indices, parts, t);
    if |parts| == |indices| && CandidateOf(c, current, t) {
      var i :| 0 <= i < |current| && OverBound(c, current[i]) && c.Offered(current[i], t);
      var k :| 0 <= k < |indices| && indices[k] == i;
    }
  }

  /** collectCandidateSubexprs: stops once enough candidates are known. */
  method CollectCandidates<E(==,!new)>(c: Setting<E>, current: seq<Expr<E>>, indices: seq<nat>)
    returns (candidates: seq<Candidate<E>>, ghost parts: seq<seq<Expr<E>>>)
    requires AllWellFormed(current) && OverIndices(c, current, indices)
    ensures Tallied(candidates, Flatten(parts)) && Visits(c, current, indices, parts)
  {
    var table := new CandidateMap();
    parts := [];
    for k := 0 to |indices|
      invariant fresh(table) && table.Valid() && table.values == AddOffers([], Flatten(parts))
      invariant |parts| == k && GoesOn(c, current, indices, parts)
    {
      var added;
      ghost var more;
      added, more := CollectFromExpr(c, current[indices[k]], table);
      VisitOne(c, current, indices, parts, more);
      parts := parts + [more];
      if |table.values| >= c.cfg.maxCandidatePerRound {
        return table.values, parts;
      }
    }
    candidates := table.values;
    Tally(Flatten(parts));
  }

  /** All visited so far, and fewer hashes known than may be collected. */
  ghost predicate GoesOn<E(!new)>(c: Setting<E>, current: seq<Expr<E>>, indices: seq<nat>, parts: seq<seq<Expr<E>>>) {
    && Gathered(c, current, indices, parts)
    && forall j :: 1 <= j <= |parts| ==> Known(parts, j) < c.cfg.maxCandidatePerRound
  }

  /** After one more expression the table holds its offers too; either it is full or the visit goes on. */
  lemma VisitOne<E(!new)>(c: Setting<E>, current: seq<Expr<E>>, indices: seq<nat>, parts: seq<seq<Expr<E>>>,
                          more: seq<Expr<E>>)
    requires OverIndices(c, current, indices) && GoesOn(c, current, indices, parts) && |parts| < |indices|
    requires OfferList(c, current[indices[|parts|]], more)
    ensures var table := AddOffers([], Flatten(parts + [more]));
            && AddOffers(AddOffers([], Flatten(parts)), more) == table && Tallied(table, Flatten(parts + [more]))
            && (|table| < c.cfg.maxCandidatePerRound ==> GoesOn(c, current, indices, parts + [more]))
            && (|table| >= c.cfg.maxCandidatePerRound ==> Visits(c, current, indices, parts + [more]))
  {
    var all := parts + [more];
    AddOffersAppend([], Flatten(parts), more);
    FlattenSnoc(parts, more);
    Tally(Flatten(all));
    TallySize(AddOffers([], Flatten(all)), Flatten(all));
    KnownSoFar(parts, more);
    VisitKnown(c, parts, more);
  }

  lemma VisitKnown<E(!new)>(c: Setting<E>, parts: seq<seq<Expr<E>>>, more: seq<Expr<E>>)
    requires forall j :: 1 <= j <= |parts| ==> Known(parts, j) < c.cfg.maxCandidatePerRound
    ensures forall j :: 1 <= j < |parts + [more]| ==> Known(parts + [more], j) < c.cfg.maxCandidatePerRound
  {
    KnownSoFar(parts, more);
  }

  lemma KnownSoFar<E(!new)>(parts: seq<seq<Expr<E>>>, part: seq<Expr<E>>)
    ensures forall j :: 0 <= j <= |parts| ==> Known(parts + [part], j) == Known(parts, j)
    ensures Known(parts + [part], |parts| + 1) == |HashesOf(Flatten(parts + [part]))|
  {
    forall j | 0 <= j <= |parts| ensures Known(parts + [part], j) == Known(parts, j) {
      assert (parts + [part])[..j] == parts[..j];
    }
    assert (parts + [part])[..|parts| + 1] == parts + [part];
  }

  // ----- the choice -----

  /** No expression of the list is offered more often than t, or as often with more children; each
      hash stands for the first expression offered. */
  ghost predicate MostFrequent<E(!new)>(offers: seq<Expr<E>>, t: Expr<E>) {
    IsFirst(offers, t) && forall u :: IsFirst(offers, u) ==> !Precedes(offers, u, t)
  }

  ghost predicate Precedes<E(!new)>(offers: seq<Expr<E>>, u: Expr<E>, t: Expr<E>) {
    var m, n := Occurrences(offers, u.esh), Occurrences(offers, t.esh);
    m > n || (m == n && |u.children| > |t.children|)
  }

  /** The target that a round picks from these expressions. */
  ghost predicate Selected<E(!new)>(c: Setting<E>, current: seq<Expr<E>>, t: Expr<E>) {
    exists indices, parts :: Visits(c, current, indices, parts) && MostFrequent(Flatten(parts), t)
  }

  predicate Better<E>(a: Candidate<E>, b: Candidate<E>) {
    a.count > b.count || (a.count == b.count && |a.expr.children| > |b.expr.children|)
  }

  /** selectMostFrequentCandidate: no other candidate comes before the selected one. */
  method SelectMostFrequent<E(!new)>(candidates: seq<Candidate<E>>) returns (best: Candidate<E>)
    requires candidates != []
    ensures best in candidates && forall i :: 0 <= i < |candidates| ==> !Better(candidates[i], best)
  {
    best := candidates[0];
    for i := 1 to |candidates|
      invariant best in candidates && forall j :: 0 <= j < i ==> !Better(candidates[j], best)
    {
      if Better(candidates[i], best) { best := candidates[i]; }
    }
  }

  lemma FirstUnique<E(!new)>(es: seq<Expr<E>>, t: Expr<E>, u: Expr<E>)
    requires IsFirst(es, t) && IsFirst(es, u) && t.esh == u.esh
    ensures t == u
  {
    var p :| 0 <= p < |es| && es[p] == t && forall q :: 0 <= q < p ==> es[q].esh != t.esh;
    var k :| 0 <= k < |es| && es[k] == u && forall q :: 0 <= q < k ==> es[q].esh != u.esh;
    assert p == k;
  }

  /** The entry that no other one precedes is the most frequent expression. */
  lemma BestIsMostFrequent<E(!new)>(cs: seq<Candidate<E>>, offers: seq<Expr<E>>, best: Candidate<E>)
    requires Tallied(cs, offers) && best in cs && forall i :: 0 <= i < |cs| ==> !Better(cs[i], best)
    ensures MostFrequent(offers, best.expr)
  {
    var b :| 0 <= b < |cs| && cs[b] == best;
    assert EntryFor(cs[b], offers);
    forall u | IsFirst(offers, u) ensures !Precedes(offers, u, best.expr) {
      assert u in offers;
      assert HasEntry(cs, u.esh);
      var i :| 0 <= i < |cs| && cs[i].expr.esh == u.esh;
      assert EntryFor(cs[i], offers);
      FirstUnique(offers, u, cs[i].expr);
    }
  }

  /** All visited candidates with the hash of u have as many children as u. */
  ghost predicate OneShape<E(!new)>(c: Setting<E>, current: seq<Expr<E>>, indices: seq<nat>, n: nat, u: Expr<E>)
    requires n <= |indices| && forall k :: 0 <= k < |indices| ==> indices[k] < |current|
  {
    forall v :: VisitedBy(c, current, indices, n, v) && v.esh == u.esh ==> |v.children| == |u.children|
  }

  /** u occurs at most as often as t, and with more children less often. */
  ghost predicate NotAhead<E(!new)>(c: Setting<E>, current: seq<Expr<E>>, indices: seq<nat>, n: nat, u: Expr<E>,
                                    t: Expr<E>)
    requires n <= |indices| && forall k :: 0 <= k < |indices| ==> indices[k] < |current|
  {
    var p, q := CountVisited(c, current, indices, n, u.esh), CountVisited(c, current, indices, n, t.esh);
    p <= q && (p == q && OneShape(c, current, indices, n, u) ==> |u.children| <= |t.children|)
  }

  lemma BehindTarget<E(!new)>(c: Setting<E>, current: seq<Expr<E>>, indices: seq<nat>, parts: seq<seq<Expr<E>>>,
                              t: Expr<E>, u: Expr<E>)
    requires Gathered(c, current, indices, parts) && MostFrequent(Flatten(parts), t)
    requires VisitedBy(c, current, indices, |parts|, u)
    ensures NotAhead(c, current, indices, |parts|, u, t)
  {
    var offers := Flatten(parts);
    VisitedOffer(c, current, indices, parts, u);
    VisitedCount(c, current, indices, parts, u.esh);
    VisitedCount(c, current, indices, parts, t.esh);
    var first := FirstOf(offers, u);
    VisitedOffer(c, current, indices, parts, first);
    assert !Precedes(offers, first, t);
  }

  /** What the selected target is, by counting in the expressions visited: no candidate of them occurs
      more often, and none of as many occurrences has more children, where a hash with candidates of
      different shapes stands for the first of them. */
  lemma SelectedCount<E(!new)>(c: Setting<E>, current: seq<Expr<E>>, t: Expr<E>)
    returns (indices: seq<nat>, parts: seq<seq<Expr<E>>>)
    requires Selected(c, current, t)
    ensures Visits(c, current, indices, parts) && VisitedBy(c, current, indices, |parts|, t)
    ensures forall u :: VisitedBy(c, current, indices, |parts|, u) ==> NotAhead(c, current, indices, |parts|, u, t)
  {
    indices, parts :| Visits(c, current, indices, parts) && MostFrequent(Flatten(parts), t);
    VisitedOffer(c, current, indices, parts, t);
    forall u | VisitedBy(c, current, indices, |parts|, u) ensures NotAhead(c, current, indices, |parts|, u, t) {
      BehindTarget(c, current, indices, parts, t, u);
    }
  }

  /** u is a candidate of one of the n expressions visited. */
  ghost predicate VisitedBy<E(!new)>(c: Setting<E>, current: seq<Expr<E>>, indices: seq<nat>, n: nat, u: Expr<E>)
    requires n <= |indices| && forall k :: 0 <= k < |indices| ==> indices[k] < |current|
  {
    exists j :: 0 <= j < n && c.Offered(current[indices[j]], u)
  }

  lemma {:induction false} FirstOf<E(!new)>(es: seq<Expr<E>>, u: Expr<E>) returns (t: Expr<E>)
    requires u in es
    ensures IsFirst(es, t) && t in es && t.esh == u.esh
    decreases |es|
  {
    var n := |es| - 1;
    if x :| x in es[..n] && x.esh == u.esh {
      t := FirstOf(es[..n], x);
      FirstStays(es[..n], t, es[n]);
      assert es == es[..n] + [es[n]];
    } else {
      t := es[n];
      forall q | 0 <= q < n ensures es[q].esh != u.esh { assert es[q] in es[..n]; }
      assert u == es[n] by { assert es == es[..n] + [es[n]]; }
      assert es[n] == t;
    }
  }
}
