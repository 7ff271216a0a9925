/** The candidates that an expression offers for elimination: which, how often and in which order. */
module Offers {
  import opened Algebra
  import opened Expressions
  import opened Simplification
  import opened SubProducts
  import opened SubMultisets

  /** The arguments of degree reduction: field, degrees, bound and configuration. */
  datatype Setting<!E(!new)> = Setting(r: Ring<E>, g: DegreeGetter, bound: int, cfg: Config)
  {
    predicate Direct(e: Expr<E>) {
      0 < Degree(g, e) <= bound && !e.op.Constant? && !e.op.Variable?
    }

    function FrameOf(e: Expr<E>): Frame
      requires Nested(Prod, e)
    {
      Frame(e.op.ks, DegreesOf(g, e.children), bound, cfg)
    }

    ghost predicate Chosen(e: Expr<E>, v: seq<int>) {
      Nested(Prod, e) && FrameOf(e).Member(v) && KeptKs(v) != [1]
    }

    ghost predicate SubOffered(e: Expr<E>, t: Expr<E>) {
      exists v :: Chosen(e, v) && t == SubProduct(r, e.children, v)
    }

    /** t is a candidate found in e: a sub-expression of suitable degree, or a sub-product of a
        product; nodes below the minimal degree are not entered. */
    ghost predicate Offered(e: Expr<E>, t: Expr<E>)
      decreases e
    {
      && Degree(g, e) >= cfg.minDegreeForCandidate
      && (|| (Direct(e) && t == e)
          || (exists i :: 0 <= i < |e.children| && Offered(e.children[i], t))
          || SubOffered(e, t))
    }
  }

  // ----- how often -----

  ghost predicate IsSub<E(!new)>(r: Ring<E>, cs: seq<Expr<E>>, v: seq<int>, t: Expr<E>) {
    |v| == |cs| && t == SubProduct(r, cs, v)
  }

  /** The choice v is offered and its sub-product hashes to h. */
  ghost predicate Hits<E(!new)>(c: Setting<E>, e: Expr<E>, v: seq<int>, h: E) {
    c.Chosen(e, v) && SubProduct(c.r, e.children, v).esh == h
  }

  ghost function HittingChoices<E(!new)>(c: Setting<E>, e: Expr<E>, h: E): set<seq<int>>
    requires Nested(Prod, e)
  {
    set v | v in Box(e.op.ks) && Hits(c, e, v, h)
  }

  /** How many candidates of e hash to h, a candidate counting once for each place it is found in. */
  ghost function CountIn<E(!new)>(c: Setting<E>, e: Expr<E>, h: E): nat
    decreases e, |e.children| + 1
  {
    if Degree(c.g, e) < c.cfg.minDegreeForCandidate then 0
    else
      (if c.Direct(e) && e.esh == h then 1 else 0)
      + CountBelow(c, e, h, |e.children|)
      + (if Nested(Prod, e) then |HittingChoices(c, e, h)| else 0)
  }

  /** The same for the first n children of e. */
  ghost function CountBelow<E(!new)>(c: Setting<E>, e: Expr<E>, h: E, n: nat): nat
    requires n <= |e.children|
    decreases e, n
  {
    if n == 0 then 0 else CountBelow(c, e, h, n - 1) + CountIn(c, e.children[n - 1], h)
  }

  // ----- in which order -----

  ghost function Flatten<T>(parts: seq<seq<T>>): seq<T> {
    if parts == [] then [] else Flatten(parts[..|parts| - 1]) + parts[|parts| - 1]
  }

  /** The sub-products of a product, in increasing order of their exponents. */
  ghost predicate SubList<E(!new)>(c: Setting<E>, e: Expr<E>, vs: seq<seq<int>>, subs: seq<Expr<E>>) {
    && Increasing(vs) && (forall v :: v in vs <==> c.Chosen(e, v))
    && |subs| == |vs| && forall j :: 0 <= j < |vs| ==> IsSub(c.r, e.children, vs[j], subs[j])
  }

  ghost predicate SubsListed<E(!new)>(c: Setting<E>, e: Expr<E>, subs: seq<Expr<E>>) {
    if Nested(Prod, e) then exists vs :: SubList(c, e, vs, subs) else subs == []
  }

  ghost function DirectOffer<E(!new)>(c: Setting<E>, e: Expr<E>): seq<Expr<E>> {
    if c.Direct(e) then [e] else []
  }

  /** The offers of e: itself, then those of its children, then its sub-products. */
  ghost predicate OfferList<E(!new)>(c: Setting<E>, e: Expr<E>, offers: seq<Expr<E>>)
    decreases e, 1
  {
    if Degree(c.g, e) < c.cfg.minDegreeForCandidate then offers == []
    else exists parts, subs :: Assembled(c, e, parts, subs, offers)
  }

  ghost predicate Assembled<E(!new)>(c: Setting<E>, e: Expr<E>, parts: seq<seq<Expr<E>>>, subs: seq<Expr<E>>,
                                     offers: seq<Expr<E>>)
    decreases e, 0
  {
    && |parts| == |e.children| && (forall i :: 0 <= i < |parts| ==> OfferList(c, e.children[i], parts[i]))
    && SubsListed(c, e, subs) && offers == DirectOffer(c, e) + Flatten(parts) + subs
  }

  // ----- counting a list -----

  ghost function Occurrences<E(!new)>(es: seq<Expr<E>>, h: E): nat {
    if es == [] then 0 else Occurrences(es[..|es| - 1], h) + if es[|es| - 1].esh == h then 1 else 0
  }

  lemma {:induction false} NoOccurrence<E(!new)>(es: seq<Expr<E>>, h: E)
    requires forall e :: e in es ==> e.esh != h
    ensures Occurrences(es, h) == 0
  {
    if es != [] { NoOccurrence(es[..|es| - 1], h); }
  }

  lemma {:induction false} OccurrencesAppend<E(!new)>(es: seq<Expr<E>>, more: seq<Expr<E>>, h: E)
    ensures Occurrences(es + more, h) == Occurrences(es, h) + Occurrences(more, h)
    decreases |more|
  {
    if more == [] {
      assert es + more == es;
    } else {
      var n := |more| - 1;
      OccurrencesAppend(es, more[..n], h);
      assert (es + more)[..|es| + n] == es + more[..n];
    }
  }

  ghost predicate Distinct<T(!new)>(s: seq<T>) {
    forall i, j :: 0 <= i < j < |s| ==> s[i] != s[j]
  }

  ghost function CountMembers<T(!new)>(s: seq<T>, of: set<T>): nat {
    if s == [] then 0 else CountMembers(s[..|s| - 1], of) + if s[|s| - 1] in of then 1 else 0
  }

  /** A list without repetition that holds a whole set counts its size. */
  lemma {:induction false} MembersCounted<T(!new)>(s: seq<T>, of: set<T>)
    requires Distinct(s) && forall x :: x in of ==> x in s
    ensures CountMembers(s, of) == |of|
    decreases |s|
  {
    if s != [] {
      var n := |s| - 1;
      assert s == s[..n] + [s[n]];
      MembersCounted(s[..n], of - {s[n]});
      SameMembers(s[..n], of, s[n]);
    } else {
      assert of == {};
    }
  }

  lemma {:induction false} SameMembers<T(!new)>(s: seq<T>, of: set<T>, x: T)
    requires x !in s
    ensures CountMembers(s, of - {x}) == CountMembers(s, of)
  {
    if s != [] { SameMembers(s[..|s| - 1], of, x); }
  }

  lemma {:induction false} CountChoices<E(!new)>(vs: seq<seq<int>>, subs: seq<Expr<E>>, h: E, hits: set<seq<int>>)
    requires |subs| == |vs| && forall j :: 0 <= j < |vs| ==> (vs[j] in hits <==> subs[j].esh == h)
    ensures Occurrences(subs, h) == CountMembers(vs, hits)
  {
    if vs != [] { CountChoices(vs[..|vs| - 1], subs[..|vs| - 1], h, hits); }
  }

  lemma SubCount<E(!new)>(c: Setting<E>, e: Expr<E>, vs: seq<seq<int>>, subs: seq<Expr<E>>, h: E)
    requires Nested(Prod, e) && SubList(c, e, vs, subs)
    ensures Occurrences(subs, h) == |HittingChoices(c, e, h)|
  {
    var hits := HittingChoices(c, e, h);
    forall i, j | 0 <= i < j < |vs| ensures vs[i] != vs[j] {
      assert LexLess(vs[i], vs[j]);
      LexIrreflexive(vs[i]);
    }
    forall j | 0 <= j < |vs| ensures vs[j] in hits <==> subs[j].esh == h {
      assert vs[j] in vs;
      assert c.Chosen(e, vs[j]) && IsSub(c.r, e.children, vs[j], subs[j]);
      BoxComplete(vs[j], e.op.ks);
    }
    CountChoices(vs, subs, h, hits);
    forall v | v in hits ensures v in vs { assert c.Chosen(e, v); }
    MembersCounted(vs, hits);
  }

  lemma {:induction false} PartsCount<E(!new)>(c: Setting<E>, e: Expr<E>, parts: seq<seq<Expr<E>>>, h: E, n: nat)
    requires n <= |parts| == |e.children|
    requires forall i :: 0 <= i < n ==> Occurrences(parts[i], h) == CountIn(c, e.children[i], h)
    ensures Occurrences(Flatten(parts[..n]), h) == CountBelow(c, e, h, n)
  {
    if n > 0 {
      PartsCount(c, e, parts, h, n - 1);
      assert parts[..n][..n - 1] == parts[..n - 1];
      OccurrencesAppend(Flatten(parts[..n - 1]), parts[n - 1], h);
    }
  }

  /** The list of offers has each hash as often as the count says. */
  lemma {:induction false} OfferCount<E(!new)>(c: Setting<E>, e: Expr<E>, offers: seq<Expr<E>>, h: E)
    requires OfferList(c, e, offers)
    ensures Occurrences(offers, h) == CountIn(c, e, h)
    decreases e
  {
    if Degree(c.g, e) >= c.cfg.minDegreeForCandidate {
      var parts, subs :| Assembled(c, e, parts, subs, offers);
      forall i | 0 <= i < |parts| ensures Occurrences(parts[i], h) == CountIn(c, e.children[i], h) {
        OfferCount(c, e.children[i], parts[i], h);
      }
      PartsCount(c, e, parts, h, |parts|);
      assert parts[..|parts|] == parts;
      OccurrencesAppend(DirectOffer(c, e), Flatten(parts), h);
      OccurrencesAppend(DirectOffer(c, e) + Flatten(parts), subs, h);
      if Nested(Prod, e) {
        var vs :| SubList(c, e, vs, subs);
        SubCount(c, e, vs, subs, h);
      }
    }
  }

  // ----- which -----

  lemma {:induction false} InFlatten<T>(parts: seq<seq<T>>, t: T)
    ensures t in Flatten(parts) <==> exists i :: 0 <= i < |parts| && t in parts[i]
  {
    if parts != [] {
      var n := |parts| - 1;
      InFlatten(parts[..n], t);
      if i :| 0 <= i < |parts| && t in parts[i] {
        if i < n { assert parts[..n][i] == parts[i]; }
      }
    }
  }

  lemma InSubList<E(!new)>(c: Setting<E>, e: Expr<E>, vs: seq<seq<int>>, subs: seq<Expr<E>>, t: Expr<E>)
    requires Nested(Prod, e) && SubList(c, e, vs, subs)
    ensures t in subs <==> c.SubOffered(e, t)
  {
    if t in subs {
      var j :| 0 <= j < |subs| && subs[j] == t;
      assert vs[j] in vs;
      assert c.Chosen(e, vs[j]) && IsSub(c.r, e.children, vs[j], subs[j]);
    }
    if c.SubOffered(e, t) {
      var v :| c.Chosen(e, v) && t == SubProduct(c.r, e.children, v);
      assert v in vs;
      var j :| 0 <= j < |vs| && vs[j] == v;
      assert IsSub(c.r, e.children, vs[j], subs[j]);
    }
  }

  /** The list of offers holds all and only the candidates. */
  lemma {:induction false} OfferMembers<E(!new)>(c: Setting<E>, e: Expr<E>, offers: seq<Expr<E>>, t: Expr<E>)
    requires OfferList(c, e, offers)
    ensures t in offers <==> c.Offered(e, t)
    decreases e
  {
    if Degree(c.g, e) >= c.cfg.minDegreeForCandidate {
      var parts, subs :| Assembled(c, e, parts, subs, offers);
      forall i | 0 <= i < |parts| ensures t in parts[i] <==> c.Offered(e.children[i], t) {
        OfferMembers(c, e.children[i], parts[i], t);
      }
      InFlatten(parts, t);
      assert t in offers <==> t in DirectOffer(c, e) || t in Flatten(parts) || t in subs;
      if Nested(Prod, e) {
        var vs :| SubList(c, e, vs, subs);
        InSubList(c, e, vs, subs, t);
      } else {
        assert !c.SubOffered(e, t);
      }
    }
  }
}
