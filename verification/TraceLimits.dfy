/** Limits of trace modules, found by the prefix of a module name. */
module TraceLimits {
  import opened Wrappers

  datatype ModuleLimit = ModuleLimit(name: string, limit: int, limitLarge: int, isNotScalable: bool)

  // ----- names -----

  function LowerChar(c: char): char {
    if 'A' <= c <= 'Z' then c - 'A' + 'a' else c
  }

  function Lower(s: string): (t: string)
    ensures |t| == |s|
  {
    seq(|s|, i requires 0 <= i < |s| => LowerChar(s[i]))
  }

  predicate IsUpper(c: char) {
    'A' <= c <= 'Z'
  }

  /** The same character, or an upper-case letter and its lower-case letter. */
  predicate SameLetter(c: char, d: char) {
    c == d || (IsUpper(c) && d as int == c as int + 32) || (IsUpper(d) && c as int == d as int + 32)
  }

  predicate EqualFold(s: string, t: string) {
    |s| == |t| && forall i :: 0 <= i < |s| ==> SameLetter(s[i], t[i])
  }

  lemma SameLetterExactly(c: char, d: char)
    ensures LowerChar(c) == LowerChar(d) <==> SameLetter(c, d)
    ensures !IsUpper(LowerChar(c)) && (!IsUpper(c) ==> LowerChar(c) == c)
  {
    assert 'A' as int == 65 && 'Z' as int == 90 && 'a' as int == 97;
  }

  /** Lower-casing identifies exactly the names that are equal up to case, and leaves no upper-case
      letter; names without one are kept. */
  lemma LowerExactly(s: string, t: string)
    ensures Lower(s) == Lower(t) <==> EqualFold(s, t)
    ensures forall i :: 0 <= i < |s| ==> !IsUpper(Lower(s)[i])
    ensures (forall i :: 0 <= i < |s| ==> !IsUpper(s[i])) ==> Lower(s) == s
  {
    forall i | 0 <= i < |s| ensures !IsUpper(Lower(s)[i]) && (!IsUpper(s[i]) ==> Lower(s)[i] == s[i]) {
      SameLetterExactly(s[i], s[i]);
    }
    if |s| == |t| {
      forall i | 0 <= i < |s| ensures Lower(s)[i] == Lower(t)[i] <==> SameLetter(s[i], t[i]) {
        SameLetterExactly(s[i], t[i]);
      }
    }
  }

  predicate Less(a: string, b: string) {
    b != [] && (a == [] || a[0] < b[0] || (a[0] == b[0] && Less(a[1..], b[1..])))
  }

  /** a stops first, or has the smaller character at the first difference. */
  ghost predicate BeforeAt(a: string, b: string, i: nat) {
    i <= |a| && i < |b| && a[..i] == b[..i] && (i == |a| || a[i] < b[i])
  }

  lemma BeforeStart(a: string, b: string, i: nat)
    requires BeforeAt(a, b, i)
    ensures i == 0 || (a != [] && b != [] && a[0] == b[0])
  {
    if i > 0 { assert a[0] == a[..i][0] == b[..i][0] == b[0]; }
  }

  /** The order of names is the alphabetical one. */
  lemma {:induction false} LessExactly(a: string, b: string)
    ensures Less(a, b) <==> exists i: nat :: BeforeAt(a, b, i)
  {
    if b == [] || a == [] || a[0] != b[0] {
      if Less(a, b) { assert BeforeAt(a, b, 0); }
      forall i: nat | BeforeAt(a, b, i) ensures Less(a, b) { BeforeStart(a, b, i); }
    } else {
      LessExactly(a[1..], b[1..]);
      forall i: nat | BeforeAt(a[1..], b[1..], i) ensures BeforeAt(a, b, i + 1) {
        assert a[..i + 1] == [a[0]] + a[1..][..i] && b[..i + 1] == [b[0]] + b[1..][..i];
      }
      forall i: nat | BeforeAt(a, b, i) ensures BeforeAt(a[1..], b[1..], i - 1) {
        assert i > 0;
        assert a[1..][..i - 1] == a[..i][1..] && b[1..][..i - 1] == b[..i][1..];
      }
    }
  }

  lemma {:induction false} LessTotal(a: string, b: string)
    ensures Less(a, b) || Less(b, a) || a == b
  {
    if a != [] && b != [] && a[0] == b[0] {
      LessTotal(a[1..], b[1..]);
      if a[1..] == b[1..] { assert a == [a[0]] + a[1..] && b == [b[0]] + b[1..]; }
    }
  }

  lemma {:induction false} LessAsymmetric(a: string, b: string)
    requires Less(a, b)
    ensures !Less(b, a) && a != b
  {
    if a != [] && a[0] == b[0] { LessAsymmetric(a[1..], b[1..]); }
  }

  lemma {:induction false} LessTransitive(a: string, b: string, c: string)
    requires Less(a, b) && Less(b, c)
    ensures Less(a, c)
  {
    if a != [] && a[0] == b[0] && b[0] == c[0] { LessTransitive(a[1..], b[1..], c[1..]); }
  }

  /** A shorter prefix of the same name comes before a longer one. */
  lemma {:induction false} PrefixLess(p: string, q: string)
    requires p <= q && |p| < |q|
    ensures Less(p, q)
  {
    if p != [] { PrefixLess(p[1..], q[1..]); }
  }

  // ----- sorting -----

  /** Strictly decreasing names: sorted in reverse order, without repetition. */
  ghost predicate Descending(ms: seq<ModuleLimit>) {
    forall i, j :: 0 <= i < j < |ms| ==> Less(ms[j].name, ms[i].name)
  }

  ghost predicate Unique(ms: seq<ModuleLimit>) {
    forall i, j :: 0 <= i < j < |ms| ==> ms[i].name != ms[j].name
  }

  /** Inserts into a descending list; meeting the same name is an error. */
  method Insert(ms: seq<ModuleLimit>, m: ModuleLimit) returns (res: Option<seq<ModuleLimit>>)
    requires Descending(ms)
    ensures res.Some? <==> forall i :: 0 <= i < |ms| ==> ms[i].name != m.name
    ensures res.Some? ==> Descending(res.value) && multiset(res.value) == multiset(ms) + multiset{m}
  {
    var i := 0;
    while i < |ms| && Less(m.name, ms[i].name)
      invariant 0 <= i <= |ms|
      invariant forall j :: 0 <= j < i ==> Less(m.name, ms[j].name)
    {
      i := i + 1;
    }
    if i < |ms| && ms[i].name == m.name { return None; }
    if i < |ms| { LessTotal(m.name, ms[i].name); }
    InsertDescending(ms, m, i);
    InsertMembers(ms, m, i);
    res := Some(ms[..i] + [m] + ms[i..]);
  }

  lemma InsertMembers(ms: seq<ModuleLimit>, m: ModuleLimit, i: nat)
    requires i <= |ms| && Descending(ms[..i] + [m] + ms[i..])
    ensures multiset(ms[..i] + [m] + ms[i..]) == multiset(ms) + multiset{m}
    ensures forall j :: 0 <= j < |ms| ==> ms[j].name != m.name
  {
    assert ms == ms[..i] + ms[i..];
    var out := ms[..i] + [m] + ms[i..];
    forall j | 0 <= j < |ms| ensures ms[j].name != m.name {
      assert out[i] == m;
      if j < i {
        assert out[j] == ms[j];
        LessAsymmetric(m.name, ms[j].name);
      } else {
        assert out[j + 1] == ms[j];
        LessAsymmetric(ms[j].name, m.name);
      }
    }
  }

  lemma InsertDescending(ms: seq<ModuleLimit>, m: ModuleLimit, i: nat)
    requires Descending(ms) && i <= |ms|
    requires forall j :: 0 <= j < i ==> Less(m.name, ms[j].name)
    requires i < |ms| ==> Less(ms[i].name, m.name)
    ensures Descending(ms[..i] + [m] + ms[i..])
  {
    var out := ms[..i] + [m] + ms[i..];
    forall a, b | 0 <= a < b < |out| ensures Less(out[b].name, out[a].name) {
      if a == i && b > i + 1 { LessTransitive(ms[b - 1].name, ms[i].name, m.name); }
    }
  }

  /** sortReverseAlphabetical: fails exactly when two modules have the same name. */
  method SortReverse(ms: seq<ModuleLimit>) returns (res: Option<seq<ModuleLimit>>)
    ensures res.Some? <==> Unique(ms)
    ensures res.Some? ==> Descending(res.value) && multiset(res.value) == multiset(ms)
  {
    var sorted: seq<ModuleLimit> := [];
    for k := 0 to |ms|
      invariant Descending(sorted) && multiset(sorted) == multiset(ms[..k]) && Unique(ms[..k])
    {
      var next := Insert(sorted, ms[k]);
      assert ms[..k + 1] == ms[..k] + [ms[k]];
      SameMembers(sorted, ms[..k]);
      if next.None? {
        var i :| 0 <= i < |sorted| && sorted[i].name == ms[k].name;
        assert sorted[i] in ms[..k];
        var j :| 0 <= j < k && ms[j] == sorted[i];
        assert ms[j].name == ms[k].name;
        return None;
      }
      forall i | 0 <= i < k ensures ms[i].name != ms[k].name {
        assert ms[..k][i] in sorted;
      }
      sorted := next.value;
    }
    assert ms[..|ms|] == ms;
    res := Some(sorted);
  }

  lemma SameMembers(a: seq<ModuleLimit>, b: seq<ModuleLimit>)
    requires multiset(a) == multiset(b)
    ensures forall x :: x in a <==> x in b
  {
    forall x ensures x in a <==> x in b {
      assert x in a <==> x in multiset(a);
      assert x in b <==> x in multiset(b);
    }
  }

  // ----- looking a module up -----

  /** The first module whose name is a prefix of the query. */
  function FirstMatch(ms: seq<ModuleLimit>, query: string): (i: nat)
    ensures i <= |ms|
    ensures i < |ms| ==> ms[i].name <= query
    ensures forall j :: 0 <= j < i ==> !(ms[j].name <= query)
  {
    if ms == [] then 0 else if ms[0].name <= query then 0 else 1 + FirstMatch(ms[1..], query)
  }

  /** In a descending list the first match is the longest, and the only one of its length. */
  lemma FirstIsLongest(ms: seq<ModuleLimit>, query: string)
    requires Descending(ms)
    ensures var i := FirstMatch(ms, query);
            && (i == |ms| <==> forall j :: 0 <= j < |ms| ==> !(ms[j].name <= query))
            && forall j :: 0 <= j < |ms| && j != i && ms[j].name <= query ==> i < |ms| && |ms[j].name| < |ms[i].name|
  {
    var i := FirstMatch(ms, query);
    forall j | 0 <= j < |ms| && j != i && ms[j].name <= query ensures i < |ms| && |ms[j].name| < |ms[i].name| {
      assert i < j;
      LessAsymmetric(ms[j].name, ms[i].name);
      if |ms[i].name| < |ms[j].name| { PrefixLess(ms[i].name, ms[j].name); }
      if |ms[i].name| == |ms[j].name| { SameLengthPrefix(ms[i].name, ms[j].name, query); }
    }
  }

  lemma SameLengthPrefix(p: string, q: string, query: string)
    requires p <= query && q <= query && |p| == |q|
    ensures p == q
  {
  }

  /** Names equal up to case find the same entry. */
  lemma CaseIgnored(ms: seq<ModuleLimit>, s: string, t: string)
    requires EqualFold(s, t)
    ensures FirstMatch(ms, Lower(s)) == FirstMatch(ms, Lower(t))
  {
    LowerExactly(s, t);
  }

  /** The entry whose name is the longest prefix of the query; none if no name is a prefix. */
  ghost predicate LongestMatch(ms: seq<ModuleLimit>, query: string, m: Option<ModuleLimit>) {
    && (m.None? <==> forall j :: 0 <= j < |ms| ==> !(ms[j].name <= query))
    && (m.Some? ==> m.value in ms && m.value.name <= query)
    && (m.Some? ==> forall j :: 0 <= j < |ms| && ms[j].name <= query ==> |ms[j].name| <= |m.value.name|)
  }

  class TracesLimits {
    var toLargeMode: bool
    var scalingFactor: int
    var modules: seq<ModuleLimit>

    constructor (modules: seq<ModuleLimit>, scalingFactor: int, toLargeMode: bool)
      ensures this.modules == modules && this.scalingFactor == scalingFactor && this.toLargeMode == toLargeMode
    {
      this.modules, this.scalingFactor, this.toLargeMode := modules, scalingFactor, toLargeMode;
    }

    /** Ready for lookups: sorted, without repeated names. */
    ghost predicate Sorted()
      reads this
    {
      Descending(modules)
    }

    method NormalizeToLowercase()
      modifies this`modules
      ensures |modules| == |old(modules)|
      ensures forall i :: 0 <= i < |modules| ==> modules[i] == old(modules[i]).(name := Lower(old(modules[i]).name))
    {
      var before := modules;
      for i := 0 to |before|
        invariant |modules| == |before|
        invariant forall j :: 0 <= j < |before| ==>
                    modules[j] == if j < i then before[j].(name := Lower(before[j].name)) else before[j]
      {
        modules := modules[i := modules[i].(name := Lower(modules[i].name))];
      }
    }

    /** Panics exactly when two modules have the same name. */
    method SortReverseAlphabetical() returns (panicked: bool)
      modifies this`modules
      ensures panicked <==> !Unique(old(modules))
      ensures !panicked ==> Sorted() && multiset(modules) == multiset(old(modules))
    {
      var res := SortReverse(modules);
      panicked := res.None?;
      if res.Some? { modules := res.value; }
    }

    /** mustFindModuleLimits: the entry with the longest matching name; none if nothing matches. */
    method FindModuleLimits(name: string) returns (m: Option<ModuleLimit>)
      ensures m == if FirstMatch(modules, Lower(name)) < |modules| then Some(modules[FirstMatch(modules, Lower(name))])
              else None
      ensures Sorted() ==> LongestMatch(modules, Lower(name), m)
    {
      var query := Lower(name);
      if Sorted() { FirstIsLongest(modules, query); }
      for i := 0 to |modules|
        invariant forall j :: 0 <= j < i ==> !(modules[j].name <= query)
      {
        if modules[i].name <= query { return Some(modules[i]); }
      }
      return None;
    }

    /** The limit of a matching entry under the mode and the scaling factor. */
    function LimitOf(m: ModuleLimit): int
      reads this
    {
      ScaledLimit(m, toLargeMode, scalingFactor)
    }

    ghost function LimitOfMatch(m: Option<ModuleLimit>): Option<int>
      reads this
    {
      if m.Some? then Some(LimitOf(m.value)) else None
    }

    method GetLimit(name: string) returns (limit: Option<int>)
      ensures limit == if FirstMatch(modules, Lower(name)) < |modules|
                       then Some(LimitOf(modules[FirstMatch(modules, Lower(name))])) else None
      ensures Sorted() ==> exists m :: LongestMatch(modules, Lower(name), m) && limit == LimitOfMatch(m)
      ensures limit.Some? ==>
                var i := FirstMatch(modules, Lower(name));
                && i < |modules|
                && limit.value == (if toLargeMode then modules[i].limitLarge else modules[i].limit)
                                  * (if modules[i].isNotScalable || scalingFactor <= 1 then 1 else scalingFactor)
    {
      var m := FindModuleLimits(name);
      if m.None? { return None; }
      var res := m.value.limit;
      if toLargeMode { res := m.value.limitLarge; }
      if !m.value.isNotScalable && scalingFactor > 1 { res := res * scalingFactor; }
      return Some(res);
    }

    /** Every scalable limit is multiplied by the factor, every other one is kept. */
    method ScaleUp(times: int)
      modifies this`scalingFactor
      ensures scalingFactor == ScaledFactor(old(scalingFactor), times)
      ensures times >= 1 ==>
                forall m :: LimitOf(m) == if m.isNotScalable then old(LimitOf(m)) else old(LimitOf(m)) * times
    {
      ghost var was := scalingFactor;
      if scalingFactor <= 1 { scalingFactor := times; } else { scalingFactor := scalingFactor * times; }
      if times >= 1 {
        forall m ensures LimitOf(m) == if m.isNotScalable then old(LimitOf(m)) else old(LimitOf(m)) * times {
          ScaleUpLimits(m, toLargeMode, was, times);
        }
      }
    }
  }

  function ScaledLimit(m: ModuleLimit, large: bool, factor: int): int {
    var res := if large then m.limitLarge else m.limit;
    if !m.isNotScalable && factor > 1 then res * factor else res
  }

  function ScaledFactor(factor: int, times: int): int {
    if factor <= 1 then times else factor * times
  }

  lemma ScaleUpLimits(m: ModuleLimit, large: bool, factor: int, times: int)
    requires times >= 1
    ensures ScaledLimit(m, large, ScaledFactor(factor, times))
         == if m.isNotScalable then ScaledLimit(m, large, factor) else ScaledLimit(m, large, factor) * times
  {
    var res := if large then m.limitLarge else m.limit;
    if factor > 1 {
      assert factor * times > 1;
      assert res * (factor * times) == (res * factor) * times;
    }
  }
}
