/** Shared datatypes, and the stable sort that stands for the library sorts of the source. */
module Common {

  datatype Option<+T> = None | Some(value: T)

  /** Larger of two naturals. */
  function Max(a: nat, b: nat): nat {
    if a < b then b else a
  }

  /** `a.saturating_sub(b)` on unsigned integers. */
  function SaturatingSub(a: nat, b: nat): nat {
    if b <= a then a - b else 0
  }

  /** Total and transitive: what the library sorts ask of a comparison. */
  ghost predicate TotalPreorder<T(!new)>(leq: (T, T) -> bool) {
    && (forall a, b :: leq(a, b) || leq(b, a))
    && (forall a, b, c :: leq(a, b) && leq(b, c) ==> leq(a, c))
  }

  ghost predicate SortedBy<T>(leq: (T, T) -> bool, s: seq<T>) {
    forall i, j | 0 <= i < j < |s| :: leq(s[i], s[j])
  }

  function InsertSorted<T>(leq: (T, T) -> bool, x: T, s: seq<T>): seq<T> {
    if s == [] then [x]
    else if leq(x, s[0]) then [x] + s
    else [s[0]] + InsertSorted(leq, x, s[1..])
  }

  /** Stable sort: among equals, the element that came first stays first. */
  function SortBy<T>(leq: (T, T) -> bool, s: seq<T>): seq<T> {
    if s == [] then [] else InsertSorted(leq, s[0], SortBy(leq, s[1..]))
  }

  lemma {:induction false} InsertSortedKeeps<T(!new)>(leq: (T, T) -> bool, x: T, s: seq<T>)
    requires TotalPreorder(leq) && SortedBy(leq, s)
    ensures SortedBy(leq, InsertSorted(leq, x, s))
    ensures multiset(InsertSorted(leq, x, s)) == multiset{x} + multiset(s)
  {
    if s == [] {
    } else if leq(x, s[0]) {
      PrependSorted(leq, x, s);
    } else {
      var rest := InsertSorted(leq, x, s[1..]);
      InsertSortedKeeps(leq, x, s[1..]);
      assert s == [s[0]] + s[1..];
      forall y | y in rest ensures leq(s[0], y) {
        assert y in multiset(rest);
        assert y == x || y in s[1..];
      }
      PrependSorted(leq, s[0], rest);
    }
  }

  lemma PrependSorted<T(!new)>(leq: (T, T) -> bool, x: T, s: seq<T>)
    requires TotalPreorder(leq) && SortedBy(leq, s)
    requires (forall y | y in s :: leq(x, y)) || (s != [] && leq(x, s[0]))
    ensures SortedBy(leq, [x] + s)
  {
    forall j | 0 <= j < |s| ensures leq(x, s[j]) {
      assert j == 0 || leq(s[0], s[j]);
    }
  }

  lemma {:induction false} SortByCorrect<T(!new)>(leq: (T, T) -> bool, s: seq<T>)
    requires TotalPreorder(leq)
    ensures SortedBy(leq, SortBy(leq, s))
    ensures multiset(SortBy(leq, s)) == multiset(s)
    ensures |SortBy(leq, s)| == |s|
  {
    if s != [] {
      SortByCorrect(leq, s[1..]);
      InsertSortedKeeps(leq, s[0], SortBy(leq, s[1..]));
      assert s == [s[0]] + s[1..];
    }
    assert |multiset(SortBy(leq, s))| == |multiset(s)|;
  }

  /** A sequence sorted strictly is the only sorted arrangement of its elements. */
  lemma {:induction false} StrictlySortedUnique<T(!new)>(leq: (T, T) -> bool, s: seq<T>, t: seq<T>)
    requires SortedBy(leq, s)
    requires forall i, j | 0 <= i < j < |t| :: leq(t[i], t[j]) && !leq(t[j], t[i])
    requires multiset(s) == multiset(t)
    ensures s == t
  {
    SameLength(s, t);
    if t != [] {
      SameFirst(leq, s, t);
      SameRest(s, t);
      StrictlySortedUnique(leq, s[1..], t[1..]);
      SameWhole(s, t);
    }
  }

  lemma SameRest<T>(s: seq<T>, t: seq<T>)
    requires s != [] && t != [] && s[0] == t[0] && multiset(s) == multiset(t)
    ensures multiset(s[1..]) == multiset(t[1..])
  {
    assert s == [s[0]] + s[1..] && t == [t[0]] + t[1..];
    assert multiset(s[1..]) == multiset(s) - multiset{s[0]};
    assert multiset(t[1..]) == multiset(t) - multiset{t[0]};
  }

  lemma SameWhole<T>(s: seq<T>, t: seq<T>)
    requires s != [] && t != [] && s[0] == t[0] && s[1..] == t[1..]
    ensures s == t
  {
    assert s == [s[0]] + s[1..] && t == [t[0]] + t[1..];
  }

  lemma SameLength<T>(s: seq<T>, t: seq<T>)
    requires multiset(s) == multiset(t)
    ensures |s| == |t|
  {
    assert |multiset(s)| == |s| && |multiset(t)| == |t|;
  }

  lemma SameFirst<T(!new)>(leq: (T, T) -> bool, s: seq<T>, t: seq<T>)
    requires SortedBy(leq, s) && s != [] && t != []
    requires forall i, j | 0 <= i < j < |t| :: leq(t[i], t[j]) && !leq(t[j], t[i])
    requires multiset(s) == multiset(t)
    ensures s[0] == t[0]
  {
    assert s[0] in multiset(t) && t[0] in multiset(s);
    var i :| 0 <= i < |t| && t[i] == s[0];
    var j :| 0 <= j < |s| && s[j] == t[0];
    assert j == 0 || leq(s[0], s[j]);
  }

  lemma SplitLast<T>(s: seq<T>)
    requires s != []
    ensures s == s[..|s| - 1] + [s[|s| - 1]]
  {
  }

  /** A sequence lists a finite set, each element once: one order a hash map may be iterated in. */
  ghost predicate Enumerates<T>(order: seq<T>, s: set<T>) {
    && (forall i, j | 0 <= i < j < |order| :: order[i] != order[j])
    && (forall i | 0 <= i < |order| :: order[i] in s)
    && (forall x | x in s :: x in order)
  }

  lemma {:induction false} EnumerationsArePermutations<T(!new)>(a: seq<T>, b: seq<T>, s: set<T>)
    requires Enumerates(a, s) && Enumerates(b, s)
    ensures multiset(a) == multiset(b)
  {
    forall x ensures multiset(a)[x] == multiset(b)[x] {
      CountOfDistinct(a, x);
      CountOfDistinct(b, x);
    }
  }

  lemma {:induction false} CountOfDistinct<T>(a: seq<T>, x: T)
    requires forall i, j | 0 <= i < j < |a| :: a[i] != a[j]
    ensures multiset(a)[x] == if x in a then 1 else 0
  {
    if a != [] {
      assert a == [a[0]] + a[1..];
      CountOfDistinct(a[1..], x);
    }
  }

  lemma RepeatedCountsTwice<T>(s: seq<T>, i: nat, j: nat)
    requires i < j < |s|
    ensures s[i] == s[j] ==> multiset(s)[s[i]] >= 2
  {
    assert s == s[..j] + s[j..] && s[..j][i] == s[i] && s[j..][0] == s[j];
  }

  /** Rearranging a list without repetitions gives one without repetitions. */
  lemma ArrangementDistinct<T>(raw: seq<T>, s: seq<T>)
    requires multiset(s) == multiset(raw)
    requires forall i, j | 0 <= i < j < |raw| :: raw[i] != raw[j]
    ensures forall i, j | 0 <= i < j < |s| :: s[i] != s[j]
  {
    forall i, j | 0 <= i < j < |s| ensures s[i] != s[j] {
      CountOfDistinct(raw, s[i]);
      RepeatedCountsTwice(s, i, j);
    }
  }

  lemma {:induction false} EnumerationSize<T>(order: seq<T>, s: set<T>)
    requires Enumerates(order, s)
    ensures |order| == |s|
  {
    if order == [] {
      assert s == {};
    } else {
      var last := order[|order| - 1];
      EnumerationSize(order[..|order| - 1], s - {last});
      assert s == (s - {last}) + {last};
    }
  }

  /** Some order in which a hash map may hand out these keys. */
  method SomeOrder<T(==)>(s: set<T>) returns (order: seq<T>)
    ensures Enumerates(order, s)
  {
    order := [];
    var rest := s;
    while rest != {}
      invariant rest <= s && Enumerates(order, s - rest)
      decreases |rest|
    {
      var k :| k in rest;
      order := order + [k];
      rest := rest - {k};
    }
  }

  /** The interval of naturals lo..hi and its size. */
  function Interval(lo: nat, hi: nat): (r: set<nat>)
    ensures forall h: nat :: h in r <==> lo <= h <= hi
    decreases hi
  {
    if hi < lo then {} else if hi == 0 then {0} else Interval(lo, hi - 1) + {hi}
  }

  lemma {:induction false} IntervalSize(lo: nat, hi: nat)
    requires lo <= hi + 1
    ensures |Interval(lo, hi)| == hi + 1 - lo
    decreases hi
  {
    if 0 < hi && lo <= hi {
      IntervalSize(lo, hi - 1);
    }
  }
}
