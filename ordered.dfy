/** JavaScript's `Set` and `Map` iterate in insertion order. Where that order is observable,
    the model keeps a set as a duplicate-free sequence in insertion order. */
module Ordered {

  /** No element occurs twice. */
  predicate Distinct<T(==)>(s: seq<T>)
  {
    forall i, j :: 0 <= i < j < |s| ==> s[i] != s[j]
  }

  /** `set.add(x)`: a new element goes to the end, an existing one keeps its place. */
  function Add<T(==)>(s: seq<T>, x: T): (r: seq<T>)
    ensures Distinct(s) ==> Distinct(r)
    ensures x in r && (forall y | y in s :: y in r) && (forall y | y in r :: y in s || y == x)
    ensures x in s ==> r == s
    ensures x !in s ==> r == s + [x]
  {
    if x in s then s else s + [x]
  }

  /** The elements of `s` that satisfy `p`, in order (`Array.prototype.filter`). */
  function Filter<T>(s: seq<T>, p: T -> bool): (r: seq<T>)
    ensures |r| <= |s|
    ensures forall x | x in r :: x in s && p(x)
    ensures forall x | x in s && p(x) :: x in r
  {
    if |s| == 0 then []
    else if p(s[|s| - 1]) then Filter(s[..|s| - 1], p) + [s[|s| - 1]]
    else Filter(s[..|s| - 1], p)
  }

  lemma {:induction false} FilterAppend<T>(s: seq<T>, x: T, p: T -> bool)
    ensures Filter(s + [x], p) == if p(x) then Filter(s, p) + [x] else Filter(s, p)
  {
    assert (s + [x])[..|s + [x]| - 1] == s;
  }

  lemma {:induction false} FilterDistinct<T>(s: seq<T>, p: T -> bool)
    requires Distinct(s)
    ensures Distinct(Filter(s, p))
  {
    if |s| > 0 {
      var init := s[..|s| - 1];
      assert Distinct(init);
      FilterDistinct(init, p);
      assert s[|s| - 1] !in init;
    }
  }

  /** Keeps the elements of `s` that do not satisfy `p`. */
  lemma {:induction false} FilterSplit<T>(s: seq<T>, p: T -> bool)
    ensures |Filter(s, p)| + |Filter(s, x => !p(x))| == |s|
  {
    if |s| > 0 {
      FilterSplit(s[..|s| - 1], p);
    }
  }

  /** `Array.from(set)`: the elements of a set, each once, in the set's iteration order
      (which the model leaves open). */
  method ArrayFrom<T>(s: set<T>) returns (q: seq<T>)
    ensures (set x | x in q) == s && |q| == |s| && Distinct(q)
  {
    q := [];
    var rest := s;
    while rest != {}
      invariant rest <= s && (set x | x in q) == s - rest && |q| + |rest| == |s|
      invariant Distinct(q)
      decreases |rest|
    {
      var x :| x in rest;
      assert x !in q;
      assert (set y | y in q + [x]) == (set y | y in q) + {x};
      q := q + [x];
      rest := rest - {x};
    }
  }
}

/** Cardinality facts about finite sets. */
module SetFacts {

  lemma {:induction false} SubsetCard<T>(a: set<T>, b: set<T>)
    requires a <= b
    ensures |a| <= |b|
    decreases a
  {
    if a != {} {
      var x :| x in a;
      SubsetCard(a - {x}, b - {x});
    }
  }

  lemma {:induction false} ProperSubsetCard<T>(a: set<T>, b: set<T>)
    requires a < b
    ensures |a| < |b|
  {
    var x :| x in b && x !in a;
    SubsetCard(a, b - {x});
  }

  /** A subset as large as its superset is the whole superset. */
  lemma SameCardSubset<T>(a: set<T>, b: set<T>)
    requires a <= b && |a| == |b|
    ensures a == b
  {
    if a != b {
      ProperSubsetCard(a, b);
    }
  }

  /** An injective map from `0..n` into `u` shows that `u` has at least `n` elements. */
  lemma {:induction false} InjectionCard<T>(f: int -> T, n: nat, u: set<T>)
    requires forall i :: 0 <= i < n ==> f(i) in u
    requires forall i, j :: 0 <= i < j < n ==> f(i) != f(j)
    ensures n <= |u|
  {
    if n > 0 {
      InjectionCard(f, n - 1, u - {f(n - 1)});
    }
  }

  /** A map that is injective on `u` and sends `u` into `v` shows that `v` has at least
      as many elements as `u`. */
  lemma {:induction false} MapInjectionCard<T>(u: set<T>, f: map<T, int>, v: set<int>)
    requires forall x | x in u :: x in f && f[x] in v
    requires forall x, y | x in u && y in u && x != y :: f[x] != f[y]
    ensures |u| <= |v|
    decreases u
  {
    if u != {} {
      var x :| x in u;
      MapInjectionCard(u - {x}, f, v - {f[x]});
    }
  }

  /** All subsets of `u`: finite, so a collection of distinct subsets of `u` is a measure that cannot grow forever. */
  function Subsets<T>(u: set<T>): (r: set<set<T>>)
    ensures forall s | s in r :: s <= u
    ensures forall s | s <= u :: s in r
  {
    set s: set<T> | s <= u
  }
}
