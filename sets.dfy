/** utils/sets-are-equal.js, and the identical `setsAreEqual` at the end of
    algs/subset-construction.js. */
module Sets {
  import SetFacts

  /** `setsAreEqual(set1, set2)`: the sizes agree and every element of the first is in
      the second. */
  predicate SetsAreEqual<T>(set1: set<T>, set2: set<T>)
  {
    |set1| == |set2| && forall elem | elem in set1 :: elem in set2
  }

  /** For finite sets that is exactly equality. */
  lemma SetsAreEqualIsEquality<T>(set1: set<T>, set2: set<T>)
    ensures SetsAreEqual(set1, set2) <==> set1 == set2
  {
    if SetsAreEqual(set1, set2) {
      SetFacts.SameCardSubset(set1, set2);
    }
  }

  /** Different sizes are never equal, whatever the elements. */
  lemma SizesDiffer<T>(set1: set<T>, set2: set<T>)
    requires |set1| != |set2|
    ensures !SetsAreEqual(set1, set2)
  {
  }

  lemma SetsAreEqualReflexive<T>(s: set<T>)
    ensures SetsAreEqual(s, s)
  {
  }

  /** The scan runs over the first argument only, yet the answer does not depend on
      the order of the arguments. */
  lemma SetsAreEqualSymmetric<T>(set1: set<T>, set2: set<T>)
    ensures SetsAreEqual(set1, set2) <==> SetsAreEqual(set2, set1)
  {
    SetsAreEqualIsEquality(set1, set2);
    SetsAreEqualIsEquality(set2, set1);
  }
}
