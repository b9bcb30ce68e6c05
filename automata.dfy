/** What the symbol-keyed automata share: the `ErrorState` symbol of dst/fa.js, the
    reserved `KnownMappings` alphabet indices, and the insertion-ordered `alphabets` map
    from a character to its index. */
module Automata {
  import opened Ordered

  /** The handle of the `ErrorState` symbol. Every other symbol a model allocates has a
      handle of at least 0. */
  const ErrorState: int := -1

  /** `KnownMappings.epsilon`, `KnownMappings.sigma` and `KnownMappingsSize`: the
      reserved indices below the first character index. */
  const Epsilon: int := 0
  const Sigma: int := 1
  const KnownMappingsSize: int := 2

  /** An insertion-ordered `Map<string, number>`: `keys` in insertion order, `index`
      the values. */
  datatype Alphabet = Alphabet(keys: seq<string>, index: map<string, int>)
  {
    predicate Valid()
    {
      Distinct(keys) && (forall k | k in keys :: k in index) && (forall k | k in index :: k in keys)
    }

    /** `map.size`. */
    function Size(): nat
    {
      |keys|
    }

    /** New characters received consecutive indices from `offset` on, in insertion order. */
    predicate Dense(offset: int)
    {
      forall k :: 0 <= k < |keys| ==> keys[k] in index && index[keys[k]] == offset + k
    }

    /** `Array.from(map)`: the `[alpha, index]` pairs in insertion order. */
    function Entries(): (r: seq<(string, int)>)
      requires Valid()
      ensures |r| == |keys|
      ensures forall k :: 0 <= k < |r| ==> r[k] == (keys[k], index[keys[k]])
    {
      seq(|keys|, k requires 0 <= k < |keys| => (keys[k], index[keys[k]]))
    }

    /** `map.set(alpha, i)`: an existing key keeps its place and takes the new value,
        a new key goes to the end. */
    function Set(alpha: string, i: int): (r: Alphabet)
      requires Valid()
      ensures r.Valid() && r.index == index[alpha := i]
      ensures alpha in index ==> r.keys == keys
      ensures alpha !in index ==> r.keys == keys + [alpha]
    {
      Alphabet(if alpha in index then keys else keys + [alpha], index[alpha := i])
    }

    /** `addAlphabet(alpha)` / `addAlpha(alpha)`: a known character keeps its index, a new
        one takes `size + offset`. */
    function Intern(alpha: string, offset: int): (r: (Alphabet, int))
      requires Valid()
      ensures r.0.Valid() && alpha in r.0.index && r.0.index[alpha] == r.1
      ensures alpha in index ==> r.0 == this && r.1 == index[alpha]
      ensures alpha !in index ==> r.1 == Size() + offset && r.0 == Set(alpha, r.1)
      ensures Dense(offset) ==> r.0.Dense(offset)
    {
      if alpha in index then (this, index[alpha])
      else
        var i := Size() + offset;
        (Set(alpha, i), i)
    }
  }

  /** The empty map every automaton starts with. */
  const NoAlphabet: Alphabet := Alphabet([], map[])

  /** Interning the same character twice changes nothing the second time and gives the
      same index. */
  lemma InternIdempotent(a: Alphabet, alpha: string, offset: int)
    requires a.Valid()
    ensures a.Intern(alpha, offset).0.Intern(alpha, offset) == a.Intern(alpha, offset)
  {
  }

  /** In a dense alphabet a new character's index is used by no other character and is
      not a reserved index below `offset`. */
  lemma {:induction false} InternFreshIndex(a: Alphabet, alpha: string, offset: int)
    requires a.Valid() && a.Dense(offset) && alpha !in a.index
    ensures a.Intern(alpha, offset).1 >= offset
    ensures forall k | k in a.index :: a.index[k] != a.Intern(alpha, offset).1
  {
    forall k | k in a.index
      ensures a.index[k] != a.Intern(alpha, offset).1
    {
      var j :| 0 <= j < |a.keys| && a.keys[j] == k;
      assert a.index[k] == offset + j;
    }
  }
}
