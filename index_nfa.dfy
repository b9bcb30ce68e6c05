/** nfa/nfa.js: the index-based `NFA`, whose states are the positions of a name list and
    whose alphabet indices start above four reserved references. */
module IndexNfa {
  import opened Js
  import Automata

  const ErrorState: int := -1
  /** The state every `NFA` is created with, always at position 0. */
  const StartState: int := 0

  /** `AlphabetReference`: the reserved indices below `AlphabetOffset`. */
  const Epsilon: int := 0
  const Sigma: int := 1
  const Fail: int := 2
  const Eof: int := 3
  const AlphabetOffset: int := 4

  /** `alphaIndexIsRef(alphaIndex)`: the index lies below `AlphabetOffset`. */
  predicate AlphaIndexIsRef(alphaIndex: int)
  {
    AlphabetOffset > alphaIndex
  }

  /** The four named references are references, and so is every negative index. */
  lemma ReferencesAreRefs(alphaIndex: int)
    ensures alphaIndex in {Epsilon, Sigma, Fail, Eof} ==> AlphaIndexIsRef(alphaIndex)
    ensures alphaIndex < 0 ==> AlphaIndexIsRef(alphaIndex)
    ensures AlphaIndexIsRef(alphaIndex) <==> alphaIndex < 0 || alphaIndex in {Epsilon, Sigma, Fail, Eof}
  {
  }

  /** A state's mapping: alphabet index to the list of target state indices. */
  type Mapping = map<int, seq<int>>
  type Mappings = map<int, Mapping>

  /** The list stored for `(state, alphaIndex)`, or no targets. */
  function Listed(m: Mappings, state: int, alphaIndex: int): seq<int>
  {
    if state in m && alphaIndex in m[state] then m[state][alphaIndex] else []
  }

  /** Exactly the positions of the name list are mapped. */
  predicate Dense(m: Mappings, n: int)
  {
    (forall s | s in m :: 0 <= s < n) && (forall s | 0 <= s < n :: s in m)
  }

  /** The mappings after `addEdge(alphaIndex, a, b)`: `b` appended to the list for
      `(a, alphaIndex)`, which is created when absent. */
  function AddedEdge(m: Mappings, alphaIndex: int, a: int, b: int): (r: Mappings)
    requires a in m
    ensures r.Keys == m.Keys
  {
    m[a := m[a][alphaIndex := Listed(m, a, alphaIndex) + [b]]]
  }

  /** `addEdge` lengthens exactly one list, by the new target at its end. */
  lemma AddedEdgeListed(m: Mappings, alphaIndex: int, a: int, b: int)
    requires a in m
    ensures Listed(AddedEdge(m, alphaIndex, a, b), a, alphaIndex) == Listed(m, a, alphaIndex) + [b]
    ensures forall s, x :: (s != a || x != alphaIndex) ==> Listed(AddedEdge(m, alphaIndex, a, b), s, x) == Listed(m, s, x)
  {
  }

  /** Every index `addAlpha` hands out is a registered character, never a reference. */
  lemma {:induction false} InternedNotRef(a: Automata.Alphabet, alpha: string)
    requires a.Valid() && a.Dense(AlphabetOffset)
    ensures !AlphaIndexIsRef(a.Intern(alpha, AlphabetOffset).1)
    ensures forall k | k in a.Intern(alpha, AlphabetOffset).0.index :: !AlphaIndexIsRef(a.Intern(alpha, AlphabetOffset).0.index[k])
  {
    var b := a.Intern(alpha, AlphabetOffset).0;
    forall k | k in b.index
      ensures !AlphaIndexIsRef(b.index[k])
    {
      var j :| 0 <= j < |b.keys| && b.keys[j] == k;
      assert b.index[k] == AlphabetOffset + j;
    }
  }

  class NFA {
    /** `states`: the state names; a state is its position here. */
    var states: seq<string>
    var mappings: Mappings
    var alphabets: Automata.Alphabet
    var accepting: set<int>

    ghost predicate Valid()
      reads this
    {
      |states| >= 1 && Dense(mappings, |states|) &&
      alphabets.Valid() && alphabets.Dense(AlphabetOffset)
    }

    /** `new NFA(name)`: the start state at position 0 with an empty mapping, no alphabet
        and no accepting states. */
    constructor (name: string)
      ensures Valid()
      ensures states == [name] && mappings == map[StartState := map[]]
      ensures alphabets == Automata.NoAlphabet && accepting == {}
    {
      states := [name];
      mappings := map[StartState := map[]];
      alphabets := Automata.NoAlphabet;
      accepting := {};
    }

    /** `delta(stateIndex, alphaIndex)`: both arguments must be numbers; `null` (None) for
        `ErrorState` and for an index the state has no list for. A number that is not a
        state has no mapping, and reading it fails with a TypeError. */
    function Delta(stateIndex: Value, alphaIndex: Value): (r: Result<Option<seq<int>>>)
      reads this
      ensures !stateIndex.Number? || !alphaIndex.Number? ==> r == Throw(TypeError)
      ensures stateIndex == Number(ErrorState) && alphaIndex.Number? ==> r == Ok(None)
      ensures r.Throw? ==> r.exception == TypeError
      ensures stateIndex.Number? && alphaIndex.Number? && stateIndex.num != ErrorState ==>
        (r.Ok? <==> stateIndex.num in mappings)
      ensures r.Ok? && r.value.Some? <==>
        stateIndex.Number? && alphaIndex.Number? && stateIndex.num != ErrorState &&
        stateIndex.num in mappings && alphaIndex.num in mappings[stateIndex.num]
      ensures Valid() && r.Ok? ==>
        Listed(mappings, stateIndex.num, alphaIndex.num) == if r.value.Some? then r.value.value else []
    {
      if !stateIndex.Number? || !alphaIndex.Number? then Throw(TypeError)
      else if stateIndex.num == ErrorState then Ok(None)
      else if stateIndex.num !in mappings then Throw(TypeError)
      else if alphaIndex.num in mappings[stateIndex.num] then Ok(Some(mappings[stateIndex.num][alphaIndex.num]))
      else Ok(None)
    }

    /** `addAlpha(alpha)`: a registered string keeps its index; a new one takes
        `alphabets.size + AlphabetOffset`. */
    method AddAlpha(alpha: Value) returns (r: Result<int>)
      requires Valid()
      modifies this
      ensures Valid()
      ensures r.Throw? <==> !alpha.Str?
      ensures r.Throw? ==> r.exception == TypeError && alphabets == old(alphabets)
      ensures r.Ok? ==> (alphabets, r.value) == old(alphabets).Intern(alpha.str, AlphabetOffset)
      ensures r.Ok? ==> !AlphaIndexIsRef(r.value)
      ensures states == old(states) && mappings == old(mappings) && accepting == old(accepting)
    {
      if !alpha.Str? {
        return Throw(TypeError);
      }
      InternedNotRef(alphabets, alpha.str);
      if alpha.str in alphabets.index {
        return Ok(alphabets.index[alpha.str]);
      }
      var alphaIndex := alphabets.Size() + AlphabetOffset;
      alphabets := alphabets.Set(alpha.str, alphaIndex);
      r := Ok(alphaIndex);
    }

    /** `addVertex(name)`: the new state is the old number of states, with an empty
        mapping, so states stay numbered `0..n-1`. */
    method AddVertex(name: string) returns (stateIndex: int)
      requires Valid()
      modifies this
      ensures Valid()
      ensures stateIndex == |old(states)| && stateIndex !in old(mappings)
      ensures states == old(states) + [name] && mappings == old(mappings)[stateIndex := map[]]
      ensures alphabets == old(alphabets) && accepting == old(accepting)
    {
      stateIndex := |states|;
      states := states + [name];
      mappings := mappings[stateIndex := map[]];
    }

    /** `addEdge(alphaIndex, stateIndexA, stateIndexB)`: appends the target, keeping earlier
        targets and duplicates. A source that is not a state has no mapping, and the
        call fails with a TypeError. */
    method AddEdge(alphaIndex: int, stateIndexA: int, stateIndexB: int) returns (r: Outcome)
      requires Valid()
      modifies this
      ensures Valid()
      ensures r.Thrown? <==> !(0 <= stateIndexA < |states|)
      ensures r.Thrown? ==> r.exception == TypeError && mappings == old(mappings)
      ensures r.Done? ==> stateIndexA in old(mappings) && mappings == AddedEdge(old(mappings), alphaIndex, stateIndexA, stateIndexB)
      ensures states == old(states) && alphabets == old(alphabets) && accepting == old(accepting)
    {
      if stateIndexA !in mappings {
        return Thrown(TypeError);
      }
      mappings := AddedEdge(mappings, alphaIndex, stateIndexA, stateIndexB);
      r := Done;
    }
  }

  /** Adding an edge keeps the states numbered densely and only lengthens one list. */
  lemma AddedEdgeKeepsDense(m: Mappings, n: int, alphaIndex: int, a: int, b: int)
    requires Dense(m, n) && 0 <= a < n
    ensures Dense(AddedEdge(m, alphaIndex, a, b), n)
    ensures forall s, x :: Listed(m, s, x) <= Listed(AddedEdge(m, alphaIndex, a, b), s, x)
  {
    AddedEdgeListed(m, alphaIndex, a, b);
  }
}
