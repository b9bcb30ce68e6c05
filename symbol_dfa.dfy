/** tests/dfa.js: `DeterministicFiniteAutomata`, the symbol-keyed automaton that the
    subset construction and the minimiser produce: one target per state and alphabet index. */
module SymbolDfa {
  import opened Js
  import opened Automata

  /** `mappings`: for each mapped state, its target by alphabet index. */
  type Edges = map<int, map<int, int>>

  /** The state `delta(s, index)` returns once no exception is possible: `ErrorState`
      absorbs every index and a missing edge leads to `ErrorState`. */
  function Step(m: Edges, s: int, index: int): int
  {
    if s != ErrorState && s in m && index in m[s] then m[s][index] else ErrorState
  }

  /** The state reached by reading the indices of `w` in turn. */
  function Run(m: Edges, s: int, w: seq<int>): int
    decreases |w|
  {
    if w == [] then s else Run(m, Step(m, s, w[0]), w[1..])
  }

  /** Every handle the automaton mentions, as a state or as an edge's target. */
  predicate Below(m: Edges, states: set<int>, bound: int)
  {
    (forall s | s in states :: s < bound) &&
    (forall s, i | s in m && i in m[s] :: m[s][i] < bound)
  }

  /** The handle after `h`, or `bound` if that is already past it. */
  function After(bound: int, h: int): (r: int)
    ensures r >= bound && r > h
  {
    if h < bound then bound else h + 1
  }

  class DeterministicFiniteAutomata {
    var start: int
    var states: set<int>
    var mappings: Edges
    var alphabets: Alphabet
    var accepting: set<int>
    /** No handle at or above this one occurs in the automaton, so `Symbol(...)` can be
        modelled by allocating it. */
    var nextSymbol: int

    ghost predicate Valid()
      reads this
    {
      start in mappings && states == mappings.Keys + {ErrorState} &&
      alphabets.Valid() && 0 <= nextSymbol && Below(mappings, states, nextSymbol)
    }

    /** `new DeterministicFiniteAutomata(name)`: a symbol is taken as the start state,
        anything else names a fresh one; only the start state is mapped, with no edges. */
    constructor (name: Value)
      ensures Valid()
      ensures name.Symbol? ==> start == name.handle
      ensures !name.Symbol? ==> start != ErrorState
      ensures states == {ErrorState, start} && mappings == map[start := map[]]
      ensures alphabets == NoAlphabet && accepting == {}
    {
      if name.Symbol? {
        start := name.handle;
        nextSymbol := After(0, name.handle);
      } else {
        start := 0;
        nextSymbol := 1;
      }
      states := {ErrorState, start};
      mappings := map[start := map[]];
      alphabets := NoAlphabet;
      accepting := {};
    }

    /** `delta(state, index)` once both arguments are checked and `index` is a number. */
    function Lookup(state: int, index: int): (r: Result<int>)
      reads this
      ensures state == ErrorState ==> r == Ok(ErrorState)
      ensures r.Throw? <==> state != ErrorState && state !in mappings
      ensures r.Throw? ==> r.exception == TypeError
      ensures r.Ok? ==> r.value == Step(mappings, state, index)
      ensures state != ErrorState && state in mappings && index !in mappings[state] ==> r == Ok(ErrorState)
    {
      if state == ErrorState then Ok(ErrorState)
      else if state !in mappings then Throw(TypeError)
      else if index in mappings[state] then Ok(mappings[state][index])
      else Ok(ErrorState)
    }

    /** `addAlphabet(alpha)`: a registered string keeps its index; a new one takes
        `alphabets.size + KnownMappingsSize`. */
    method AddAlphabet(alpha: Value) returns (r: Result<int>)
      requires Valid()
      modifies this
      ensures Valid()
      ensures r.Throw? <==> !alpha.Str?
      ensures r.Throw? ==> r.exception == TypeError && alphabets == old(alphabets)
      ensures r.Ok? ==> (alphabets, r.value) == old(alphabets).Intern(alpha.str, KnownMappingsSize)
      ensures old(alphabets).Dense(KnownMappingsSize) ==> alphabets.Dense(KnownMappingsSize)
      ensures r.Ok? && old(alphabets).Dense(KnownMappingsSize) ==> r.value >= KnownMappingsSize
      ensures start == old(start) && states == old(states) && mappings == old(mappings)
      ensures accepting == old(accepting) && nextSymbol == old(nextSymbol)
    {
      if !alpha.Str? {
        return Throw(TypeError);
      }
      if alpha.str in alphabets.index {
        return Ok(alphabets.index[alpha.str]);
      }
      var index := alphabets.Size() + KnownMappingsSize;
      alphabets := alphabets.Set(alpha.str, index);
      r := Ok(index);
    }

    /** `delta(state, index)`: the state must be a symbol and the index a string or a
        number; a string is registered first. */
    method Delta(state: Value, index: Value) returns (r: Result<int>)
      requires Valid()
      modifies this
      ensures Valid()
      ensures !state.Symbol? ==> r == Throw(TypeError) && alphabets == old(alphabets)
      ensures state.Symbol? && !index.Str? && !index.Number? ==> r == Throw(TypeError) && alphabets == old(alphabets)
      ensures state.Symbol? && index.Number? ==> r == Lookup(state.handle, index.num) && alphabets == old(alphabets)
      ensures state.Symbol? && index.Str? ==>
        alphabets == old(alphabets).Intern(index.str, KnownMappingsSize).0 &&
        r == Lookup(state.handle, old(alphabets).Intern(index.str, KnownMappingsSize).1)
      ensures start == old(start) && states == old(states) && mappings == old(mappings)
      ensures accepting == old(accepting) && nextSymbol == old(nextSymbol)
    {
      if !state.Symbol? {
        return Throw(TypeError);
      }
      var i: int;
      if index.Str? {
        var interned := AddAlphabet(index);
        i := interned.value;
      } else if index.Number? {
        i := index.num;
      } else {
        return Throw(TypeError);
      }
      r := Lookup(state.handle, i);
    }

    /** `addVertex(name)`: a fresh symbol, registered with an empty mapping. */
    method AddVertex(name: Value) returns (state: int)
      requires Valid()
      modifies this
      ensures Valid()
      ensures state != ErrorState && state !in old(states)
      ensures states == old(states) + {state} && mappings == old(mappings)[state := map[]]
      ensures start == old(start) && alphabets == old(alphabets) && accepting == old(accepting)
    {
      state := nextSymbol;
      nextSymbol := nextSymbol + 1;
      states := states + {state};
      mappings := mappings[state := map[]];
    }

    /** `appendVertex(state)`: registers a given symbol with an empty mapping, replacing
        the edges it had if it was already a state. */
    method AppendVertex(state: Value) returns (r: Outcome)
      requires Valid()
      modifies this
      ensures Valid()
      ensures r.Thrown? <==> !state.Symbol?
      ensures r.Thrown? ==> r.exception == TypeError && states == old(states) && mappings == old(mappings)
      ensures r.Done? ==> states == old(states) + {state.handle} && mappings == old(mappings)[state.handle := map[]]
      ensures start == old(start) && alphabets == old(alphabets) && accepting == old(accepting)
    {
      if !state.Symbol? {
        return Thrown(TypeError);
      }
      nextSymbol := After(nextSymbol, state.handle);
      states := states + {state.handle};
      mappings := mappings[state.handle := map[]];
      r := Done;
    }

    /** `addEdge(index, state1, state2)`: checks that the index is a number and both states
        are symbols, then sets or overwrites the one target for `(state1, index)`; a state
        without a mapping fails with a TypeError. */
    method AddEdge(index: Value, state1: Value, state2: Value) returns (r: Outcome)
      requires Valid()
      modifies this
      ensures Valid()
      ensures r.Done? <==> index.Number? && state1.Symbol? && state2.Symbol? && state1.handle in old(mappings)
      ensures r.Thrown? ==> r.exception == TypeError && mappings == old(mappings)
      ensures r.Done? ==> mappings == old(mappings)[state1.handle := old(mappings)[state1.handle][index.num := state2.handle]]
      ensures r.Done? && state1.handle != ErrorState ==> Step(mappings, state1.handle, index.num) == state2.handle
      ensures states == old(states) && start == old(start) && alphabets == old(alphabets) && accepting == old(accepting)
    {
      if !index.Number? || !state1.Symbol? || !state2.Symbol? {
        return Thrown(TypeError);
      }
      if state1.handle !in mappings {
        return Thrown(TypeError);
      }
      mappings := mappings[state1.handle := mappings[state1.handle][index.num := state2.handle]];
      nextSymbol := After(nextSymbol, state2.handle);
      r := Done;
    }
  }

  /** Reading one more index is one more step. */
  lemma {:induction false} RunAppend(m: Edges, s: int, w: seq<int>, i: int)
    ensures Run(m, s, w + [i]) == Step(m, Run(m, s, w), i)
    decreases |w|
  {
    if w == [] {
      assert (w + [i])[1..] == [];
    } else {
      assert (w + [i])[1..] == w[1..] + [i];
      RunAppend(m, Step(m, s, w[0]), w[1..], i);
    }
  }

  /** `ErrorState` is absorbing: no input leads out of it. */
  lemma {:induction false} RunFromError(m: Edges, w: seq<int>)
    ensures Run(m, ErrorState, w) == ErrorState
    decreases |w|
  {
    if w != [] {
      RunFromError(m, w[1..]);
    }
  }

  /** `x` is the index of a registered character. */
  predicate Known(alphabets: seq<(string, int)>, x: int)
  {
    exists c :: 0 <= c < |alphabets| && alphabets[c].1 == x
  }

  /** Every index of `w` is the index of a registered character. */
  predicate Registered(alphabets: seq<(string, int)>, w: seq<int>)
  {
    forall i :: 0 <= i < |w| ==> Known(alphabets, w[i])
  }

  /** The position in `alphabets` of the `i`-th index of a registered word. */
  lemma RegisteredAt(alphabets: seq<(string, int)>, w: seq<int>, i: int) returns (c: int)
    requires Registered(alphabets, w) && 0 <= i < |w|
    ensures 0 <= c < |alphabets| && alphabets[c].1 == w[i]
  {
    assert Known(alphabets, w[i]);
    c :| 0 <= c < |alphabets| && alphabets[c].1 == w[i];
  }

  /** What follows the first index of a registered word is registered. */
  lemma RegisteredTail(alphabets: seq<(string, int)>, w: seq<int>)
    requires Registered(alphabets, w) && w != []
    ensures Registered(alphabets, w[1..])
  {
    forall i | 0 <= i < |w[1..]|
      ensures Known(alphabets, w[1..][i])
    {
      assert w[1..][i] == w[i + 1];
    }
  }

  /** `for (const [alpha, index] of this.alphabets) dfa.alphabets.set(alpha, index)`:
      copying the pairs in order into an empty map gives the same map. The map is built
      in a local and stored once; nothing reads the DFA in between. */
  method CopyAlphabet(dfa: DeterministicFiniteAutomata, source: Alphabet, pairs: seq<(string, int)>)
    requires source.Valid() && pairs == source.Entries()
    requires dfa.Valid() && dfa.alphabets == NoAlphabet
    modifies dfa
    ensures dfa.Valid() && dfa.alphabets == source
    ensures dfa.start == old(dfa.start) && dfa.mappings == old(dfa.mappings) && dfa.accepting == old(dfa.accepting)
  {
    var copy := CopyPairs(source, pairs);
    dfa.alphabets := copy;
  }

  method CopyPairs(source: Alphabet, pairs: seq<(string, int)>) returns (copy: Alphabet)
    requires source.Valid() && pairs == source.Entries()
    ensures copy == source
  {
    copy := NoAlphabet;
    assert copy == Copied(source, 0);
    var i := 0;
    while i < |pairs|
      invariant 0 <= i <= |pairs|
      invariant copy == Copied(source, i)
    {
      var (alpha, alphaIndex) := pairs[i];
      CopiedStep(source, i);
      copy := copy.Set(alpha, alphaIndex);
      i := i + 1;
    }
    CopiedAll(source);
  }

  /** The copy after the first `i` pairs. */
  ghost function Copied(source: Alphabet, i: int): Alphabet
    requires source.Valid() && 0 <= i <= |source.keys|
  {
    Alphabet(source.keys[..i], map k | k in source.keys[..i] :: source.index[k])
  }

  /** Setting the next pair extends the copy by that pair. */
  lemma CopiedStep(source: Alphabet, i: int)
    requires source.Valid() && 0 <= i < |source.keys|
    ensures Copied(source, i).Valid()
    ensures Copied(source, i).Set(source.keys[i], source.index[source.keys[i]]) == Copied(source, i + 1)
  {
    var keys := source.keys;
    assert keys[..i + 1] == keys[..i] + [keys[i]];
    assert keys[i] !in keys[..i];
  }

  /** After every pair the copy is the source. */
  lemma CopiedAll(source: Alphabet)
    requires source.Valid()
    ensures Copied(source, |source.keys|) == source
  {
    assert source.keys[..|source.keys|] == source.keys;
  }
}
