/** dst/nfa.js: `NondeterministicFiniteAutomata`, an automaton whose states are symbols
    and whose edges are keyed by alphabet index, each edge holding a list of targets. */
module SymbolNfa {
  import opened Js
  import opened Automata

  /** `mappings`: for each mapped state, the target lists by alphabet index. */
  type Edges = map<int, map<int, seq<int>>>

  /** The list stored for `(s, index)`, or no targets. */
  function Listed(m: Edges, s: int, index: int): seq<int>
  {
    if s in m && index in m[s] then m[s][index] else []
  }

  /** The targets `delta(s, index)` yields, with `null` read as no targets:
      `ErrorState` has none whatever is stored for it. */
  function Targets(m: Edges, s: int, index: int): seq<int>
  {
    if s == ErrorState then [] else Listed(m, s, index)
  }

  /** Every handle an automaton mentions, as a state or as an edge's target. */
  predicate Below(m: Edges, states: set<int>, bound: int)
  {
    (forall s | s in states :: s < bound) &&
    (forall s, i | s in m && i in m[s] :: forall t | t in m[s][i] :: t < bound)
  }

  /** The handle after `h`, or 0: where the allocation of fresh symbols resumes. */
  function After(bound: int, h: int): (r: int)
    ensures r >= bound && r > h
  {
    if h < bound then bound else h + 1
  }

  class NondeterministicFiniteAutomata {
    var start: int
    var states: set<int>
    var mappings: Edges
    var alphabets: Alphabet
    var accepting: set<int>
    /** No handle at or above this one occurs in the automaton, so `Symbol(...)` can be
        modelled by allocating it. */
    var nextSymbol: int

    ghost predicate Valid()
      reads this
    {
      start in mappings && states == mappings.Keys + {ErrorState} &&
      alphabets.Valid() && alphabets.Dense(KnownMappingsSize) &&
      0 <= nextSymbol && Below(mappings, states, nextSymbol)
    }

    /** `new NondeterministicFiniteAutomata(name)`: a symbol is taken as the start state,
        anything else names a fresh one; only the start state is mapped, with no edges. */
    constructor (name: Value)
      ensures Valid()
      ensures name.Symbol? ==> start == name.handle
      ensures !name.Symbol? ==> start != ErrorState
      ensures states == {ErrorState, start} && mappings == map[start := map[]]
      ensures alphabets == NoAlphabet && accepting == {}
    {
      if name.Symbol? {
        start := name.handle;
        nextSymbol := After(0, name.handle);
      } else {
        start := 0;
        nextSymbol := 1;
      }
      states := {ErrorState, start};
      mappings := map[start := map[]];
      alphabets := NoAlphabet;
      accepting := {};
    }

    /** `delta(state, index)` once both arguments are checked and `index` is a number:
        `null` (None) for `ErrorState` and for a missing index, a TypeError when the state
        has no mapping, and otherwise the target list. */
    function Lookup(state: int, index: int): (r: Result<Option<seq<int>>>)
      reads this
      ensures state == ErrorState ==> r == Ok(None)
      ensures r.Throw? <==> state != ErrorState && state !in mappings
      ensures r.Throw? ==> r.exception == TypeError
      ensures r.Ok? && r.value.Some? ==> state in mappings && index in mappings[state] && r.value.value == mappings[state][index]
      ensures r.Ok? ==> (r.value.None? <==> state == ErrorState || index !in mappings[state])
      ensures r.Ok? ==> Targets(mappings, state, index) == if r.value.Some? then r.value.value else []
    {
      if state == ErrorState then Ok(None)
      else if state !in mappings then Throw(TypeError)
      else if index in mappings[state] then Ok(Some(mappings[state][index]))
      else Ok(None)
    }

    /** `addAlphabet(alpha)`: a registered string keeps its index; a new one takes
        `alphabets.size + KnownMappingsSize`, so it is never a reserved index. */
    method AddAlphabet(alpha: Value) returns (r: Result<int>)
      requires Valid()
      modifies this
      ensures Valid()
      ensures r.Throw? <==> !alpha.Str?
      ensures r.Throw? ==> r.exception == TypeError && alphabets == old(alphabets)
      ensures r.Ok? ==> (alphabets, r.value) == old(alphabets).Intern(alpha.str, KnownMappingsSize)
      ensures r.Ok? ==> r.value >= KnownMappingsSize
      ensures start == old(start) && states == old(states) && mappings == old(mappings)
      ensures accepting == old(accepting) && nextSymbol == old(nextSymbol)
    {
      if !alpha.Str? {
        return Throw(TypeError);
      }
      if alpha.str in alphabets.index {
        return Ok(alphabets.index[alpha.str]);
      }
      InternFreshIndex(alphabets, alpha.str, KnownMappingsSize);
      var index := alphabets.Size() + KnownMappingsSize;
      alphabets := alphabets.Set(alpha.str, index);
      r := Ok(index);
    }

    /** `delta(state, index)`: the state must be a symbol and the index a string or a
        number; a string is registered first, even when the state turns out to be
        `ErrorState`. */
    method Delta(state: Value, index: Value) returns (r: Result<Option<seq<int>>>)
      requires Valid()
      modifies this
      ensures Valid()
      ensures !state.Symbol? ==> r == Throw(TypeError) && alphabets == old(alphabets)
      ensures state.Symbol? && !index.Str? && !index.Number? ==> r == Throw(TypeError) && alphabets == old(alphabets)
      ensures state.Symbol? && index.Number? ==> r == Lookup(state.handle, index.num) && alphabets == old(alphabets)
      ensures state.Symbol? && index.Str? ==>
        alphabets == old(alphabets).Intern(index.str, KnownMappingsSize).0 &&
        r == Lookup(state.handle, old(alphabets).Intern(index.str, KnownMappingsSize).1)
      ensures start == old(start) && states == old(states) && mappings == old(mappings)
      ensures accepting == old(accepting) && nextSymbol == old(nextSymbol)
    {
      if !state.Symbol? {
        return Throw(TypeError);
      }
      var i: int;
      if index.Str? {
        var interned := AddAlphabet(index);
        i := interned.value;
      } else if index.Number? {
        i := index.num;
      } else {
        return Throw(TypeError);
      }
      r := Lookup(state.handle, i);
    }

    /** `addVertex(name)`: a fresh symbol, registered with an empty mapping. */
    method AddVertex(name: Value) returns (state: int)
      requires Valid()
      modifies this
      ensures Valid()
      ensures state != ErrorState && state !in old(states)
      ensures states == old(states) + {state} && mappings == old(mappings)[state := map[]]
      ensures start == old(start) && alphabets == old(alphabets) && accepting == old(accepting)
    {
      state := nextSymbol;
      nextSymbol := nextSymbol + 1;
      states := states + {state};
      mappings := mappings[state := map[]];
    }

    /** `appendVertex(state)`: registers a given symbol with an empty mapping, replacing
        the edges it had if it was already a state. */
    method AppendVertex(state: Value) returns (r: Outcome)
      requires Valid()
      modifies this
      ensures Valid()
      ensures r.Thrown? <==> !state.Symbol?
      ensures r.Thrown? ==> r.exception == TypeError && states == old(states) && mappings == old(mappings)
      ensures r.Done? ==> states == old(states) + {state.handle} && mappings == old(mappings)[state.handle := map[]]
      ensures start == old(start) && alphabets == old(alphabets) && accepting == old(accepting)
    {
      if !state.Symbol? {
        return Thrown(TypeError);
      }
      nextSymbol := After(nextSymbol, state.handle);
      states := states + {state.handle};
      mappings := mappings[state.handle := map[]];
      r := Done;
    }

    /** `addEdge(index, state1, state2)`: appends `state2` to the list for `index`, keeping
        earlier targets and duplicates; a state without a mapping fails with a TypeError. */
    method AddEdge(index: int, state1: int, state2: int) returns (r: Outcome)
      requires Valid()
      modifies this
      ensures Valid()
      ensures r.Thrown? <==> state1 !in old(mappings)
      ensures r.Thrown? ==> r.exception == TypeError && mappings == old(mappings)
      ensures r.Done? ==> mappings == old(mappings)[state1 := old(mappings)[state1][index := Listed(old(mappings), state1, index) + [state2]]]
      ensures r.Done? && state1 != ErrorState ==> Targets(mappings, state1, index) == Targets(old(mappings), state1, index) + [state2]
      ensures states == old(states) && start == old(start) && alphabets == old(alphabets) && accepting == old(accepting)
    {
      if state1 !in mappings {
        return Thrown(TypeError);
      }
      var mapping := mappings[state1];
      if index in mapping {
        mappings := mappings[state1 := mapping[index := mapping[index] + [state2]]];
      } else {
        assert Listed(mappings, state1, index) + [state2] == [state2];
        mappings := mappings[state1 := mapping[index := [state2]]];
      }
      nextSymbol := After(nextSymbol, state2);
      r := Done;
    }
  }
}
