/** The string-keyed deterministic automaton `FiniteAutomata` of dst/fa.js and of fa.js.
    The two classes differ only in how the constructor reaches the same initial state, so
    one class with two constructors models both. */
module Fa {
  import opened Js
  import opened Automata

  /** `mappings`: for each state other than `ErrorState`, its outgoing edges by character. */
  type Mappings = map<int, map<string, int>>

  /** A state `delta` can be asked about: `ErrorState` or a mapped state. */
  predicate Known(m: Mappings, s: int)
  {
    s == ErrorState || s in m
  }

  /** Every edge leads to a state that has its own mapping, or to `ErrorState`. */
  predicate Closed(m: Mappings)
  {
    forall s, a | s in m && a in m[s] :: Known(m, m[s][a])
  }

  /** The value `delta(s, a)` computes once no exception is possible: `ErrorState`
      absorbs every character and a missing edge leads to `ErrorState`. */
  function Step(m: Mappings, s: int, a: string): (r: int)
    ensures Closed(m) && Known(m, s) ==> Known(m, r)
  {
    if s != ErrorState && s in m && a in m[s] then m[s][a] else ErrorState
  }

  /** The state reached from `s` by reading `w` one character at a time. */
  function Run(m: Mappings, s: int, w: string): int
    decreases |w|
  {
    if w == [] then s else Run(m, Step(m, s, w[0..1]), w[1..])
  }

  /** A run of a closed automaton from a known state ends in a known state. */
  lemma {:induction false} RunKnown(m: Mappings, s: int, w: string)
    requires Closed(m) && Known(m, s)
    ensures Known(m, Run(m, s, w))
    decreases |w|
  {
    if w != [] {
      RunKnown(m, Step(m, s, w[0..1]), w[1..]);
    }
  }

  /** Reading one more character is one more step. */
  lemma {:induction false} RunAppend(m: Mappings, s: int, w: string, c: char)
    ensures Run(m, s, w + [c]) == Step(m, Run(m, s, w), [c])
    decreases |w|
  {
    if w == [] {
      assert (w + [c])[1..] == [];
      assert (w + [c])[0..1] == [c];
    } else {
      assert (w + [c])[1..] == w[1..] + [c];
      assert (w + [c])[0..1] == w[0..1];
      RunAppend(m, Step(m, s, w[0..1]), w[1..], c);
    }
  }

  /** `ErrorState` is absorbing: no input leads out of it. */
  lemma {:induction false} RunFromError(m: Mappings, w: string)
    ensures Run(m, ErrorState, w) == ErrorState
    decreases |w|
  {
    if w != [] {
      RunFromError(m, w[1..]);
    }
  }

  /** A run that reaches `ErrorState` on a prefix ends there. */
  lemma {:induction false} RunErrorPrefix(m: Mappings, s: int, w: string, k: nat)
    requires k <= |w| && Run(m, s, w[..k]) == ErrorState
    ensures Run(m, s, w) == ErrorState
    decreases k
  {
    if k == 0 {
      RunFromError(m, w);
    } else if w != [] {
      if s == ErrorState {
        RunFromError(m, w);
      } else {
        assert w[..k][0..1] == w[0..1] && w[..k][1..] == w[1..][..k - 1];
        RunErrorPrefix(m, Step(m, s, w[0..1]), w[1..], k - 1);
      }
    }
  }

  /** `m2` keeps every state and every edge of `m` and may add more. */
  predicate Extends(m: Mappings, m2: Mappings)
  {
    forall s | s in m :: s in m2 && forall a | a in m[s] :: a in m2[s] && m2[s][a] == m[s][a]
  }

  /** Adding states and edges does not change a run that never reached `ErrorState`. */
  lemma {:induction false} RunExtends(m: Mappings, m2: Mappings, s: int, w: string)
    requires Extends(m, m2) && Run(m, s, w) != ErrorState
    ensures Run(m2, s, w) == Run(m, s, w)
    decreases |w|
  {
    if w != [] {
      if s == ErrorState {
        RunFromError(m, w);
      } else {
        RunFromError(m, w[1..]);
        RunExtends(m, m2, Step(m, s, w[0..1]), w[1..]);
      }
    }
  }

  /** No edge is stored with `ErrorState` as its target: a missing edge stands for it. */
  predicate NoErrorEdges(m: Mappings)
  {
    forall s, a | s in m && a in m[s] :: m[s][a] != ErrorState
  }

  /** The invariant of a string-keyed automaton: the start state is mapped, `states` is
      the mapped states plus `ErrorState`, every edge leads to a mapped state, and every
      state is below the next handle to be allocated. */
  predicate Consistent(start: int, states: set<int>, m: Mappings, nextSymbol: int)
  {
    start in m && ErrorState !in m &&
    states == m.Keys + {ErrorState} &&
    Closed(m) && NoErrorEdges(m) &&
    0 <= nextSymbol && (forall s | s in states :: s < nextSymbol)
  }

  /** A fresh state with an empty mapping keeps the invariant and every old edge. */
  lemma AddState(start: int, states: set<int>, m: Mappings, nextSymbol: int)
    requires Consistent(start, states, m, nextSymbol)
    ensures nextSymbol !in states
    ensures var m2 := m[nextSymbol := map[]];
      Consistent(start, states + {nextSymbol}, m2, nextSymbol + 1) && Extends(m, m2)
  {
    var m2 := m[nextSymbol := map[]];
    assert forall t, b | t in m2 && b in m2[t] :: t in m && b in m[t];
  }

  /** A fresh state with no edges, reached from `s` on `a` where `s` had no such edge:
      the graph stays closed and free of error edges and keeps every old edge. */
  lemma AddLeaf(start: int, states: set<int>, m: Mappings, nextSymbol: int, s: int, a: string)
    requires Consistent(start, states, m, nextSymbol) && s in m && a !in m[s]
    ensures var m2 := m[nextSymbol := map[]][s := m[s][a := nextSymbol]];
      Consistent(start, states + {nextSymbol}, m2, nextSymbol + 1) &&
      Extends(m, m2) && Step(m2, s, a) == nextSymbol
  {
    var created := nextSymbol;
    var m2 := m[created := map[]][s := m[s][a := created]];
    forall t, b | t in m2 && b in m2[t]
      ensures Known(m2, m2[t][b]) && m2[t][b] != ErrorState
    {
      if t == s && b == a {
      } else {
        assert t in m && b in m[t];
      }
    }
    forall t | t in m
      ensures t in m2 && forall b | b in m[t] :: b in m2[t] && m2[t][b] == m[t][b]
    {
      if t == s {
        assert forall b | b in m[t] :: b != a;
      }
    }
  }

  class FiniteAutomata {
    var start: int
    var states: set<int>
    var mappings: Mappings
    var alphabets: set<string>
    var accepting: set<int>
    /** Every symbol handed out so far is below this handle, so a handle from here on is
        a symbol no state of this automaton has. */
    var nextSymbol: int

    ghost predicate Valid()
      reads this
    {
      Consistent(start, states, mappings, nextSymbol)
    }

    /** `new FiniteAutomata()` of dst/fa.js: a fresh start state with no edges, and an
        empty alphabet and accepting set. */
    constructor ()
      ensures Valid()
      ensures start != ErrorState && states == {start, ErrorState} && mappings == map[start := map[]]
      ensures alphabets == {} && accepting == {}
    {
      start := 0;
      nextSymbol := 1;
      states := {0, ErrorState};
      mappings := map[0 := map[]];
      alphabets := {};
      accepting := {};
    }

    /** `new FiniteAutomata()` of fa.js: it first fills the start's mapping, the alphabet
        and the accepting set with one placeholder each and then clears all three, which
        leaves the same automaton as the other constructor. */
    constructor Cleared()
      ensures Valid()
      ensures start != ErrorState && states == {start, ErrorState} && mappings == map[start := map[]]
      ensures alphabets == {} && accepting == {}
    {
      start := 0;
      nextSymbol := 1;
      states := {0, ErrorState};
      var placeholder := map["" := 0];
      mappings := map[0 := placeholder];
      alphabets := {""};
      accepting := {ErrorState};
      new;
      mappings := mappings[0 := map[]];
      alphabets := {};
      accepting := {};
    }

    /** `delta(state, alpha)`: `ErrorState` absorbs every character; a missing edge leads to
        `ErrorState`; a state without a mapping makes the lookup fail with a TypeError. */
    function Delta(state: int, alpha: string): (r: Result<int>)
      reads this
      ensures state == ErrorState ==> r == Ok(ErrorState)
      ensures state != ErrorState && state in mappings && alpha in mappings[state] ==> r == Ok(mappings[state][alpha])
      ensures state != ErrorState && state in mappings && alpha !in mappings[state] ==> r == Ok(ErrorState)
      ensures state != ErrorState && state !in mappings ==> r == Throw(TypeError)
      ensures Known(mappings, state) ==> r == Ok(Step(mappings, state, alpha))
    {
      if state == ErrorState then Ok(ErrorState)
      else if state !in mappings then Throw(TypeError)
      else if alpha in mappings[state] then Ok(mappings[state][alpha])
      else Ok(ErrorState)
    }
  }
}
