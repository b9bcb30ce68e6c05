/** graph.js: `StateGraph`, a cursor on one state of a string-keyed automaton through
    which strings are inserted as a trie and edges are added. */
module Graph {
  import opened Automata
  import opened Fa

  class StateGraph {
    const fa: FiniteAutomata
    const start: int

    /** `new StateGraph(fa, start)`. */
    constructor (fa: FiniteAutomata, start: int)
      ensures this.fa == fa && this.start == start
    {
      this.fa := fa;
      this.start := start;
    }

    /** A graph rooted at a mapped state of a well-formed automaton; the constructor's
        `map = fa.mappings.get(start)` then always finds a mapping. */
    ghost predicate Valid()
      reads this, fa
    {
      fa.Valid() && start in fa.mappings
    }

    /** The `map` field: the mapping of `start`, shared with the automaton. No operation ever
        replaces the mapping of an existing state, so it is always this one. */
    function Map(): map<string, int>
      reads this, fa
      requires Valid()
    {
      fa.mappings[start]
    }

    /** The characters of `str` as the one-character strings `for (const alpha of str)` yields. */
    static function Chars(str: string): set<string>
    {
      set c | c in str :: [c]
    }

    /** `appendString(str)`: walks `str` from `start`, following existing edges and creating
        a fresh state with an empty mapping where one is missing; registers every character;
        marks the last state accepting and returns it. Existing edges are never changed,
        and a string that is already present adds no state. */
    method AppendString(str: string) returns (state: int)
      requires Valid()
      modifies fa
      ensures Valid() && fa.start == old(fa.start)
      ensures state != ErrorState && state in fa.mappings
      ensures state == Run(fa.mappings, start, str)
      ensures Extends(old(fa.mappings), fa.mappings)
      ensures fa.alphabets == old(fa.alphabets) + Chars(str)
      ensures fa.accepting == old(fa.accepting) + {state}
      ensures Run(old(fa.mappings), start, str) != ErrorState ==>
        fa.mappings == old(fa.mappings) && state == Run(old(fa.mappings), start, str)
      ensures str == [] ==> state == start
    {
      state := start;
      var i := 0;
      while i < |str|
        invariant 0 <= i <= |str|
        invariant fa.Valid() && fa.start == old(fa.start)
        invariant Extends(old(fa.mappings), fa.mappings)
        invariant state != ErrorState && state in fa.mappings && start in fa.mappings
        invariant state == Run(fa.mappings, start, str[..i])
        invariant fa.alphabets == old(fa.alphabets) + Chars(str[..i])
        invariant fa.accepting == old(fa.accepting)
        invariant Run(old(fa.mappings), start, str[..i]) != ErrorState ==> fa.mappings == old(fa.mappings)
      {
        var alpha := str[i..i + 1];
        assert alpha == [str[i]];
        assert str[..i + 1] == str[..i] + [str[i]];
        assert Chars(str[..i + 1]) == Chars(str[..i]) + {alpha};
        ghost var before := fa.mappings;
        RunAppend(before, start, str[..i], str[i]);
        RunAppend(old(fa.mappings), start, str[..i], str[i]);
        state := Follow(state, alpha);
        RunExtends(before, fa.mappings, start, str[..i]);
        RunAppend(fa.mappings, start, str[..i], str[i]);
        i := i + 1;
      }
      assert str[..i] == str;
      fa.accepting := fa.accepting + {state};
    }

    /** One character of `appendString`: follows the edge from `state` on `alpha`, or
        creates a fresh state with an empty mapping and the edge to it. */
    method Follow(state: int, alpha: string) returns (next: int)
      requires fa.Valid() && state in fa.mappings
      modifies fa
      ensures fa.Valid() && fa.start == old(fa.start) && fa.accepting == old(fa.accepting)
      ensures fa.alphabets == old(fa.alphabets) + {alpha}
      ensures Extends(old(fa.mappings), fa.mappings)
      ensures next in fa.mappings && next == Step(fa.mappings, state, alpha)
      ensures alpha in old(fa.mappings)[state] ==> fa.mappings == old(fa.mappings)
    {
      if alpha !in fa.alphabets {
        fa.alphabets := fa.alphabets + {alpha};
      }
      var m := fa.mappings[state];
      if alpha in m {
        next := m[alpha];
      } else {
        var created := fa.nextSymbol;
        AddLeaf(fa.start, fa.states, fa.mappings, fa.nextSymbol, state, alpha);
        fa.nextSymbol := fa.nextSymbol + 1;
        fa.states := fa.states + {created};
        fa.mappings := fa.mappings[created := map[]];
        fa.mappings := fa.mappings[state := m[alpha := created]];
        next := created;
      }
    }

    /** `appendVertex(name)`: a fresh state with an empty mapping, returned as a new graph
        rooted at it. */
    method AppendVertex() returns (g: StateGraph)
      requires Valid()
      modifies fa
      ensures fresh(g) && g.fa == fa && g.Valid() && Valid()
      ensures g.start !in old(fa.states)
      ensures fa.mappings == old(fa.mappings)[g.start := map[]]
      ensures fa.states == old(fa.states) + {g.start}
      ensures fa.start == old(fa.start) && fa.alphabets == old(fa.alphabets) && fa.accepting == old(fa.accepting)
    {
      var state := fa.nextSymbol;
      AddState(fa.start, fa.states, fa.mappings, fa.nextSymbol);
      fa.nextSymbol := fa.nextSymbol + 1;
      fa.states := fa.states + {state};
      fa.mappings := fa.mappings[state := map[]];
      g := new StateGraph(fa, state);
    }

    /** `addEdge(alpha, state)`: registers `alpha` and sets, or overwrites, the edge from
        `start` on `alpha`. */
    method AddEdge(alpha: string, state: int)
      requires Valid() && state in fa.mappings
      modifies fa
      ensures Valid()
      ensures fa.alphabets == old(fa.alphabets) + {alpha}
      ensures fa.mappings == old(fa.mappings)[start := old(Map())[alpha := state]]
      ensures Map() == old(Map())[alpha := state]
      ensures fa.states == old(fa.states) && fa.start == old(fa.start) && fa.accepting == old(fa.accepting)
    {
      fa.alphabets := fa.alphabets + {alpha};
      fa.mappings := fa.mappings[start := fa.mappings[start][alpha := state]];
    }

    /** `hasEdge(alpha)`. */
    predicate HasEdge(alpha: string)
      reads this, fa
      requires Valid()
      ensures HasEdge(alpha) <==> Delta(alpha) != ErrorState || (alpha in Map() && Map()[alpha] == ErrorState)
    {
      alpha in Map()
    }

    /** The state `fa.delta(start, alpha)` returns. */
    function Delta(alpha: string): (r: int)
      reads this, fa
      requires Valid()
      ensures r == Step(fa.mappings, start, alpha)
    {
      if alpha in Map() then Map()[alpha] else ErrorState
    }

    /** `getVertex(alpha)`: the graph rooted at the edge's target. The caller must make
        sure the edge exists. */
    method GetVertex(alpha: string) returns (g: StateGraph)
      requires Valid() && HasEdge(alpha)
      ensures fresh(g) && g.fa == fa && g.start == Map()[alpha]
      ensures g.start != ErrorState ==> g.Valid()
    {
      g := new StateGraph(fa, Map()[alpha]);
    }

    /** `addEdges(edges, state)`: `addEdge` for each character in turn. */
    method AddEdges(edges: seq<string>, state: int)
      requires Valid() && state in fa.mappings
      modifies fa
      ensures Valid()
      ensures fa.alphabets == old(fa.alphabets) + set e | e in edges
      ensures fa.mappings.Keys == old(fa.mappings).Keys
      ensures forall s | s in fa.mappings && s != start :: fa.mappings[s] == old(fa.mappings)[s]
      ensures forall a | a in edges :: a in Map() && Map()[a] == state
      ensures forall a | a in Map() && a !in edges :: a in old(Map()) && Map()[a] == old(Map())[a]
      ensures forall a | a in old(Map()) :: a in Map()
      ensures fa.states == old(fa.states) && fa.start == old(fa.start) && fa.accepting == old(fa.accepting)
    {
      var i := 0;
      while i < |edges|
        invariant 0 <= i <= |edges|
        invariant Valid()
        invariant fa.alphabets == old(fa.alphabets) + set e | e in edges[..i]
        invariant fa.mappings.Keys == old(fa.mappings).Keys
        invariant forall s | s in fa.mappings && s != start :: fa.mappings[s] == old(fa.mappings)[s]
        invariant forall a | a in edges[..i] :: a in Map() && Map()[a] == state
        invariant forall a | a in Map() && a !in edges[..i] :: a in old(Map()) && Map()[a] == old(Map())[a]
        invariant forall a | a in old(Map()) :: a in Map()
        invariant fa.states == old(fa.states) && fa.start == old(fa.start) && fa.accepting == old(fa.accepting)
      {
        assert edges[..i + 1] == edges[..i] + [edges[i]];
        AddEdge(edges[i], state);
        i := i + 1;
      }
      assert edges[..i] == edges;
    }

    /** `accept()`: marks `start` accepting. */
    method Accept()
      requires Valid()
      modifies fa
      ensures Valid()
      ensures fa.accepting == old(fa.accepting) + {start}
      ensures fa.mappings == old(fa.mappings) && fa.states == old(fa.states)
      ensures fa.alphabets == old(fa.alphabets) && fa.start == old(fa.start)
    {
      fa.accepting := fa.accepting + {start};
    }
  }
}
