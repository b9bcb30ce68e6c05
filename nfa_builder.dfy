/** nfa/nfa-builder.js: `buildString` and the `NFABuilder` helpers that grow an index-based
    NFA by chains of fresh states. */
module NfaBuilders {
  import opened Js
  import Automata
  import opened IndexNfa

  /** The parts of an `NFA` the builders change besides `accepting`. */
  datatype Graph = Graph(states: seq<string>, mappings: Mappings, alphabets: Automata.Alphabet)

  function GraphOf(nfa: NFA): Graph
    reads nfa
  {
    Graph(nfa.states, nfa.mappings, nfa.alphabets)
  }

  /** The states are numbered `0..n-1` by their mappings, and there is a start state. */
  ghost predicate Started(g: Graph)
  {
    |g.states| >= 1 && Dense(g.mappings, |g.states|)
  }

  /** `${n}` for a natural number. */
  function Decimal(n: nat): (r: string)
    ensures |r| >= 1
  {
    if n < 10 then ["0123456789"[n]] else Decimal(n / 10) + ["0123456789"[n % 10]]
  }

  /** The name `buildString` gives the state it adds for `alpha` while building `str`:
      `str{${str}, ${alpha}, ${nfa.states.length}}`, with the length taken before the push. */
  function StringVertexName(str: string, alpha: char, length: nat): string
  {
    "str{" + str + ", " + [alpha] + ", " + Decimal(length) + "}"
  }

  /** `sentinel(${c})`. */
  function SentinelVertexName(c: char): string
  {
    "sentinel(" + [c] + ")"
  }

  /** The alphabet key of one code point: the string `for (const alpha of str)` yields. */
  function Key(c: char): string
  {
    [c]
  }

  /** `addAlpha` on the alphabet map alone: a registered string keeps its index, a new
      one goes to the end with the next index above `AlphabetOffset`. */
  function Interned(a: Automata.Alphabet, alpha: string): (r: (Automata.Alphabet, int))
    ensures alpha in r.0.index && r.0.index[alpha] == r.1
  {
    if alpha in a.index then (a, a.index[alpha])
    else
      var i := |a.keys| + AlphabetOffset;
      (Automata.Alphabet(a.keys + [alpha], a.index[alpha := i]), i)
  }

  /** On a well-formed map, `Interned` is the map's own `Intern` at `AlphabetOffset`. */
  lemma InternedIsIntern(a: Automata.Alphabet, alpha: string)
    requires a.Valid()
    ensures Interned(a, alpha) == a.Intern(alpha, AlphabetOffset)
  {
  }

  /** No registered character has a reserved index. */
  ghost predicate Above(a: Automata.Alphabet)
  {
    forall k | k in a.index :: a.index[k] >= AlphabetOffset
  }

  lemma DenseAbove(a: Automata.Alphabet)
    requires a.Valid() && a.Dense(AlphabetOffset)
    ensures Above(a)
  {
    forall k | k in a.index
      ensures a.index[k] >= AlphabetOffset
    {
      var j :| 0 <= j < |a.keys| && a.keys[j] == k;
    }
  }

  /** Interning keeps every character at its index and hands out no reserved index. */
  lemma InternedFacts(a: Automata.Alphabet, alpha: string)
    ensures AlphabetGrows(a, Interned(a, alpha).0)
    ensures Above(a) ==> Above(Interned(a, alpha).0) && Interned(a, alpha).1 >= AlphabetOffset
  {
  }

  /** Whether `from` reaches `to` by reading the characters of `s` in turn, following
      one listed target per character. */
  ghost predicate Spells(m: Mappings, a: Automata.Alphabet, from: int, s: string, to: int)
    decreases |s|
  {
    if |s| == 0 then from == to
    else Key(s[0]) in a.index && exists t | t in Listed(m, from, a.index[Key(s[0])]) :: Spells(m, a, t, s[1..], to)
  }

  /** No list of `m1` loses a target in `m2`: each is a prefix of the new one. */
  ghost predicate EdgesGrow(m1: Mappings, m2: Mappings)
  {
    forall s, x :: Listed(m1, s, x) <= Listed(m2, s, x)
  }

  /** `a2` keeps every character of `a1` at its index. */
  ghost predicate AlphabetGrows(a1: Automata.Alphabet, a2: Automata.Alphabet)
  {
    forall k | k in a1.index :: k in a2.index && a2.index[k] == a1.index[k]
  }

  /** A path stays a path when lists only grow and characters keep their indices. */
  lemma {:induction false} SpellsGrow(m1: Mappings, a1: Automata.Alphabet, m2: Mappings, a2: Automata.Alphabet, from: int, s: string, to: int)
    requires Spells(m1, a1, from, s, to) && EdgesGrow(m1, m2) && AlphabetGrows(a1, a2)
    ensures Spells(m2, a2, from, s, to)
    decreases |s|
  {
    if |s| > 0 {
      var t :| t in Listed(m1, from, a1.index[Key(s[0])]) && Spells(m1, a1, t, s[1..], to);
      assert Listed(m1, from, a1.index[Key(s[0])]) <= Listed(m2, from, a2.index[Key(s[0])]);
      SpellsGrow(m1, a1, m2, a2, t, s[1..], to);
    }
  }

  /** A path followed by one more listed edge spells the longer string. */
  lemma {:induction false} SpellsSnoc(m: Mappings, a: Automata.Alphabet, from: int, w: string, mid: int, to: int)
    requires |w| > 0 && Spells(m, a, from, w[..|w| - 1], mid)
    requires Key(w[|w| - 1]) in a.index && to in Listed(m, mid, a.index[Key(w[|w| - 1])])
    ensures Spells(m, a, from, w, to)
    decreases |w|
  {
    if |w| == 1 {
      assert w[1..] == [];
      assert Spells(m, a, to, [], to);
    } else {
      var init := w[..|w| - 1];
      var t :| t in Listed(m, from, a.index[Key(init[0])]) && Spells(m, a, t, init[1..], mid);
      assert w[1..][..|w| - 2] == init[1..];
      SpellsSnoc(m, a, t, w[1..], mid, to);
    }
  }

  lemma EdgesGrowTrans(m1: Mappings, m2: Mappings, m3: Mappings)
    requires EdgesGrow(m1, m2) && EdgesGrow(m2, m3)
    ensures EdgesGrow(m1, m3)
  {
    forall s, x
      ensures Listed(m1, s, x) <= Listed(m3, s, x)
    {
      assert Listed(m1, s, x) <= Listed(m2, s, x) <= Listed(m3, s, x);
    }
  }

  /** Mapping a fresh state, and appending to a list, only lengthen lists. */
  lemma AddedEdgeGrows(m: Mappings, v: int, alphaIndex: int, a: int, b: int)
    requires v !in m && (a in m || a == v)
    ensures EdgesGrow(m, AddedEdge(m[v := map[]], alphaIndex, a, b))
  {
    var added := m[v := map[]];
    AddedEdgeListed(added, alphaIndex, a, b);
    forall s, x
      ensures Listed(m, s, x) <= Listed(AddedEdge(added, alphaIndex, a, b), s, x)
    {
      assert Listed(m, s, x) == Listed(added, s, x);
    }
  }

  /** Mapping one more state keeps the numbering dense. */
  lemma DenseSnoc(m1: Mappings, n: int, m2: Mappings)
    requires n >= 0 && Dense(m1, n) && m2.Keys == m1.Keys + {n}
    ensures Dense(m2, n + 1)
  {
  }

  lemma TakeTake(s: string, n: nat)
    requires 0 < n <= |s|
    ensures s[..n][..n - 1] == s[..n - 1]
  {
  }

  /** A path into `prev` that survives a growing step, followed by the step's new edge,
      spells one more character; growth composes. */
  lemma SpellsExtend(g: Graph, h: Graph, k: Graph, w: string, n: nat, prev: int, last: int)
    requires 0 < n <= |w|
    requires Spells(h.mappings, h.alphabets, StartState, w[..n - 1], prev)
    requires EdgesGrow(g.mappings, h.mappings) && AlphabetGrows(g.alphabets, h.alphabets)
    requires EdgesGrow(h.mappings, k.mappings) && AlphabetGrows(h.alphabets, k.alphabets)
    requires Key(w[n - 1]) in k.alphabets.index && last in Listed(k.mappings, prev, k.alphabets.index[Key(w[n - 1])])
    ensures Spells(k.mappings, k.alphabets, StartState, w[..n], last)
    ensures EdgesGrow(g.mappings, k.mappings) && AlphabetGrows(g.alphabets, k.alphabets)
  {
    EdgesGrowTrans(g.mappings, h.mappings, k.mappings);
    SpellsGrow(h.mappings, h.alphabets, k.mappings, k.alphabets, StartState, w[..n - 1], prev);
    TakeTake(w, n);
    SpellsSnoc(k.mappings, k.alphabets, StartState, w[..n], prev, last);
  }

  /** `r.0` keeps what `g` had and stays densely numbered, and its `StartState` spells
      the first `n` characters of `w` to `r.1`. */
  ghost predicate Reaches(g: Graph, r: (Graph, int), w: string, n: nat)
  {
    n <= |w| && Dense(r.0.mappings, |r.0.states|) &&
    Spells(r.0.mappings, r.0.alphabets, StartState, w[..n], r.1) &&
    EdgesGrow(g.mappings, r.0.mappings) && AlphabetGrows(g.alphabets, r.0.alphabets)
  }

  /** Every one of the first `n` characters of `str` is registered in `a`. */
  ghost predicate KeysIn(str: string, n: nat, a: Automata.Alphabet)
    requires n <= |str|
  {
    forall j | 0 <= j < n :: Key(str[j]) in a.index
  }

  lemma KeysExtend(str: string, n: nat, a1: Automata.Alphabet, a2: Automata.Alphabet)
    requires 0 < n <= |str| && KeysIn(str, n - 1, a1) && AlphabetGrows(a1, a2) && Key(str[n - 1]) in a2.index
    ensures KeysIn(str, n, a2)
  {
  }

  /** One pass of `buildString`'s loop from `prev` on character `c`: the character is
      registered, a fresh state is added and `prev` gets an edge to it. */
  function StringStep(g: Graph, str: string, prev: int, c: char): (r: (Graph, int))
    requires prev in g.mappings
    ensures r.1 == |g.states| && |r.0.states| == |g.states| + 1 && r.0.mappings.Keys == g.mappings.Keys + {r.1}
  {
    var (alphabets, alphaIndex) := Interned(g.alphabets, Key(c));
    var v := |g.states|;
    (Graph(g.states + [StringVertexName(str, c, v)], AddedEdge(g.mappings[v := map[]], alphaIndex, prev, v), alphabets), v)
  }

  /** A pass keeps every list and character, adds the edge from `prev` on `c` to the new
      state, gives the new state no edges and touches no other state. */
  lemma StringStepFacts(g: Graph, str: string, prev: int, c: char)
    requires prev in g.mappings && |g.states| !in g.mappings
    ensures var (h, v) := StringStep(g, str, prev, c);
      EdgesGrow(g.mappings, h.mappings) && AlphabetGrows(g.alphabets, h.alphabets) &&
      Key(c) in h.alphabets.index && v in Listed(h.mappings, prev, h.alphabets.index[Key(c)]) &&
      (forall x :: Listed(h.mappings, v, x) == []) &&
      (forall x :: Listed(h.mappings, prev, x) ==
        if x == h.alphabets.index[Key(c)] then Listed(g.mappings, prev, x) + [v] else Listed(g.mappings, prev, x)) &&
      forall st, x | st != prev && st != v :: Listed(h.mappings, st, x) == Listed(g.mappings, st, x)
  {
    InternedFacts(g.alphabets, Key(c));
    var alphaIndex := Interned(g.alphabets, Key(c)).1;
    AddedEdgeGrows(g.mappings, |g.states|, alphaIndex, prev, |g.states|);
    AddedEdgeListed(g.mappings[|g.states| := map[]], alphaIndex, prev, |g.states|);
    assert Listed(g.mappings[|g.states| := map[]], prev, alphaIndex) == Listed(g.mappings, prev, alphaIndex);
  }

  /** `buildString` after reading the first `n` characters of `str`: the graph and the
      state the chain has reached. */
  function StringChain(g: Graph, str: string, n: nat): (r: (Graph, int))
    requires StartState in g.mappings && n <= |str|
    ensures |r.0.states| == |g.states| + n && r.1 in r.0.mappings
    ensures r.1 == if n == 0 then StartState else |g.states| + n - 1
  {
    if n == 0 then (g, StartState)
    else
      var (h, prev) := StringChain(g, str, n - 1);
      StringStep(h, str, prev, str[n - 1])
  }

  /** The chain `buildString` adds spells its string from `StartState` to the state it
      returns, and the automaton it started from is kept: no list loses a target and no
      character changes index. */
  lemma {:induction false} StringChainSpells(g: Graph, str: string, n: nat)
    requires Started(g) && n <= |str|
    ensures Reaches(g, StringChain(g, str, n), str, n)
  {
    if n > 0 {
      StringChainSpells(g, str, n - 1);
      StringStepSpells(g, StringChain(g, str, n - 1), str, n);
    }
  }

  /** The induction step of `StringChainSpells`. */
  lemma StringStepSpells(g: Graph, r: (Graph, int), str: string, n: nat)
    requires 0 < n <= |str| && r.1 in r.0.mappings && Reaches(g, r, str, n - 1)
    ensures Reaches(g, StringStep(r.0, str, r.1, str[n - 1]), str, n)
  {
    StringStepFacts(r.0, str, r.1, str[n - 1]);
    var k := StringStep(r.0, str, r.1, str[n - 1]);
    SpellsExtend(g, r.0, k.0, str, n, r.1, k.1);
    DenseSnoc(r.0.mappings, |r.0.states|, k.0.mappings);
  }

  /** What `buildString` leaves in the mappings: each added state's only edge is the next
      character to the next state, the last one has none, and the states that existed
      before, other than `StartState`, keep their lists. */
  ghost predicate ChainShaped(g: Graph, h: Graph, str: string, n: nat)
  {
    n <= |str| && KeysIn(str, n, h.alphabets) &&
    |h.states| == |g.states| + n &&
    (forall st, x | 0 < st < |g.states| :: Listed(h.mappings, st, x) == Listed(g.mappings, st, x)) &&
    (forall v, x | |g.states| <= v < |h.states| ::
      Listed(h.mappings, v, x) ==
        if v + 1 < |h.states| && x == h.alphabets.index[Key(str[v - |g.states| + 1])] then [v + 1] else [])
  }

  /** `ChainShaped`, with the state reached being the last one added and the numbering
      kept dense. */
  ghost predicate Shaped(g: Graph, r: (Graph, int), str: string, n: nat)
  {
    |g.states| >= 1 && Dense(r.0.mappings, |r.0.states|) &&
    r.1 == (if n == 0 then StartState else |r.0.states| - 1) && ChainShaped(g, r.0, str, n)
  }

  lemma {:induction false} StringChainShape(g: Graph, str: string, n: nat)
    requires Started(g) && n <= |str|
    ensures Shaped(g, StringChain(g, str, n), str, n)
  {
    if n > 0 {
      StringChainShape(g, str, n - 1);
      StringStepShape(g, StringChain(g, str, n - 1), str, n);
    }
  }

  /** The induction step of `StringChainShape`. */
  lemma StringStepShape(g: Graph, r: (Graph, int), str: string, n: nat)
    requires 0 < n <= |str| && r.1 in r.0.mappings && Shaped(g, r, str, n - 1)
    ensures Shaped(g, StringStep(r.0, str, r.1, str[n - 1]), str, n)
  {
    StringStepFacts(r.0, str, r.1, str[n - 1]);
    var k := StringStep(r.0, str, r.1, str[n - 1]).0;
    KeysExtend(str, n, r.0.alphabets, k.alphabets);
    ShapedSnoc(g, r.0, k, str, n, r.1);
    DenseSnoc(r.0.mappings, |r.0.states|, k.mappings);
  }

  /** The list facts behind `StringStepShape`. */
  lemma ShapedSnoc(g: Graph, h: Graph, k: Graph, str: string, n: nat, prev: int)
    requires 0 < n <= |str| && |g.states| >= 1
    requires KeysIn(str, n, k.alphabets)
    requires ChainShaped(g, h, str, n - 1) && AlphabetGrows(h.alphabets, k.alphabets)
    requires |k.states| == |h.states| + 1
    requires prev == if n == 1 then StartState else |h.states| - 1
    requires forall x :: Listed(k.mappings, |h.states|, x) == []
    requires forall x :: (Listed(k.mappings, prev, x) ==
      if x == k.alphabets.index[Key(str[n - 1])] then Listed(h.mappings, prev, x) + [|h.states|] else Listed(h.mappings, prev, x))
    requires forall st, x | st != prev && st != |h.states| :: Listed(k.mappings, st, x) == Listed(h.mappings, st, x)
    ensures ChainShaped(g, k, str, n)
  {
    forall v, x | |g.states| <= v < |k.states|
      ensures Listed(k.mappings, v, x) ==
        if v + 1 < |k.states| && x == k.alphabets.index[Key(str[v - |g.states| + 1])] then [v + 1] else []
    {
      if v + 2 < |k.states| {
        assert Listed(k.mappings, v, x) == Listed(h.mappings, v, x);
      } else if v + 2 == |k.states| {
        assert Listed(h.mappings, v, x) == [];
      }
    }
  }

  /** One pass of `addSentinelString`'s loop: a fresh state, registered character, an
      edge from `prev` to it, and from it a `fail` edge to `failState` and an `eof` edge to
      `eofState`. */
  function SentinelStep(g: Graph, prev: int, c: char, failState: int, eofState: int): (r: (Graph, int))
    requires prev in g.mappings
    ensures r.1 == |g.states| && |r.0.states| == |g.states| + 1 && r.0.mappings.Keys == g.mappings.Keys + {r.1}
  {
    var v := |g.states|;
    var (alphabets, alphaIndex) := Interned(g.alphabets, Key(c));
    var linked := AddedEdge(g.mappings[v := map[]], alphaIndex, prev, v);
    var failing := AddedEdge(linked, Fail, v, failState);
    (Graph(g.states + [SentinelVertexName(c)], AddedEdge(failing, Eof, v, eofState), alphabets), v)
  }

  /** A sentinel pass keeps every list and character, adds the edge from `prev` on `c`
      to the new state, whose `fail` and `eof` lists are exactly `failState` and
      `eofState`, and leaves the `fail` and `eof` lists of every other state alone. */
  lemma SentinelStepFacts(g: Graph, prev: int, c: char, failState: int, eofState: int)
    requires prev in g.mappings && |g.states| !in g.mappings && Above(g.alphabets)
    ensures var (h, v) := SentinelStep(g, prev, c, failState, eofState);
      EdgesGrow(g.mappings, h.mappings) && AlphabetGrows(g.alphabets, h.alphabets) && Above(h.alphabets) &&
      Key(c) in h.alphabets.index && v in Listed(h.mappings, prev, h.alphabets.index[Key(c)]) &&
      Listed(h.mappings, v, Fail) == [failState] && Listed(h.mappings, v, Eof) == [eofState] &&
      forall st | st != v :: Listed(h.mappings, st, Fail) == Listed(g.mappings, st, Fail) && Listed(h.mappings, st, Eof) == Listed(g.mappings, st, Eof)
  {
    var v := |g.states|;
    InternedFacts(g.alphabets, Key(c));
    var alphaIndex := Interned(g.alphabets, Key(c)).1;
    AddedEdgeGrows(g.mappings, v, alphaIndex, prev, v);
    var linked := AddedEdge(g.mappings[v := map[]], alphaIndex, prev, v);
    var failing := AddedEdge(linked, Fail, v, failState);
    var ending := AddedEdge(failing, Eof, v, eofState);
    AddedEdgeListed(g.mappings[v := map[]], alphaIndex, prev, v);
    AddedEdgeListed(linked, Fail, v, failState);
    AddedEdgeListed(failing, Eof, v, eofState);
    assert EdgesGrow(linked, ending) by {
      forall st, x
        ensures Listed(linked, st, x) <= Listed(ending, st, x)
      {
        assert Listed(linked, st, x) <= Listed(failing, st, x) <= Listed(ending, st, x);
      }
    }
    EdgesGrowTrans(g.mappings, linked, ending);
    assert Listed(g.mappings[v := map[]], prev, alphaIndex) == Listed(g.mappings, prev, alphaIndex);
  }

  /** `addSentinelString` after reading the first `n` characters of `sentinel`. */
  function SentinelChain(g: Graph, sentinel: string, n: nat, failState: int, eofState: int): (r: (Graph, int))
    requires StartState in g.mappings && n <= |sentinel|
    ensures |r.0.states| == |g.states| + n && r.1 in r.0.mappings
    ensures r.1 == if n == 0 then StartState else |g.states| + n - 1
  {
    if n == 0 then (g, StartState)
    else
      var (h, prev) := SentinelChain(g, sentinel, n - 1, failState, eofState);
      SentinelStep(h, prev, sentinel[n - 1], failState, eofState)
  }

  /** Every state `h` has beyond those of `g` has exactly one `fail` target, `failState`,
      and one `eof` target, `eofState`. */
  ghost predicate SentinelShaped(g: Graph, h: Graph, failState: int, eofState: int)
  {
    forall v | |g.states| <= v < |h.states| ::
      Listed(h.mappings, v, Fail) == [failState] && Listed(h.mappings, v, Eof) == [eofState]
  }

  /** `Reaches`, no reserved alphabet index, and the `fail` and `eof` lists of
      `SentinelShaped`. */
  ghost predicate SentinelReaches(g: Graph, r: (Graph, int), sentinel: string, n: nat, failState: int, eofState: int)
  {
    Reaches(g, r, sentinel, n) && Above(r.0.alphabets) && SentinelShaped(g, r.0, failState, eofState)
  }

  /** The sentinel chain spells the sentinel from `StartState` to the returned state, and
      every state it adds has exactly one `fail` target, `failState`, and one `eof`
      target, `eofState`. */
  lemma {:induction false} SentinelChainMeaning(g: Graph, sentinel: string, n: nat, failState: int, eofState: int)
    requires Started(g) && Above(g.alphabets) && n <= |sentinel|
    ensures SentinelReaches(g, SentinelChain(g, sentinel, n, failState, eofState), sentinel, n, failState, eofState)
  {
    if n > 0 {
      SentinelChainMeaning(g, sentinel, n - 1, failState, eofState);
      SentinelStepMeaning(g, SentinelChain(g, sentinel, n - 1, failState, eofState), sentinel, n, failState, eofState);
    }
  }

  /** The induction step of `SentinelChainMeaning`. */
  lemma SentinelStepMeaning(g: Graph, r: (Graph, int), sentinel: string, n: nat, failState: int, eofState: int)
    requires 0 < n <= |sentinel| && r.1 in r.0.mappings
    requires SentinelReaches(g, r, sentinel, n - 1, failState, eofState)
    ensures SentinelReaches(g, SentinelStep(r.0, r.1, sentinel[n - 1], failState, eofState), sentinel, n, failState, eofState)
  {
    SentinelStepFacts(r.0, r.1, sentinel[n - 1], failState, eofState);
    var k := SentinelStep(r.0, r.1, sentinel[n - 1], failState, eofState);
    SpellsExtend(g, r.0, k.0, sentinel, n, r.1, k.1);
    SentinelShapedExtend(g, r.0, k.0, failState, eofState);
    DenseSnoc(r.0.mappings, |r.0.states|, k.0.mappings);
  }

  lemma SentinelShapedExtend(g: Graph, h: Graph, k: Graph, failState: int, eofState: int)
    requires SentinelShaped(g, h, failState, eofState) && |k.states| == |h.states| + 1
    requires Listed(k.mappings, |h.states|, Fail) == [failState] && Listed(k.mappings, |h.states|, Eof) == [eofState]
    requires forall st | st != |h.states| :: Listed(k.mappings, st, Fail) == Listed(h.mappings, st, Fail) && Listed(k.mappings, st, Eof) == Listed(h.mappings, st, Eof)
    ensures SentinelShaped(g, k, failState, eofState)
  {
  }

  /** `addEdges(edges, state1, state2)` after the first `n` edges, once both states have
      passed their checks: each edge is registered and then linked from `state1` to
      `state2`; the first edge that is not a string, or a `state1` without a mapping,
      stops the loop with a TypeError and keeps what was done before. */
  function EdgesFold(m: Mappings, a: Automata.Alphabet, edges: seq<Value>, n: nat, state1: int, state2: int): (r: (Outcome, Mappings, Automata.Alphabet))
    requires n <= |edges|
    ensures r.1.Keys == m.Keys
  {
    if n == 0 then (Done, m, a)
    else EdgeStep(EdgesFold(m, a, edges, n - 1, state1, state2), edges[n - 1], state1, state2)
  }

  /** One pass of `addEdges`'s loop, or nothing once a pass has failed. */
  function EdgeStep(acc: (Outcome, Mappings, Automata.Alphabet), edge: Value, state1: int, state2: int): (r: (Outcome, Mappings, Automata.Alphabet))
    ensures r.1.Keys == acc.1.Keys
  {
    var (o, m, a) := acc;
    if o.Thrown? then acc
    else if !edge.Str? then (Thrown(TypeError), m, a)
    else
      var (a2, alphaIndex) := Interned(a, edge.str);
      if state1 !in m then (Thrown(TypeError), m, a2)
      else (Done, AddedEdge(m, alphaIndex, state1, state2), a2)
  }

  /** Once the first `n` edges have failed, the later ones change nothing. */
  lemma {:induction false} EdgesFoldStops(m: Mappings, a: Automata.Alphabet, edges: seq<Value>, n: nat, k: nat, state1: int, state2: int)
    requires n <= k <= |edges| && EdgesFold(m, a, edges, n, state1, state2).0.Thrown?
    ensures EdgesFold(m, a, edges, k, state1, state2) == EdgesFold(m, a, edges, n, state1, state2)
    decreases k
  {
    if n < k {
      EdgesFoldStops(m, a, edges, n, k - 1, state1, state2);
    }
  }

  /** No edge among the first `n` is anything but a string. */
  predicate AllStrings(edges: seq<Value>, n: nat)
    requires n <= |edges|
  {
    forall j | 0 <= j < n :: edges[j].Str?
  }

  lemma AllStringsSnoc(edges: seq<Value>, n: nat)
    requires 0 < n <= |edges|
    ensures AllStrings(edges, n) == (AllStrings(edges, n - 1) && edges[n - 1].Str?)
  {
  }

  /** `addEdges` succeeds exactly when every edge is a string and, unless there are no
      edges, `state1` is a state, and it fails only with TypeErrors. */
  lemma {:induction false} EdgesFoldOutcome(m: Mappings, a: Automata.Alphabet, edges: seq<Value>, n: nat, state1: int, state2: int)
    requires n <= |edges|
    ensures var o := EdgesFold(m, a, edges, n, state1, state2).0;
      (o.Done? <==> AllStrings(edges, n) && (n == 0 || state1 in m)) &&
      (o.Thrown? ==> o.exception == TypeError)
  {
    if n > 0 {
      EdgesFoldOutcome(m, a, edges, n - 1, state1, state2);
      AllStringsSnoc(edges, n);
    }
  }

  /** Each of the first `n` edges is a registered string leading from `state1` to
      `state2`. */
  ghost predicate EdgesLinked(m: Mappings, a: Automata.Alphabet, edges: seq<Value>, n: nat, state1: int, state2: int)
    requires n <= |edges|
  {
    forall j | 0 <= j < n :: edges[j].Str? && edges[j].str in a.index && state2 in Listed(m, state1, a.index[edges[j].str])
  }

  /** On success every edge's character leads from `state1` to `state2`, and nothing
      the automaton had is lost. */
  lemma {:induction false} EdgesFoldLinks(m: Mappings, a: Automata.Alphabet, edges: seq<Value>, n: nat, state1: int, state2: int)
    requires n <= |edges|
    ensures var r := EdgesFold(m, a, edges, n, state1, state2);
      (r.0.Done? ==> EdgesLinked(r.1, r.2, edges, n, state1, state2)) &&
      EdgesGrow(m, r.1) && AlphabetGrows(a, r.2)
  {
    if n > 0 {
      EdgesFoldLinks(m, a, edges, n - 1, state1, state2);
      EdgeStepLinks(m, a, EdgesFold(m, a, edges, n - 1, state1, state2), edges, n, state1, state2);
    }
  }

  /** The induction step of `EdgesFoldLinks`. */
  lemma EdgeStepLinks(m: Mappings, a: Automata.Alphabet, acc: (Outcome, Mappings, Automata.Alphabet), edges: seq<Value>, n: nat, state1: int, state2: int)
    requires 0 < n <= |edges|
    requires acc.0.Done? ==> EdgesLinked(acc.1, acc.2, edges, n - 1, state1, state2)
    requires EdgesGrow(m, acc.1) && AlphabetGrows(a, acc.2)
    ensures var r := EdgeStep(acc, edges[n - 1], state1, state2);
      (r.0.Done? ==> EdgesLinked(r.1, r.2, edges, n, state1, state2)) &&
      EdgesGrow(m, r.1) && AlphabetGrows(a, r.2)
  {
    var (o, m1, a1) := acc;
    var edge := edges[n - 1];
    InternedFacts(a1, if edge.Str? then edge.str else "");
    if o.Done? && edge.Str? && state1 in m1 {
      var (a2, alphaIndex) := Interned(a1, edge.str);
      var m2 := AddedEdge(m1, alphaIndex, state1, state2);
      AddedEdgeListed(m1, alphaIndex, state1, state2);
      assert EdgesGrow(m1, m2);
      EdgesGrowTrans(m, m1, m2);
      LinkedExtend(m1, a1, m2, a2, edges, n, state1, state2);
    }
  }

  lemma LinkedExtend(m1: Mappings, a1: Automata.Alphabet, m2: Mappings, a2: Automata.Alphabet, edges: seq<Value>, n: nat, state1: int, state2: int)
    requires 0 < n <= |edges| && EdgesLinked(m1, a1, edges, n - 1, state1, state2)
    requires EdgesGrow(m1, m2) && AlphabetGrows(a1, a2)
    requires edges[n - 1].Str? && edges[n - 1].str in a2.index && state2 in Listed(m2, state1, a2.index[edges[n - 1].str])
    ensures EdgesLinked(m2, a2, edges, n, state1, state2)
  {
    forall j | 0 <= j < n - 1
      ensures state2 in Listed(m2, state1, a2.index[edges[j].str])
    {
      assert Listed(m1, state1, a1.index[edges[j].str]) <= Listed(m2, state1, a2.index[edges[j].str]);
    }
  }

  /** One pass of `buildString`'s loop on the automaton itself. */
  method StringLink(nfa: NFA, str: string, prev: int, c: char) returns (v: int)
    requires nfa.Valid() && 0 <= prev < |nfa.states|
    modifies nfa
    ensures nfa.Valid() && nfa.accepting == old(nfa.accepting)
    ensures GraphOf(nfa) == StringStep(old(GraphOf(nfa)), str, prev, c).0 && v == |old(nfa.states)|
  {
    InternedIsIntern(nfa.alphabets, Key(c));
    var alphaIndex := nfa.AddAlpha(Str(Key(c)));
    v := nfa.AddVertex(StringVertexName(str, c, |nfa.states|));
    var linked := nfa.AddEdge(alphaIndex.value, prev, v);
  }

  /** One pass of `addSentinelString`'s loop on the automaton itself. */
  method SentinelLink(nfa: NFA, prev: int, c: char, failState: int, eofState: int) returns (v: int)
    requires nfa.Valid() && 0 <= prev < |nfa.states|
    modifies nfa
    ensures nfa.Valid() && nfa.accepting == old(nfa.accepting)
    ensures GraphOf(nfa) == SentinelStep(old(GraphOf(nfa)), prev, c, failState, eofState).0 && v == |old(nfa.states)|
  {
    InternedIsIntern(nfa.alphabets, Key(c));
    v := nfa.AddVertex(SentinelVertexName(c));
    var alphaIndex := nfa.AddAlpha(Str(Key(c)));
    var linked := nfa.AddEdge(alphaIndex.value, prev, v);
    var failing := nfa.AddEdge(Fail, v, failState);
    var ending := nfa.AddEdge(Eof, v, eofState);
  }

  /** One pass of `addEdges`'s loop on the automaton itself. */
  method EdgeLink(nfa: NFA, edge: Value, state1: int, state2: int) returns (o: Outcome)
    requires nfa.Valid()
    modifies nfa
    ensures nfa.Valid() && nfa.states == old(nfa.states) && nfa.accepting == old(nfa.accepting)
    ensures (o, nfa.mappings, nfa.alphabets) == EdgeStep((Done, old(nfa.mappings), old(nfa.alphabets)), edge, state1, state2)
  {
    if edge.Str? {
      InternedIsIntern(nfa.alphabets, edge.str);
    }
    var alphaIndex := nfa.AddAlpha(edge);
    if alphaIndex.Throw? {
      return Thrown(TypeError);
    }
    o := nfa.AddEdge(alphaIndex.value, state1, state2);
  }

  /** Pass `i` of `buildString`'s loop, stated against the whole chain. */
  method StringLinkAt(nfa: NFA, ghost g: Graph, s: string, i: nat, last: int) returns (v: int)
    requires nfa.Valid() && StartState in g.mappings && i < |s|
    requires GraphOf(nfa) == StringChain(g, s, i).0 && last == StringChain(g, s, i).1
    modifies nfa
    ensures nfa.Valid() && nfa.accepting == old(nfa.accepting)
    ensures GraphOf(nfa) == StringChain(g, s, i + 1).0 && v == StringChain(g, s, i + 1).1
  {
    v := StringLink(nfa, s, last, s[i]);
  }

  /** Pass `i` of `addSentinelString`'s loop, stated against the whole chain. */
  method SentinelLinkAt(nfa: NFA, ghost g: Graph, sentinel: string, i: nat, last: int, failState: int, eofState: int) returns (v: int)
    requires nfa.Valid() && StartState in g.mappings && i < |sentinel|
    requires GraphOf(nfa) == SentinelChain(g, sentinel, i, failState, eofState).0 && last == SentinelChain(g, sentinel, i, failState, eofState).1
    modifies nfa
    ensures nfa.Valid() && nfa.accepting == old(nfa.accepting)
    ensures GraphOf(nfa) == SentinelChain(g, sentinel, i + 1, failState, eofState).0 && v == SentinelChain(g, sentinel, i + 1, failState, eofState).1
  {
    v := SentinelLink(nfa, last, sentinel[i], failState, eofState);
  }

  /** Pass `i` of `addEdges`'s loop, stated against the whole fold. */
  method EdgeLinkAt(nfa: NFA, ghost m: Mappings, ghost a: Automata.Alphabet, edges: seq<Value>, i: nat, state1: int, state2: int) returns (o: Outcome)
    requires nfa.Valid() && i < |edges|
    requires (Done, nfa.mappings, nfa.alphabets) == EdgesFold(m, a, edges, i, state1, state2)
    modifies nfa
    ensures nfa.Valid() && nfa.states == old(nfa.states) && nfa.accepting == old(nfa.accepting)
    ensures (o, nfa.mappings, nfa.alphabets) == EdgesFold(m, a, edges, i + 1, state1, state2)
  {
    o := EdgeLink(nfa, edges[i], state1, state2);
  }

  /** The loop of `addEdges`: one `EdgeLink` per edge, leaving at the first failure. */
  method LinkEdges(nfa: NFA, edges: seq<Value>, state1: int, state2: int) returns (r: Outcome)
    requires nfa.Valid()
    modifies nfa
    ensures nfa.Valid() && nfa.states == old(nfa.states) && nfa.accepting == old(nfa.accepting)
    ensures r == EdgesFold(old(nfa.mappings), old(nfa.alphabets), edges, |edges|, state1, state2).0
    ensures nfa.mappings == EdgesFold(old(nfa.mappings), old(nfa.alphabets), edges, |edges|, state1, state2).1
    ensures nfa.alphabets == EdgesFold(old(nfa.mappings), old(nfa.alphabets), edges, |edges|, state1, state2).2
  {
    ghost var m := nfa.mappings;
    ghost var a := nfa.alphabets;
    var i := 0;
    r := Done;
    while i < |edges|
      invariant 0 <= i <= |edges|
      invariant nfa.Valid() && nfa.states == old(nfa.states) && nfa.accepting == old(nfa.accepting)
      invariant r == Done
      invariant (Done, nfa.mappings, nfa.alphabets) == EdgesFold(m, a, edges, i, state1, state2)
    {
      r := EdgeLinkAt(nfa, m, a, edges, i, state1, state2);
      if r.Thrown? {
        EdgesFoldStops(m, a, edges, i + 1, |edges|, state1, state2);
        return;
      }
      i := i + 1;
    }
  }

  class NFABuilder {
    const nfa: NFA
    /** `tokens`: the token name recorded for a state. */
    var tokens: map<int, Value>

    constructor (nfa: NFA)
      ensures this.nfa == nfa && tokens == map[]
    {
      this.nfa := nfa;
      tokens := map[];
    }

    /** `addString(str, tokenName)`: `buildString`, then the returned state's token name.
        The source returns nothing; `r` is the state `buildString` returned, or its throw. */
    method AddString(str: Value, tokenName: Value) returns (r: Result<int>)
      requires nfa.Valid()
      modifies this, nfa
      ensures nfa.Valid()
      ensures r == old(Built(nfa, str))
      ensures r.Throw? ==> r.exception == TypeError
      ensures r.Throw? ==> GraphOf(nfa) == old(GraphOf(nfa)) && nfa.accepting == old(nfa.accepting)
      ensures r.Ok? ==> GraphOf(nfa) == StringChain(old(GraphOf(nfa)), str.str, |str.str|).0
      ensures r.Ok? ==> nfa.accepting == old(nfa.accepting) + {r.value}
      ensures r.Ok? ==> tokens == old(tokens)[r.value := tokenName]
      ensures r.Throw? ==> tokens == old(tokens)
    {
      r := BuildString(nfa, str);
      if r.Ok? {
        tokens := tokens[r.value := tokenName];
      }
    }

    /** `addSentinelString(sentinel, failState, eofState)`: a chain of fresh states from
        `StartState` spelling the sentinel, each with `fail` and `eof` edges; returns the
        last state, or `StartState` for an empty sentinel. */
    method AddSentinelString(sentinel: string, failState: int, eofState: int) returns (last: int)
      requires nfa.Valid()
      modifies nfa
      ensures nfa.Valid() && nfa.accepting == old(nfa.accepting)
      ensures GraphOf(nfa) == SentinelChain(old(GraphOf(nfa)), sentinel, |sentinel|, failState, eofState).0
      ensures last == SentinelChain(old(GraphOf(nfa)), sentinel, |sentinel|, failState, eofState).1
    {
      last := StartState;
      var i := 0;
      while i < |sentinel|
        invariant 0 <= i <= |sentinel|
        invariant nfa.Valid() && nfa.accepting == old(nfa.accepting)
        invariant GraphOf(nfa) == SentinelChain(old(GraphOf(nfa)), sentinel, i, failState, eofState).0
        invariant last == SentinelChain(old(GraphOf(nfa)), sentinel, i, failState, eofState).1
      {
        last := SentinelLinkAt(nfa, old(GraphOf(nfa)), sentinel, i, last, failState, eofState);
        i := i + 1;
      }
    }

    /** `addEdges(edges, state1, state2)`: both states must be numbers; then each edge is
        registered and linked as `EdgesFold` describes. */
    method AddEdges(edges: seq<Value>, state1: Value, state2: Value) returns (r: Outcome)
      requires nfa.Valid()
      modifies nfa
      ensures nfa.Valid() && nfa.states == old(nfa.states) && nfa.accepting == old(nfa.accepting)
      ensures !state1.Number? || !state2.Number? ==> r == Thrown(TypeError) && GraphOf(nfa) == old(GraphOf(nfa))
      ensures state1.Number? && state2.Number? ==>
        (r, nfa.mappings, nfa.alphabets) == EdgesFold(old(nfa.mappings), old(nfa.alphabets), edges, |edges|, state1.num, state2.num)
    {
      if !state1.Number? || !state2.Number? {
        return Thrown(TypeError);
      }
      r := LinkEdges(nfa, edges, state1.num, state2.num);
    }

    /** `addVertex(name, callback)`: a fresh state, handed to `callback` when one is given
        and returned otherwise. */
    method AddVertex(name: string, callback: Option<int -> Value>) returns (r: Value)
      requires nfa.Valid()
      modifies nfa
      ensures nfa.Valid()
      ensures nfa.states == old(nfa.states) + [name] && nfa.mappings == old(nfa.mappings)[|old(nfa.states)| := map[]]
      ensures nfa.alphabets == old(nfa.alphabets) && nfa.accepting == old(nfa.accepting)
      ensures r == if callback.Some? then callback.value(|old(nfa.states)|) else Number(|old(nfa.states)|)
    {
      var vertex := nfa.AddVertex(name);
      if callback.None? {
        return Number(vertex);
      }
      r := callback.value(vertex);
    }

    /** `accept(stateIndex, tokenName)`: marks the state accepting and sets or replaces
        its token name. */
    method Accept(stateIndex: int, tokenName: Value)
      modifies this, nfa
      ensures nfa.accepting == old(nfa.accepting) + {stateIndex} && tokens == old(tokens)[stateIndex := tokenName]
      ensures GraphOf(nfa) == old(GraphOf(nfa))
    {
      nfa.accepting := nfa.accepting + {stateIndex};
      tokens := tokens[stateIndex := tokenName];
    }
  }

  /** `new NFABuilder(nfa)`: anything but an `NFA` (here `null`) is refused with a TypeError. */
  method CreateBuilder(nfa: NFA?) returns (r: Result<NFABuilder>)
    ensures r.Throw? <==> nfa == null
    ensures r.Throw? ==> r.exception == TypeError
    ensures r.Ok? ==> fresh(r.value) && r.value.nfa == nfa && r.value.tokens == map[]
  {
    if nfa == null {
      return Throw(TypeError);
    }
    var builder := new NFABuilder(nfa);
    r := Ok(builder);
  }

  /** What `buildString(nfa, str)` returns: a TypeError for anything but an `NFA` (here
      `null`) or a non-string, and otherwise the state its chain ends in. */
  function Built(nfa: NFA?, str: Value): (r: Result<int>)
    reads nfa
    requires nfa != null ==> nfa.Valid()
  {
    if nfa == null || !str.Str? then Throw(TypeError)
    else Ok(StringChain(GraphOf(nfa), str.str, |str.str|).1)
  }

  /** `buildString(nfa, str)`: one fresh state and one edge per code point, chained from
      `StartState`; the state reached is marked accepting and returned, which for the
      empty string is `StartState` itself. */
  method BuildString(nfa: NFA?, str: Value) returns (r: Result<int>)
    requires nfa != null ==> nfa.Valid()
    modifies nfa
    ensures r == old(Built(nfa, str))
    ensures r.Throw? ==> r.exception == TypeError
    ensures nfa != null ==> nfa.Valid()
    ensures nfa != null && r.Throw? ==> GraphOf(nfa) == old(GraphOf(nfa)) && nfa.accepting == old(nfa.accepting)
    ensures r.Ok? ==> GraphOf(nfa) == StringChain(old(GraphOf(nfa)), str.str, |str.str|).0
    ensures r.Ok? ==> nfa.accepting == old(nfa.accepting) + {r.value}
  {
    if nfa == null || !str.Str? {
      return Throw(TypeError);
    }
    var last := BuildChain(nfa, str.str);
    nfa.accepting := nfa.accepting + {last};
    r := Ok(last);
  }

  /** The loop of `buildString`: one `StringLink` per code point, threading the state
      reached. */
  method BuildChain(nfa: NFA, s: string) returns (last: int)
    requires nfa.Valid()
    modifies nfa
    ensures nfa.Valid() && nfa.accepting == old(nfa.accepting)
    ensures GraphOf(nfa) == StringChain(old(GraphOf(nfa)), s, |s|).0 && last == StringChain(old(GraphOf(nfa)), s, |s|).1
  {
    last := StartState;
    var i := 0;
    while i < |s|
      invariant 0 <= i <= |s|
      invariant nfa.Valid() && nfa.accepting == old(nfa.accepting)
      invariant GraphOf(nfa) == StringChain(old(GraphOf(nfa)), s, i).0 && last == StringChain(old(GraphOf(nfa)), s, i).1
    {
      last := StringLinkAt(nfa, old(GraphOf(nfa)), s, i, last);
      i := i + 1;
    }
  }
}
