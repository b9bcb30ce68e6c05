/** algs/subset-construction.js: the subset construction from a symbol-keyed NFA with
    epsilon and sigma edges to a table of subsets, and from that table to a DFA. */
module SubsetConstruction {
  import opened Js
  import opened Automata
  import opened SymbolNfa
  import opened Closures
  import SymbolDfa
  import Ordered
  import SetFacts
  import Sets
  import Tables
  import WorkLists

  /** A state `delta` does not throw for. */
  predicate Mapped(m: Edges, s: int)
  {
    s == ErrorState || s in m
  }

  /** `epsilonClosure(nfa, states)`: a work list seeded with `states`; each state taken off
      it is marked seen and its epsilon targets not yet seen are marked and queued. The
      result is the closure of the reference definition; `delta` throws for the first
      state taken off that has no mapping, so it throws exactly when the closure holds
      such a state. The work list never holds more than the seeds plus the closure. */
  method EpsilonClosure(nfa: NondeterministicFiniteAutomata, states: seq<int>) returns (r: Result<set<int>>)
    ensures r.Ok? ==> r.value == Closure(nfa.mappings, set s | s in states)
    ensures r.Throw? <==> exists s | s in Closure(nfa.mappings, set s | s in states) :: !Mapped(nfa.mappings, s)
    ensures r.Throw? ==> r.exception == TypeError
  {
    ghost var m := nfa.mappings;
    ghost var input := set s | s in states;
    ghost var c := Closure(m, input);
    ClosureExtends(m, input);
    var seen: set<int> := {};
    var worklist := states;
    var worklistIndex := 0;
    while |worklist| > worklistIndex
      invariant Scanning(m, states, c, worklist, worklistIndex, seen)
      decreases |states| + |c| - worklistIndex
    {
      SetFacts.SubsetCard(seen, c);
      var next := Expand(nfa, input, states, seen, worklist, worklistIndex);
      if next.Throw? {
        return Throw(next.exception);
      }
      seen, worklist := next.value.0, next.value.1;
      worklistIndex := worklistIndex + 1;
    }
    Drained(m, states, worklist, seen);
    r := Ok(seen);
  }

  /** The loop invariant of `epsilonClosure`: the seeds head the work list, everything
      queued or seen lies in the closure `c`, the list grows only with `seen`, and the
      states before `n` are processed. */
  ghost predicate Scanning(m: Edges, states: seq<int>, c: set<int>, worklist: seq<int>, n: int, seen: set<int>)
  {
    0 <= n <= |worklist| && |states| <= |worklist| && worklist[..|states|] == states &&
    (forall s | s in seen :: s in worklist) &&
    (forall k :: 0 <= k < |worklist| ==> worklist[k] in c) &&
    seen <= c && |worklist| <= |states| + |seen| &&
    Processed(m, worklist, n, seen)
  }

  /** One pass of the loop of `epsilonClosure`: the state at `n` is taken off the list,
      marked seen, and its unseen epsilon targets are queued; `delta` throws when it has
      no mapping. */
  method Expand(nfa: NondeterministicFiniteAutomata, ghost input: set<int>, ghost states: seq<int>,
                seen: set<int>, worklist: seq<int>, n: int)
    returns (r: Result<(set<int>, seq<int>)>)
    requires Scanning(nfa.mappings, states, Closure(nfa.mappings, input), worklist, n, seen)
    requires n < |worklist|
    ensures r.Throw? ==>
      r.exception == TypeError && worklist[n] in Closure(nfa.mappings, input) && !Mapped(nfa.mappings, worklist[n])
    ensures r.Ok? ==> Scanning(nfa.mappings, states, Closure(nfa.mappings, input), r.value.1, n + 1, r.value.0)
  {
    ghost var m := nfa.mappings;
    ghost var c := Closure(m, input);
    var state1 := At(worklist, n).value;
    var next := nfa.Lookup(state1, Epsilon);
    if next.Throw? {
      return Throw(next.exception);
    }
    if state1 !in seen {
      assert |seen + {state1}| == |seen| + 1;
    } else {
      assert seen + {state1} == seen;
    }
    var seen', worklist' := seen + {state1}, worklist;
    if next.value.Some? {
      ClosureStep(m, input, state1);
      seen', worklist' := Visit(seen', worklist', next.value.value, c);
    }
    ProcessedStep(m, worklist, worklist', n, seen, seen');
    assert worklist'[..|states|] == worklist'[..|worklist|][..|states|];
    r := Ok((seen', worklist'));
  }

  /** Once every queued state is processed, `seen` holds the seeds and is closed, so it
      is the closure, and every state of the closure has a mapping. */
  lemma Drained(m: Edges, states: seq<int>, worklist: seq<int>, seen: set<int>)
    requires |states| <= |worklist| && worklist[..|states|] == states
    requires forall s | s in seen :: s in worklist
    requires seen <= Closure(m, set s | s in states)
    requires forall k :: 0 <= k < |worklist| ==> worklist[k] in Closure(m, set s | s in states)
    requires Processed(m, worklist, |worklist|, seen)
    ensures seen == Closure(m, set s | s in states)
    ensures forall s | s in seen :: Mapped(m, s)
  {
    var input := set s | s in states;
    forall s | s in input
      ensures s in seen
    {
      var k :| 0 <= k < |states| && states[k] == s;
      assert worklist[k] == s;
    }
    forall s, t | s in seen && t in Targets(m, s, Epsilon)
      ensures t in seen
    {
      var k :| 0 <= k < |worklist| && worklist[k] == s;
    }
    ClosureUnique(m, input, seen);
  }

  /** The epsilon targets of a state of the closure are in the closure. */
  lemma ClosureStep(m: Edges, input: set<int>, s: int)
    requires s in Closure(m, input)
    ensures forall t | t in Targets(m, s, Epsilon) :: t in Closure(m, input)
  {
    ClosureIsClosed(m, input);
  }

  /** The first `n` states taken off the work list are seen, have a mapping, and have
      all their epsilon targets seen. */
  ghost predicate Processed(m: Edges, worklist: seq<int>, n: nat, seen: set<int>)
    requires n <= |worklist|
  {
    forall k :: 0 <= k < n ==>
      worklist[k] in seen && Mapped(m, worklist[k]) &&
      forall t | t in Targets(m, worklist[k], Epsilon) :: t in seen
  }

  /** Taking one more state off the list, marking it and its targets, extends the
      processed prefix by one; the list itself only grows at its end. */
  lemma ProcessedStep(m: Edges, worklist: seq<int>, worklist': seq<int>, n: nat, seen: set<int>, seen': set<int>)
    requires n < |worklist| <= |worklist'| && worklist'[..|worklist|] == worklist
    requires Processed(m, worklist, n, seen) && seen <= seen'
    requires worklist[n] in seen' && Mapped(m, worklist[n])
    requires forall t | t in Targets(m, worklist[n], Epsilon) :: t in seen'
    ensures Processed(m, worklist', n + 1, seen')
  {
    forall k | 0 <= k < n + 1
      ensures worklist'[k] == worklist[k]
    {
      assert worklist'[..|worklist|][k] == worklist[k];
    }
  }

  /** The inner loop of `epsilonClosure`: each target not yet seen is marked seen and
      queued, so the queue grows by exactly as many states as `seen` does. `c` is a set
      the work list and every target lie in. */
  method Visit(seen: set<int>, worklist: seq<int>, targets: seq<int>, ghost c: set<int>)
    returns (seen': set<int>, worklist': seq<int>)
    requires forall s | s in seen :: s in worklist
    requires seen <= c && (forall k :: 0 <= k < |worklist| ==> worklist[k] in c)
    requires forall t | t in targets :: t in c
    ensures forall i :: 0 <= i < |targets| ==> targets[i] in seen'
    ensures seen <= seen' && |worklist| <= |worklist'| && worklist'[..|worklist|] == worklist
    ensures |worklist'| - |worklist| == |seen'| - |seen|
    ensures forall s | s in seen' :: s in worklist'
    ensures seen' <= c && (forall k :: 0 <= k < |worklist'| ==> worklist'[k] in c)
  {
    seen', worklist' := seen, worklist;
    var j := 0;
    while j < |targets|
      invariant 0 <= j <= |targets|
      invariant seen <= seen' && |worklist| <= |worklist'| && worklist'[..|worklist|] == worklist
      invariant forall i :: 0 <= i < j ==> targets[i] in seen'
      invariant |worklist'| - |worklist| == |seen'| - |seen|
      invariant forall s | s in seen' :: s in worklist'
      invariant seen' <= c && (forall k :: 0 <= k < |worklist'| ==> worklist'[k] in c)
    {
      var state2 := targets[j];
      if state2 !in seen' {
        seen' := seen' + {state2};
        worklist' := worklist' + [state2];
      }
      j := j + 1;
    }
  }

  /** `deltas(nfa, states, index)`: the union over `states` of the targets for `index`
      and, unless `index` is `epsilon`, the `sigma` targets; a `null` lookup contributes
      nothing and a state with no mapping makes `delta` throw. */
  method Deltas(nfa: NondeterministicFiniteAutomata, states: set<int>, index: int) returns (r: Result<set<int>>)
    ensures r.Ok? ==> r.value == Image(nfa.mappings, states, index)
    ensures r.Throw? <==> exists s | s in states :: !Mapped(nfa.mappings, s)
    ensures r.Throw? ==> r.exception == TypeError
  {
    ghost var m := nfa.mappings;
    var seen: set<int> := {};
    var order := Ordered.ArrayFrom(states);
    var i := 0;
    while i < |order|
      invariant 0 <= i <= |order|
      invariant forall k :: 0 <= k < i ==> Mapped(m, order[k])
      invariant seen == Image(m, set k | 0 <= k < i :: order[k], index)
    {
      var state1 := order[i];
      var found := nfa.Lookup(state1, index);
      if found.Throw? {
        assert state1 in states;
        return Throw(found.exception);
      }
      var next := if found.value.Some? then found.value.value else [];
      if index != Epsilon {
        var sigmaMapping := nfa.Lookup(state1, Sigma);
        next := next + if sigmaMapping.value.Some? then sigmaMapping.value.value else [];
      }
      assert next == Moves(m, state1, index);
      ghost var done := set k | 0 <= k < i :: order[k];
      seen := AddAll(seen, next);
      ImageAdd(m, done, state1, index);
      assert (set k | 0 <= k < i + 1 :: order[k]) == done + {state1};
      i := i + 1;
    }
    assert (set k | 0 <= k < i :: order[k]) == states;
    r := Ok(seen);
  }

  /** `for (const state2 of next) seen.add(state2)`. */
  method AddAll(seen: set<int>, next: seq<int>) returns (seen': set<int>)
    ensures seen' == seen + set t | t in next
  {
    seen' := seen;
    var j := 0;
    while j < |next|
      invariant 0 <= j <= |next|
      invariant seen' == seen + set t | t in next[..j]
    {
      assert next[..j + 1] == next[..j] + [next[j]];
      seen' := seen' + {next[j]};
      j := j + 1;
    }
    assert next[..j] == next;
  }

  /** One more state adds its moves to the image. */
  lemma ImageAdd(m: Edges, S: set<int>, s: int, index: int)
    ensures Image(m, S + {s}, index) == Image(m, S, index) + set t | t in Moves(m, s, index)
  {
    forall t | t in Image(m, S + {s}, index)
      ensures t in Image(m, S, index) || t in Moves(m, s, index)
    {
      var u :| u in S + {s} && t in Moves(m, u, index);
      if u != s {
        assert u in S;
      }
    }
    forall t | t in Moves(m, s, index)
      ensures t in Image(m, S + {s}, index)
    {
      assert s in S + {s};
    }
  }

  /** `Entry`: the DFA state `name` stands for the set `states` of NFA states. The fresh
      `Symbol("s{i}")` of the entry at position `i` is modelled by the handle `i`. */
  datatype Entry = Entry(name: int, states: set<int>)

  /** What `nfa2dfa` may be handed: an NFA, or any other value. */
  datatype Argument = Automaton(nfa: NondeterministicFiniteAutomata) | NotAutomaton(value: Value)

  /** Every state an entry can hold: the start state and the edge targets. */
  function Universe(m: Edges, start: int): set<int>
  {
    AllTargets(m) + {start}
  }

  /** The set of NFA states one index leads to from `from`: the epsilon-closure of the
      image. */
  function Successor(m: Edges, from: set<int>, index: int): set<int>
  {
    Closure(m, Image(m, from, index))
  }

  /** The successor is made of edge targets. */
  lemma SuccessorWithin(m: Edges, from: set<int>, index: int)
    ensures Successor(m, from, index) <= AllTargets(m)
  {
    ClosureWithin(m, Image(m, from, index));
    ImageInAll(m, from, index);
  }

  /** A table cell records the successor: -1 when it is empty, otherwise the position of
      the entry that holds it. */
  ghost predicate CellMeans(m: Edges, entries: seq<Entry>, from: set<int>, index: int, cell: int)
  {
    (cell == -1 <==> Successor(m, from, index) == {}) &&
    (cell != -1 ==> 0 <= cell < |entries| && entries[cell].states == Successor(m, from, index))
  }

  /** Cell `p` of the flat buffer belongs to row `p / cols` and column `p % cols`, and
      records the successor of that row's entry on that column's index. */
  ghost predicate Recorded(m: Edges, entries: seq<Entry>, alphabets: seq<(string, int)>, buffer: seq<int>)
  {
    forall p :: 0 <= p < |buffer| ==>
      0 < |alphabets| && p / |alphabets| < |entries| &&
      CellMeans(m, entries, entries[p / |alphabets|].states, alphabets[p % |alphabets|].1, buffer[p])
  }

  /** No two entries hold the same set. */
  ghost predicate DistinctStates(entries: seq<Entry>)
  {
    forall i, j :: 0 <= i < j < |entries| ==> entries[i].states != entries[j].states
  }

  /** Every entry holds a nonempty set of states of `u`. */
  ghost predicate Within(entries: seq<Entry>, u: set<int>)
  {
    forall k :: 0 <= k < |entries| ==> entries[k].states <= u && entries[k].states != {}
  }

  /** The work list has queued every entry position once, in order, and entry `k` is
      named by handle `k`. */
  ghost predicate Queued(entries: seq<Entry>, buffer: seq<int>)
  {
    |buffer| == |entries| && (forall k :: 0 <= k < |buffer| ==> buffer[k] == k) && Named(entries)
  }

  /** Entry `k` is named by handle `k`. */
  ghost predicate Named(entries: seq<Entry>)
  {
    forall k :: 0 <= k < |entries| ==> entries[k].name == k
  }

  /** The alphabet indices of the columns are pairwise different. */
  predicate DistinctIndices(alphabets: seq<(string, int)>)
  {
    forall i, j :: 0 <= i < j < |alphabets| ==> alphabets[i].1 != alphabets[j].1
  }

  /** Distinct sets of states cannot outnumber the subsets of the universe: the
      construction runs out of new entries. */
  lemma EntriesBound(entries: seq<Entry>, u: set<int>)
    requires DistinctStates(entries) && Within(entries, u)
    ensures |entries| <= |SetFacts.Subsets(u)|
  {
    var f := (k: int) => if 0 <= k < |entries| then entries[k].states else {};
    SetFacts.InjectionCard(f, |entries|, SetFacts.Subsets(u));
  }

  /** One more cell, recorded at the next position of row `row`, keeps the table
      recorded, also when an entry was added on the way. */
  lemma RecordedPush(m: Edges, entries: seq<Entry>, entries': seq<Entry>, alphabets: seq<(string, int)>,
                     buffer: seq<int>, buffer': seq<int>, row: nat, col: nat)
    requires Recorded(m, entries, alphabets, buffer)
    requires |entries| <= |entries'| && entries'[..|entries|] == entries
    requires col < |alphabets| && row < |entries| && |buffer| == row * |alphabets| + col
    requires |buffer'| == |buffer| + 1 && buffer'[..|buffer|] == buffer
    requires CellMeans(m, entries', entries[row].states, alphabets[col].1, buffer'[|buffer|])
    ensures Recorded(m, entries', alphabets, buffer')
  {
    var cols := |alphabets|;
    forall p | 0 <= p < |buffer'|
      ensures 0 < cols && p / cols < |entries'|
      ensures CellMeans(m, entries', entries'[p / cols].states, alphabets[p % cols].1, buffer'[p])
    {
      if p < |buffer| {
        assert buffer'[p] == buffer[p];
        assert entries'[p / cols] == entries[p / cols];
        var cell := buffer[p];
        if cell != -1 {
          assert entries'[cell] == entries[cell];
        }
      } else {
        Tables.FlatIndex(row, cols, col);
        assert entries'[row] == entries[row];
      }
    }
  }

  /** The table being built: `entries`, the flat `table` of recorded cells with one column
      per registered character, and the work list of entry positions still to process. */
  class Subset {
    const nfa: NondeterministicFiniteAutomata
    const table: Tables.FixedColumnTable<int>
    var entries: seq<Entry>
    const worklist: WorkLists.WorkList<int>
    const alphabets: seq<(string, int)>

    /** Between two entries: every processed row is complete and recorded, the entries
        hold distinct sets of states, and the first entry is the start's closure. */
    ghost predicate Valid()
      reads this, nfa, table, worklist
    {
      nfa.Valid() && alphabets == nfa.alphabets.Entries() &&
      worklist.Valid() && Queued(entries, worklist.buffer) &&
      table.cols == |alphabets| && table.rows == worklist.index &&
      |table.buffer| == table.rows * table.cols &&
      Recorded(nfa.mappings, entries, alphabets, table.buffer) &&
      DistinctStates(entries) && Within(entries, Universe(nfa.mappings, nfa.start)) &&
      0 < |entries| && entries[0].states == Closure(nfa.mappings, {nfa.start})
    }

    /** Every entry has been processed: the table has a complete row per entry. */
    ghost predicate Complete()
      reads this, nfa, table, worklist
    {
      Valid() && worklist.index == |entries|
    }

    /** `new Subset(nfa)`: no entries, an empty table with a column per registered
        character, and an empty work list. */
    constructor (nfa: NondeterministicFiniteAutomata)
      requires nfa.Valid()
      ensures this.nfa == nfa && alphabets == nfa.alphabets.Entries() && entries == []
      ensures fresh(table) && table.cols == |alphabets| && table.rows == 0 && table.buffer == []
      ensures fresh(worklist) && worklist.Valid() && worklist.buffer == [] && worklist.index == 0
    {
      this.nfa := nfa;
      table := new Tables.FixedColumnTable(nfa.alphabets.Size());
      entries := [];
      alphabets := nfa.alphabets.Entries();
      worklist := new WorkLists.WorkList([]);
    }

    /** `pushEntry(states)`: a new entry at the end, named by its position, whose
        position is queued and returned. */
    method PushEntry(states: set<int>) returns (entryIndex: int)
      requires worklist.Valid() && Queued(entries, worklist.buffer)
      modifies this, worklist
      ensures entryIndex == |old(entries)| && entries == old(entries) + [Entry(entryIndex, states)]
      ensures worklist.Valid() && worklist.buffer == old(worklist.buffer) + [entryIndex]
      ensures worklist.index == old(worklist.index)
      ensures Queued(entries, worklist.buffer)
    {
      entryIndex := |entries|;
      entries := entries + [Entry(entryIndex, states)];
      worklist.Add(entryIndex);
    }

    /** The part of `toDfa` before the edges: a DFA started at the first entry's name,
        the alphabet copied pair by pair, every entry's name a state without edges, and
        the entries holding an accepting NFA state accepting. */
    method StartDfa() returns (dfa: SymbolDfa.DeterministicFiniteAutomata)
      requires nfa.Valid() && alphabets == nfa.alphabets.Entries()
      requires 0 < |entries| && Named(entries)
      ensures fresh(dfa) && dfa.Valid()
      ensures dfa.start == 0 && dfa.alphabets == nfa.alphabets
      ensures forall k :: k in dfa.mappings <==> 0 <= k < |entries|
      ensures forall k | k in dfa.mappings :: dfa.mappings[k] == map[]
      ensures dfa.accepting == AcceptingEntries(entries, nfa.accepting)
    {
      var start := entries[0].name;
      dfa := new SymbolDfa.DeterministicFiniteAutomata(Symbol(start));
      SymbolDfa.CopyAlphabet(dfa, nfa.alphabets, alphabets);
      AddVertices(dfa, entries, nfa.accepting);
    }

    /** `toDfa()`, as intended: a state per entry, and for every cell other than -1 an
        edge on the column's index from the row's entry to the entry the cell names. */
    method ToDfa() returns (dfa: SymbolDfa.DeterministicFiniteAutomata)
      requires Complete()
      ensures fresh(dfa) && dfa.Valid()
      ensures dfa.start == 0 && dfa.alphabets == nfa.alphabets
      ensures dfa.mappings == DfaEdges(table.buffer, alphabets, |entries|)
      ensures dfa.accepting == AcceptingEntries(entries, nfa.accepting)
    {
      RecordedCells(nfa.mappings, entries, alphabets, table.buffer);
      dfa := StartDfa();
      AddEdges(dfa, table, alphabets, entries);
    }

    /** `toDfa()` as written: the cell is read through `.deref`, which a number does not
        have, so the test against -1 always passes and `entries.at(undefined)` is the first
        entry. Every cell, -1 included, becomes an edge to the start state. */
    method ToDfaAsWritten() returns (dfa: SymbolDfa.DeterministicFiniteAutomata)
      requires Complete()
      ensures fresh(dfa) && dfa.Valid()
      ensures dfa.start == 0 && dfa.alphabets == nfa.alphabets
      ensures dfa.mappings == AsWrittenEdges(entries, alphabets)
      ensures dfa.accepting == AcceptingEntries(entries, nfa.accepting)
    {
      dfa := StartDfa();
      AddEdgesAsWritten(dfa, table, alphabets, entries);
    }
  }

  /** The last part of `toDfa`: the edges of every row of the table. */
  method AddEdges(dfa: SymbolDfa.DeterministicFiniteAutomata, table: Tables.FixedColumnTable<int>,
                  alphabets: seq<(string, int)>, entries: seq<Entry>)
    requires table.cols == |alphabets| && table.rows == |entries| && |table.buffer| == |entries| * table.cols
    requires Cells(table.buffer, |entries|) && Named(entries)
    requires dfa.Valid() && (forall k :: k in dfa.mappings <==> 0 <= k < |entries|)
    requires forall k | k in dfa.mappings :: dfa.mappings[k] == map[]
    modifies dfa
    ensures dfa.Valid() && dfa.mappings == DfaEdges(table.buffer, alphabets, |entries|)
    ensures dfa.start == old(dfa.start) && dfa.alphabets == old(dfa.alphabets) && dfa.accepting == old(dfa.accepting)
  {
    ghost var n := |entries|;
    var row := 0;
    while row < table.rows
      invariant 0 <= row <= n
      invariant dfa.Valid()
      invariant dfa.start == old(dfa.start) && dfa.alphabets == old(dfa.alphabets) && dfa.accepting == old(dfa.accepting)
      invariant forall k :: k in dfa.mappings <==> 0 <= k < n
      invariant forall k | 0 <= k < n :: dfa.mappings[k] == if k < row then RowOf(table.buffer, alphabets, n, k) else map[]
    {
      AddRowEdges(dfa, table, alphabets, entries, row);
      row := row + 1;
    }
    assert dfa.mappings == DfaEdges(table.buffer, alphabets, n);
  }

  /** The inner loop of `toDfa`'s last part, reading each cell as the entry position
      it holds. */
  method AddRowEdges(dfa: SymbolDfa.DeterministicFiniteAutomata, table: Tables.FixedColumnTable<int>,
                     alphabets: seq<(string, int)>, entries: seq<Entry>, row: nat)
    requires table.cols == |alphabets| && |table.buffer| == |entries| * table.cols
    requires Cells(table.buffer, |entries|) && Named(entries) && row < |entries|
    requires dfa.Valid() && row in dfa.mappings && dfa.mappings[row] == map[]
    modifies dfa
    ensures dfa.Valid()
    ensures dfa.mappings == old(dfa.mappings)[row := RowOf(table.buffer, alphabets, |entries|, row)]
    ensures dfa.start == old(dfa.start) && dfa.alphabets == old(dfa.alphabets) && dfa.accepting == old(dfa.accepting)
  {
    ghost var cols := table.cols;
    RowFits(row, |entries|, cols);
    var col := 0;
    while col < table.cols
      invariant 0 <= col <= cols
      invariant dfa.Valid() && row in dfa.mappings
      invariant dfa.mappings == old(dfa.mappings)[row := RowEdges(table.buffer, row * cols, alphabets, col)]
      invariant dfa.start == old(dfa.start) && dfa.alphabets == old(dfa.alphabets) && dfa.accepting == old(dfa.accepting)
    {
      Tables.RowEnd(row, |entries|, cols, col);
      var got := table.Get(Tables.PositionRecord(row, col));
      var entryIndex := got.value.value;
      assert entryIndex == table.buffer[row * cols + col];
      if entryIndex != -1 {
        var index := At(alphabets, col).value.1;
        var state1 := At(entries, row).value.name;
        var state2 := At(entries, entryIndex).value.name;
        var _ := dfa.AddEdge(Number(index), Symbol(state1), Symbol(state2));
      }
      col := col + 1;
    }
  }

  /** The last part of the as-written `toDfa`. */
  method AddEdgesAsWritten(dfa: SymbolDfa.DeterministicFiniteAutomata, table: Tables.FixedColumnTable<int>,
                           alphabets: seq<(string, int)>, entries: seq<Entry>)
    requires table.cols == |alphabets| && table.rows == |entries| && |table.buffer| == |entries| * table.cols
    requires 0 < |entries| && Named(entries)
    requires dfa.Valid() && (forall k :: k in dfa.mappings <==> 0 <= k < |entries|)
    requires forall k | k in dfa.mappings :: dfa.mappings[k] == map[]
    modifies dfa
    ensures dfa.Valid() && dfa.mappings == AsWrittenEdges(entries, alphabets)
    ensures dfa.start == old(dfa.start) && dfa.alphabets == old(dfa.alphabets) && dfa.accepting == old(dfa.accepting)
  {
    ghost var n := |entries|;
    var row := 0;
    while row < table.rows
      invariant 0 <= row <= n
      invariant dfa.Valid()
      invariant dfa.start == old(dfa.start) && dfa.alphabets == old(dfa.alphabets) && dfa.accepting == old(dfa.accepting)
      invariant forall k :: k in dfa.mappings <==> 0 <= k < n
      invariant forall k | 0 <= k < n :: dfa.mappings[k] == if k < row then AsWrittenRow(alphabets, |alphabets|) else map[]
    {
      AddRowEdgesAsWritten(dfa, table, alphabets, entries, row);
      row := row + 1;
    }
    NamesOfNamed(entries);
    assert dfa.mappings == AsWrittenEdges(entries, alphabets);
  }

  /** The inner loop of the as-written `toDfa`: `.deref` of the number in the cell. */
  method AddRowEdgesAsWritten(dfa: SymbolDfa.DeterministicFiniteAutomata, table: Tables.FixedColumnTable<int>,
                              alphabets: seq<(string, int)>, entries: seq<Entry>, row: nat)
    requires table.cols == |alphabets| && |table.buffer| == |entries| * table.cols
    requires 0 < |entries| && Named(entries) && row < |entries|
    requires dfa.Valid() && row in dfa.mappings && dfa.mappings[row] == map[]
    modifies dfa
    ensures dfa.Valid()
    ensures dfa.mappings == old(dfa.mappings)[row := AsWrittenRow(alphabets, table.cols)]
    ensures dfa.start == old(dfa.start) && dfa.alphabets == old(dfa.alphabets) && dfa.accepting == old(dfa.accepting)
  {
    ghost var cols := table.cols;
    var col := 0;
    while col < table.cols
      invariant 0 <= col <= cols
      invariant dfa.Valid() && row in dfa.mappings
      invariant dfa.mappings == old(dfa.mappings)[row := AsWrittenRow(alphabets, col)]
      invariant dfa.start == old(dfa.start) && dfa.alphabets == old(dfa.alphabets) && dfa.accepting == old(dfa.accepting)
    {
      Tables.RowEnd(row, |entries|, cols, col);
      var got := table.Get(Tables.PositionRecord(row, col));
      var entryIndex := Tables.Deref(got.value).value;
      if entryIndex != Number(-1) {
        var index := At(alphabets, col).value.1;
        var state1 := At(entries, row).value.name;
        var state2 := At(entries, ToIntegerOrInfinity(entryIndex)).value.name;
        var _ := dfa.AddEdge(Number(index), Symbol(state1), Symbol(state2));
      }
      col := col + 1;
    }
  }

  /** `for (const { name, states } of this.entries)`: every name but the start's becomes
      a state without edges, and a name whose states include an accepting one becomes
      accepting. The accepting names are collected in a local and stored once; nothing
      reads them in between. */
  method AddVertices(dfa: SymbolDfa.DeterministicFiniteAutomata, entries: seq<Entry>, accepting: set<int>)
    requires 0 < |entries| && Named(entries)
    requires dfa.Valid() && dfa.start == 0 && dfa.mappings == map[0 := map[]] && dfa.accepting == {}
    modifies dfa
    ensures dfa.Valid() && dfa.start == 0 && dfa.alphabets == old(dfa.alphabets)
    ensures forall k :: k in dfa.mappings <==> 0 <= k < |entries|
    ensures forall k | k in dfa.mappings :: dfa.mappings[k] == map[]
    ensures dfa.accepting == AcceptingEntries(entries, accepting)
  {
    var start := entries[0].name;
    var marked: set<int> := {};
    var j := 0;
    while j < |entries|
      invariant 0 <= j <= |entries|
      invariant dfa.Valid() && dfa.start == 0 && dfa.alphabets == old(dfa.alphabets) && dfa.accepting == {}
      invariant forall k :: k in dfa.mappings <==> 0 <= k < j || k == 0
      invariant forall k | k in dfa.mappings :: dfa.mappings[k] == map[]
      invariant forall k :: k in marked <==> 0 <= k < j && entries[k].states * accepting != {}
    {
      var entry := entries[j];
      if entry.name != start {
        var _ := dfa.AppendVertex(Symbol(entry.name));
      }
      var holds := HoldsAccepting(entry.states, accepting);
      if holds {
        marked := marked + {entry.name};
      }
      j := j + 1;
    }
    dfa.accepting := marked;
  }

  /** `processAlpha(subset, entry, index)`: records the successor of `entry` on `index`:
      -1 when it is empty, the position of the entry already holding it, or the position
      of a new entry for it. It throws exactly when `deltas` or `epsilonClosure` meets a
      state without a mapping. */
  method ProcessAlpha(subset: Subset, entry: Entry, index: int) returns (r: Outcome)
    requires subset.worklist.Valid() && Queued(subset.entries, subset.worklist.buffer)
    requires DistinctStates(subset.entries) && Within(subset.entries, Universe(subset.nfa.mappings, subset.nfa.start))
    modifies subset, subset.table, subset.worklist
    ensures subset.worklist.Valid() && Queued(subset.entries, subset.worklist.buffer)
    ensures DistinctStates(subset.entries) && Within(subset.entries, Universe(subset.nfa.mappings, subset.nfa.start))
    ensures subset.worklist.index == old(subset.worklist.index) && subset.table.rows == old(subset.table.rows)
    ensures |old(subset.entries)| <= |subset.entries| <= |old(subset.entries)| + 1
    ensures subset.entries[..|old(subset.entries)|] == old(subset.entries)
    ensures r.Done? ==>
      |subset.table.buffer| == |old(subset.table.buffer)| + 1 &&
      subset.table.buffer[..|old(subset.table.buffer)|] == old(subset.table.buffer) &&
      CellMeans(subset.nfa.mappings, subset.entries, entry.states, index, subset.table.buffer[|old(subset.table.buffer)|])
    ensures r.Thrown? <==>
      (exists s | s in entry.states :: !Mapped(subset.nfa.mappings, s)) ||
      (exists s | s in Successor(subset.nfa.mappings, entry.states, index) :: !Mapped(subset.nfa.mappings, s))
    ensures r.Thrown? ==> r.exception == TypeError
  {
    ghost var m := subset.nfa.mappings;
    var reachable := SuccessorOf(subset.nfa, entry.states, index);
    if reachable.Throw? {
      return Thrown(reachable.exception);
    }
    var reachableImages := reachable.value;
    if |reachableImages| == 0 {
      subset.table.Push(-1);
      return Done;
    }
    var alreadyProcessed := FindIndex(subset.entries, (e: Entry) => Sets.SetsAreEqual(e.states, reachableImages));
    forall e: Entry
      ensures Sets.SetsAreEqual(e.states, reachableImages) <==> e.states == reachableImages
    {
      Sets.SetsAreEqualIsEquality(e.states, reachableImages);
    }
    if alreadyProcessed != -1 {
      subset.table.Push(alreadyProcessed);
      return Done;
    }
    SuccessorWithin(m, entry.states, index);
    EntryAdded(subset.entries, Entry(|subset.entries|, reachableImages), Universe(m, subset.nfa.start));
    var entryIndex := subset.PushEntry(reachableImages);
    subset.table.Push(entryIndex);
    r := Done;
  }

  /** The first two steps of `processAlpha`: `deltas`, then `epsilonClosure` of the
      resulting states in the set's order. */
  method SuccessorOf(nfa: NondeterministicFiniteAutomata, states: set<int>, index: int) returns (r: Result<set<int>>)
    ensures r.Ok? ==> r.value == Successor(nfa.mappings, states, index)
    ensures r.Throw? <==>
      (exists s | s in states :: !Mapped(nfa.mappings, s)) ||
      (exists s | s in Successor(nfa.mappings, states, index) :: !Mapped(nfa.mappings, s))
    ensures r.Throw? ==> r.exception == TypeError
  {
    var images := Deltas(nfa, states, index);
    if images.Throw? {
      return Throw(images.exception);
    }
    var order := Ordered.ArrayFrom(images.value);
    r := EpsilonClosure(nfa, order);
  }

  /** An entry whose set is new and inside the universe keeps the entries distinct and
      inside the universe. */
  lemma EntryAdded(entries: seq<Entry>, e: Entry, u: set<int>)
    requires DistinctStates(entries) && Within(entries, u)
    requires forall k :: 0 <= k < |entries| ==> entries[k].states != e.states
    requires e.states <= u && e.states != {}
    ensures DistinctStates(entries + [e]) && Within(entries + [e], u)
  {
  }

  /** `processEntry(subset, entry)`: opens the next row of the table and records the
      entry's successor on every registered character, column by column. `row` is the
      entry's position, which the position of the table's next row always equals. */
  method ProcessEntry(subset: Subset, entry: Entry, ghost row: nat) returns (r: Outcome)
    requires subset.worklist.Valid() && Queued(subset.entries, subset.worklist.buffer)
    requires DistinctStates(subset.entries) && Within(subset.entries, Universe(subset.nfa.mappings, subset.nfa.start))
    requires subset.table.cols == |subset.alphabets| && row == subset.table.rows
    requires row < |subset.entries| && subset.entries[row] == entry
    requires |subset.table.buffer| == row * subset.table.cols
    requires Recorded(subset.nfa.mappings, subset.entries, subset.alphabets, subset.table.buffer)
    modifies subset, subset.table, subset.worklist
    ensures subset.worklist.Valid() && Queued(subset.entries, subset.worklist.buffer)
    ensures DistinctStates(subset.entries) && Within(subset.entries, Universe(subset.nfa.mappings, subset.nfa.start))
    ensures subset.worklist.index == old(subset.worklist.index) && subset.table.rows == row + 1
    ensures |old(subset.entries)| <= |subset.entries| && subset.entries[..|old(subset.entries)|] == old(subset.entries)
    ensures r.Done? ==> |subset.table.buffer| == subset.table.rows * subset.table.cols
    ensures r.Done? ==> Recorded(subset.nfa.mappings, subset.entries, subset.alphabets, subset.table.buffer)
    ensures r.Thrown? ==> r.exception == TypeError
    ensures r.Thrown? ==> exists s | s in Universe(subset.nfa.mappings, subset.nfa.start) :: !Mapped(subset.nfa.mappings, s)
  {
    ghost var m := subset.nfa.mappings;
    ghost var u := Universe(m, subset.nfa.start);
    ghost var cols := subset.table.cols;
    subset.table.rows := subset.table.rows + 1;
    var col := 0;
    while col < |subset.alphabets|
      invariant 0 <= col <= |subset.alphabets|
      invariant subset.worklist.Valid() && Queued(subset.entries, subset.worklist.buffer)
      invariant DistinctStates(subset.entries) && Within(subset.entries, u)
      invariant subset.worklist.index == old(subset.worklist.index) && subset.table.rows == row + 1
      invariant |old(subset.entries)| <= |subset.entries| && subset.entries[..|old(subset.entries)|] == old(subset.entries)
      invariant subset.entries[row] == entry
      invariant |subset.table.buffer| == row * cols + col
      invariant Recorded(m, subset.entries, subset.alphabets, subset.table.buffer)
    {
      var index := subset.alphabets[col].1;
      ghost var entries, cells := subset.entries, subset.table.buffer;
      r := ProcessAlpha(subset, entry, index);
      if r.Thrown? {
        assert entry.states <= u && Successor(m, entry.states, index) <= u by {
          SuccessorWithin(m, entry.states, index);
        }
        return;
      }
      RecordedPush(m, entries, subset.entries, subset.alphabets, cells, subset.table.buffer, row, col);
      col := col + 1;
    }
    Tables.MulStep(row, cols);
    r := Done;
  }

  /** Every state the construction can meet has a mapping. */
  ghost predicate AllMapped(m: Edges, start: int)
  {
    forall s | s in Universe(m, start) :: Mapped(m, s)
  }

  /** `nfa2dfa(nfa)`: a TypeError for anything but an NFA; otherwise the first entry is
      the start's closure and entries are processed in the order they were queued,
      each one possibly queueing a new one, until none is left. The result is a
      complete table; an exception is only possible when some state has no mapping. */
  method Nfa2Dfa(arg: Argument) returns (r: Result<Subset>)
    requires arg.Automaton? ==> arg.nfa.Valid()
    ensures arg.NotAutomaton? ==> r == Throw(TypeError)
    ensures r.Throw? ==> r.exception == TypeError
    ensures arg.Automaton? && AllMapped(arg.nfa.mappings, arg.nfa.start) ==> r.Ok?
    ensures r.Ok? ==> arg.Automaton? && fresh(r.value) && r.value.nfa == arg.nfa && r.value.Complete()
  {
    if arg.NotAutomaton? {
      return Throw(TypeError);
    }
    var nfa := arg.nfa;
    ghost var m := nfa.mappings;
    ghost var u := Universe(m, nfa.start);
    var subset := new Subset(nfa);
    var qq := EpsilonClosure(nfa, [nfa.start]);
    assert (set s | s in [nfa.start]) == {nfa.start};
    if qq.Throw? {
      ClosureWithin(m, {nfa.start});
      return Throw(qq.exception);
    }
    ClosureWithin(m, {nfa.start});
    ClosureExtends(m, {nfa.start});
    var first := subset.PushEntry(qq.value);
    while subset.worklist.index < |subset.worklist.buffer|
      invariant fresh(subset) && fresh(subset.table) && fresh(subset.worklist) && subset.nfa == nfa
      invariant subset.Valid()
      decreases |SetFacts.Subsets(u)| - |subset.entries|, |subset.entries| - subset.worklist.index
    {
      var outcome := ProcessNext(subset);
      if outcome.Thrown? {
        return Throw(outcome.exception);
      }
    }
    r := Ok(subset);
  }

  /** One round of `for (const index of subset.worklist.iter())`: the next queued
      position is taken off the work list and its entry processed. Either an entry is
      added, and there are at most as many entries as subsets of the universe, or the
      work list has moved on by one. */
  method ProcessNext(subset: Subset) returns (r: Outcome)
    requires subset.Valid() && subset.worklist.index < |subset.worklist.buffer|
    modifies subset, subset.table, subset.worklist
    ensures r.Done? ==> subset.Valid()
    ensures r.Done? ==>
      |subset.entries| <= |SetFacts.Subsets(Universe(subset.nfa.mappings, subset.nfa.start))|
    ensures r.Done? ==>
      |old(subset.entries)| < |subset.entries| ||
      (|subset.entries| == |old(subset.entries)| && subset.worklist.index == old(subset.worklist.index) + 1)
    ensures r.Thrown? ==> r.exception == TypeError
    ensures r.Thrown? ==> exists s | s in Universe(subset.nfa.mappings, subset.nfa.start) :: !Mapped(subset.nfa.mappings, s)
  {
    var index := subset.worklist.Next();
    var entry := subset.entries[index.value];
    r := ProcessEntry(subset, entry, index.value);
    if r.Done? {
      EntriesBound(subset.entries, Universe(subset.nfa.mappings, subset.nfa.start));
    }
  }

  /** The edges `toDfa` gives a row's state from the first `c` cells of the row that
      starts at `base`: an edge on the column's index to the entry the cell names, and
      none for -1. (Entry `k` is named by handle `k`.) */
  function RowEdges(buffer: seq<int>, base: nat, alphabets: seq<(string, int)>, c: nat): map<int, int>
    requires base + c <= |buffer| && c <= |alphabets|
  {
    if c == 0 then map[]
    else if buffer[base + c - 1] == -1 then RowEdges(buffer, base, alphabets, c - 1)
    else RowEdges(buffer, base, alphabets, c - 1)[alphabets[c - 1].1 := buffer[base + c - 1]]
  }

  /** Row `k` of a table with `n` complete rows lies inside the buffer. */
  lemma RowFits(k: nat, n: nat, cols: nat)
    requires k < n
    ensures 0 <= k * cols && k * cols + cols <= n * cols
  {
    Tables.MulMono(k + 1, n, cols);
    Tables.MulStep(k, cols);
  }

  /** The edges of the DFA `toDfa` builds from a complete table of `n` rows. */
  function DfaEdges(buffer: seq<int>, alphabets: seq<(string, int)>, n: nat): SymbolDfa.Edges
    requires |buffer| == n * |alphabets|
  {
    map k | 0 <= k < n :: RowOf(buffer, alphabets, n, k)
  }

  /** The edges of row `k`'s state. */
  function RowOf(buffer: seq<int>, alphabets: seq<(string, int)>, n: nat, k: nat): map<int, int>
    requires |buffer| == n * |alphabets| && k < n
  {
    RowFits(k, n, |alphabets|);
    RowEdges(buffer, k * |alphabets|, alphabets, |alphabets|)
  }

  /** The DFA states that `toDfa` marks accepting: the entries holding an accepting NFA
      state. */
  function AcceptingEntries(entries: seq<Entry>, accepting: set<int>): set<int>
  {
    set k | 0 <= k < |entries| && entries[k].states * accepting != {}
  }

  /** `inner: for (const state of states)`: whether some state of the set is accepting,
      stopping at the first. */
  method HoldsAccepting(states: set<int>, accepting: set<int>) returns (b: bool)
    ensures b <==> states * accepting != {}
  {
    var order := Ordered.ArrayFrom(states);
    var i := 0;
    while i < |order|
      invariant 0 <= i <= |order|
      invariant forall k :: 0 <= k < i ==> order[k] !in accepting
    {
      if order[i] in accepting {
        assert order[i] in states * accepting;
        return true;
      }
      i := i + 1;
    }
    forall s | s in states
      ensures s !in accepting
    {
      var k :| 0 <= k < |order| && order[k] == s;
    }
    b := false;
  }

  /** The edges the as-written `toDfa` gives a row from its first `c` columns: each
      column's index leads to the first entry, whatever the cell holds. */
  function AsWrittenRow(alphabets: seq<(string, int)>, c: nat): map<int, int>
    requires c <= |alphabets|
  {
    if c == 0 then map[] else AsWrittenRow(alphabets, c - 1)[alphabets[c - 1].1 := 0]
  }

  /** The edges of the DFA the as-written `toDfa` builds. */
  function AsWrittenEdges(entries: seq<Entry>, alphabets: seq<(string, int)>): SymbolDfa.Edges
  {
    map k | k in NamesOf(entries) :: AsWrittenRow(alphabets, |alphabets|)
  }

  /** The names of the entries. */
  function NamesOf(entries: seq<Entry>): set<int>
  {
    set k | 0 <= k < |entries| :: entries[k].name
  }

  lemma NamesOfNamed(entries: seq<Entry>)
    requires Named(entries)
    ensures forall k :: k in NamesOf(entries) <==> 0 <= k < |entries|
  {
    forall k | 0 <= k < |entries|
      ensures k in NamesOf(entries)
    {
      assert entries[k].name == k;
    }
  }

  /** Every cell is -1 or the position of an entry. */
  ghost predicate Cells(buffer: seq<int>, n: nat)
  {
    forall p :: 0 <= p < |buffer| ==> buffer[p] == -1 || 0 <= buffer[p] < n
  }

  lemma RecordedCells(m: Edges, entries: seq<Entry>, alphabets: seq<(string, int)>, buffer: seq<int>)
    requires Recorded(m, entries, alphabets, buffer)
    ensures Cells(buffer, |entries|)
  {
  }

  /** The NFA states reached from `S` by reading the indices of `w`, closing after each:
      the meaning the subset construction gives an NFA. */
  function NfaRun(m: Edges, S: set<int>, w: seq<int>): set<int>
    decreases |w|
  {
    if w == [] then S else NfaRun(m, Successor(m, S, w[0]), w[1..])
  }

  /** Characters registered with consecutive indices have distinct indices. */
  lemma DenseDistinct(a: Alphabet, offset: int)
    requires a.Valid() && a.Dense(offset)
    ensures DistinctIndices(a.Entries())
  {
  }

  /** Nothing is reached from no states. */
  lemma {:induction false} NfaRunEmpty(m: Edges, w: seq<int>)
    ensures NfaRun(m, {}, w) == {}
    decreases |w|
  {
    if w != [] {
      assert Image(m, {}, w[0]) == {};
      ClosureEmpty(m, {});
      NfaRunEmpty(m, w[1..]);
    }
  }

  /** The edge a row's state has on column `j`'s index: the cell's entry, or none for -1. */
  lemma {:induction false} RowEdgesAt(buffer: seq<int>, base: nat, alphabets: seq<(string, int)>, c: nat, j: nat)
    requires base + c <= |buffer| && c <= |alphabets| && DistinctIndices(alphabets) && j < c
    ensures alphabets[j].1 in RowEdges(buffer, base, alphabets, c) <==> buffer[base + j] != -1
    ensures buffer[base + j] != -1 ==> RowEdges(buffer, base, alphabets, c)[alphabets[j].1] == buffer[base + j]
    decreases c
  {
    if j < c - 1 {
      RowEdgesAt(buffer, base, alphabets, c - 1, j);
      assert alphabets[c - 1].1 != alphabets[j].1;
    } else if alphabets[j].1 in RowEdges(buffer, base, alphabets, c - 1) {
      RowEdgesKeys(buffer, base, alphabets, c - 1, alphabets[j].1);
      assert false;
    }
  }

  /** A row's first `c` cells only give edges on the first `c` columns' indices. */
  lemma {:induction false} RowEdgesKeys(buffer: seq<int>, base: nat, alphabets: seq<(string, int)>, c: nat, key: int)
    requires base + c <= |buffer| && c <= |alphabets|
    requires key in RowEdges(buffer, base, alphabets, c)
    ensures exists i :: 0 <= i < c && alphabets[i].1 == key
    decreases c
  {
    if key != alphabets[c - 1].1 {
      RowEdgesKeys(buffer, base, alphabets, c - 1, key);
    }
  }

  /** One registered index read by the DFA of a complete table is one successor step of
      the NFA: to `ErrorState` exactly when the successor is empty, and otherwise to the
      entry holding it. */
  lemma DfaStep(m: Edges, entries: seq<Entry>, alphabets: seq<(string, int)>, buffer: seq<int>, k: nat, c: nat)
    requires Recorded(m, entries, alphabets, buffer) && |buffer| == |entries| * |alphabets|
    requires DistinctIndices(alphabets) && k < |entries| && c < |alphabets|
    ensures
      var d := SymbolDfa.Step(DfaEdges(buffer, alphabets, |entries|), k, alphabets[c].1);
      var next := Successor(m, entries[k].states, alphabets[c].1);
      (d == ErrorState <==> next == {}) && (d != ErrorState ==> 0 <= d < |entries| && entries[d].states == next)
  {
    var cols := |alphabets|;
    RowFits(k, |entries|, cols);
    Tables.RowEnd(k, |entries|, cols, c);
    Tables.FlatIndex(k, cols, c);
    var p := k * cols + c;
    assert CellMeans(m, entries, entries[k].states, alphabets[c].1, buffer[p]);
    RowEdgesAt(buffer, k * cols, alphabets, cols, c);
  }

  /** Reading a word of registered indices, the DFA of a complete table follows the NFA's
      sets of states: it is at `ErrorState` exactly when the NFA has no state left, and
      otherwise at the entry holding the NFA's states. */
  lemma {:induction false} DfaRunsNfa(m: Edges, entries: seq<Entry>, alphabets: seq<(string, int)>, buffer: seq<int>,
                                      k: nat, w: seq<int>)
    requires Recorded(m, entries, alphabets, buffer) && |buffer| == |entries| * |alphabets|
    requires DistinctIndices(alphabets) && forall i :: 0 <= i < |entries| ==> entries[i].states != {}
    requires k < |entries| && SymbolDfa.Registered(alphabets, w)
    ensures
      var d := SymbolDfa.Run(DfaEdges(buffer, alphabets, |entries|), k, w);
      (d == ErrorState <==> NfaRun(m, entries[k].states, w) == {}) &&
      (d != ErrorState ==> 0 <= d < |entries| && entries[d].states == NfaRun(m, entries[k].states, w))
    decreases |w|
  {
    if w != [] {
      var c := SymbolDfa.RegisteredAt(alphabets, w, 0);
      var edges := DfaEdges(buffer, alphabets, |entries|);
      DfaStep(m, entries, alphabets, buffer, k, c);
      var d := SymbolDfa.Step(edges, k, w[0]);
      SymbolDfa.RegisteredTail(alphabets, w);
      if d == ErrorState {
        SymbolDfa.RunFromError(edges, w[1..]);
        NfaRunEmpty(m, w[1..]);
      } else {
        DfaRunsNfa(m, entries, alphabets, buffer, d, w[1..]);
      }
    }
  }

  /** The DFA of a complete table accepts a word of registered indices exactly when the
      NFA does: when some state it reaches from the start's closure is accepting. */
  lemma DfaAcceptsNfaWords(m: Edges, start: int, accepting: set<int>, entries: seq<Entry>,
                           alphabets: seq<(string, int)>, buffer: seq<int>, w: seq<int>)
    requires Recorded(m, entries, alphabets, buffer) && |buffer| == |entries| * |alphabets|
    requires DistinctIndices(alphabets) && forall i :: 0 <= i < |entries| ==> entries[i].states != {}
    requires 0 < |entries| && entries[0].states == Closure(m, {start}) && SymbolDfa.Registered(alphabets, w)
    ensures SymbolDfa.Run(DfaEdges(buffer, alphabets, |entries|), 0, w) in AcceptingEntries(entries, accepting)
      <==> NfaRun(m, Closure(m, {start}), w) * accepting != {}
  {
    DfaRunsNfa(m, entries, alphabets, buffer, 0, w);
  }

  /** In the DFA the as-written `toDfa` builds, each registered index leads to the start. */
  lemma {:induction false} AsWrittenRowAt(alphabets: seq<(string, int)>, c: nat, j: nat)
    requires c <= |alphabets| && j < c
    ensures alphabets[j].1 in AsWrittenRow(alphabets, c) && AsWrittenRow(alphabets, c)[alphabets[j].1] == 0
    decreases c
  {
    if j < c - 1 {
      AsWrittenRowAt(alphabets, c - 1, j);
    }
  }

  /** Whatever the table says, the as-written DFA is at its start state after any
      nonempty word of registered indices. */
  lemma {:induction false} AsWrittenReturnsToStart(entries: seq<Entry>, alphabets: seq<(string, int)>, k: nat, w: seq<int>)
    requires Named(entries) && k < |entries| && SymbolDfa.Registered(alphabets, w) && w != []
    ensures SymbolDfa.Run(AsWrittenEdges(entries, alphabets), k, w) == 0
    decreases |w|
  {
    var c := SymbolDfa.RegisteredAt(alphabets, w, 0);
    NamesOfNamed(entries);
    AsWrittenRowAt(alphabets, |alphabets|, c);
    var edges := AsWrittenEdges(entries, alphabets);
    assert SymbolDfa.Step(edges, k, w[0]) == 0;
    if |w| > 1 {
      SymbolDfa.RegisteredTail(alphabets, w);
      AsWrittenReturnsToStart(entries, alphabets, 0, w[1..]);
    } else {
      assert w[1..] == [];
    }
  }

  /** An NFA whose start state is accepting and has no edges, with the one character "a"
      at index 2: its table is the single cell -1. The as-written DFA reads "a" back into
      its accepting start state, while the NFA, and the DFA as intended, reject "a". */
  lemma AsWrittenAcceptsTooMuch()
    ensures
      var m: Edges := map[0 := map[]];
      var entries := [Entry(0, {0})];
      var alphabets := [("a", 2)];
      var buffer := [-1];
      Recorded(m, entries, alphabets, buffer) && entries[0].states == Closure(m, {0}) &&
      SymbolDfa.Run(AsWrittenEdges(entries, alphabets), 0, [2]) in AcceptingEntries(entries, {0}) &&
      NfaRun(m, Closure(m, {0}), [2]) * {0} == {} &&
      SymbolDfa.Run(DfaEdges(buffer, alphabets, 1), 0, [2]) == ErrorState
  {
    var m: Edges := map[0 := map[]];
    var entries := [Entry(0, {0})];
    var alphabets := [("a", 2)];
    var buffer := [-1];
    assert Post(m, {0}) == {};
    assert Closure(m, {0}) == {0};
    assert Image(m, {0}, 2) == {};
    ClosureEmpty(m, {});
    assert Successor(m, {0}, 2) == {};
    assert CellMeans(m, entries, entries[0].states, alphabets[0].1, buffer[0]);
    assert Recorded(m, entries, alphabets, buffer);
    var w := [2];
    assert SymbolDfa.Known(alphabets, alphabets[0].1);
    AsWrittenReturnsToStart(entries, alphabets, 0, w);
    assert 0 in AcceptingEntries(entries, {0}) by {
      assert 0 in entries[0].states * {0};
    }
    assert NfaRun(m, {0}, w) == NfaRun(m, {}, []);
    DfaRunsNfa(m, entries, alphabets, buffer, 0, w);
  }

  /** The table `nfa2dfa` completes, turned into a DFA by `toDfa`, accepts a word of
      registered characters exactly when the NFA does. */
  lemma CompleteTableAccepts(subset: Subset, w: seq<int>)
    requires subset.Complete() && SymbolDfa.Registered(subset.alphabets, w)
    ensures
      var m := subset.nfa.mappings;
      SymbolDfa.Run(DfaEdges(subset.table.buffer, subset.alphabets, |subset.entries|), 0, w)
        in AcceptingEntries(subset.entries, subset.nfa.accepting)
      <==> NfaRun(m, Closure(m, {subset.nfa.start}), w) * subset.nfa.accepting != {}
  {
    DenseDistinct(subset.nfa.alphabets, KnownMappingsSize);
    DfaAcceptsNfaWords(subset.nfa.mappings, subset.nfa.start, subset.nfa.accepting, subset.entries,
                       subset.alphabets, subset.table.buffer, w);
  }
}
