# finit-automata, modelled in Dafny

This project models the core of the finit-automata JavaScript library, a small toolkit for finite
automata over characters:

- **Automata.** Non-deterministic automata come in three forms. `fa.js`/`dst/fa.js` and `graph.js`
  use string-keyed edge maps with an error state. `dst/nfa.js` uses Symbol-named states. `nfa/nfa.js`
  uses integer-indexed vertices with epsilon and sigma mappings. Deterministic automata keep one
  edge per state and character.
- **Builders.** `nfa/nfa-builder.js` spells strings and sentinel-terminated strings into an NFA.
- **Subset construction.** There are two implementations. `algs/subset-construction.js` works on the
  Symbol-named NFA and fills a flat table. `nfa/subset-constructor.js` and `nfa/strict-subset.js`
  work on the indexed NFA.
- **Minimization.** `algs/minimizer.js` refines partitions of a DFA (Hopcroft style) and rebuilds the
  DFA of the partitions. Any two of its states are told apart by some word, so no two can be merged.
  Unreachable states are kept, as the source keeps them.
- **Code generation.** `gen/generate-dfa-instructions.js` walks a subset DFA and emits a flat
  instruction list. `gen/instruction.js` defines that list's encoding and its compilation context.
- **Recognizers.** `recognizer.js`/`dst/recognizer.js` offer an exhaustive accepter and a
  longest-match tokenizer.
- **Utilities.** `utils/arraylist.js` (growable list and slices), `utils/worklist.js`/`dst/worklist.js`
  (queue with a cursor), `utils/sets-are-equal.js` and `dst/tables.js` (row-major tables).

Each source file becomes one Dafny module. Code that mutates objects (array lists, work lists, the
automata classes, the builder, the subset constructors, the minimization context, the instruction
compiler) is modelled by classes with `modifies` frames and loops with invariants. Each such method is
proved against a specification function. The language-level facts are lemmas about those functions:
the subset DFA accepts exactly the NFA's words, partition refinement leaves every partition that is
not waiting in the work list stable, and the generated character edges read back the characters of their own entries.

JavaScript values that the source inspects dynamically (numbers versus other values, `undefined`)
appear as a small `Value` datatype. Thrown exceptions appear as `Result`/`Outcome` values naming the
error class (`TypeError`, `RangeError`, `Error`). JavaScript Symbols are integer handles drawn from a
per-object counter, and the error state is `-1` in every automaton. Where iteration order is visible,
insertion-ordered `Set`s and `Map`s are sequences without duplicates; elsewhere they are Dafny sets
and maps.

`dst/recognizer.js` writes the tokenizer's case split as a `switch` where `recognizer.js` uses
`if`/`else`; the two share one model, and the table below cites `recognizer.js`. `dst/worklist.js` is
`utils/worklist.js` without its `iter()` generator (utils/worklist.js:22-27). The work-list model
follows `utils/worklist.js`, because the loop of `algs/subset-construction.js:20` calls `iter()`.
`tests/dfa.js` is the deterministic automaton class that `algs/` imports as `./dfa.js`. `dst/tables.js`
stands for the `FixedColumnTable` that `algs/subset-construction.js` imports. `epsilon`
and `sigma` are the constants 0 and 1 of `KnownMappings`, with `KnownMappingsSize` 2; their
definition is not part of this model, and only `epsilon != sigma`, both below the size, is relied on.

## Model

| member | source | states |
|---|---|---|
| ArrayLists.CheckTypeArg | utils/arraylist.js:1-8 | building the list class succeeds exactly when the type argument has a `verify` field that is a function; otherwise it throws a TypeError |
| ArrayLists.SliceFrom | utils/arraylist.js:165-206 | a slice is built exactly when both bounds are numbers with `0 <= from <= to <= buffer.length`; it then covers exactly those bounds; a non-number bound throws a TypeError, a bad range a RangeError |
| ArrayLists.Slice.GetSize | utils/arraylist.js:131-133 | a valid slice's size is the number of elements in its window |
| ArrayLists.Slice.At | utils/arraylist.js:135-147 | a non-number index throws a TypeError; the offset `start + index` is checked against the whole buffer, not the window (RangeError), and a negative offset counts back from the buffer's end; inside the window it reads the window's element |
| ArrayLists.SliceValues | utils/arraylist.js:149-153 | iterating a slice yields exactly its window's elements, in order |
| ArrayLists.SliceReversed | utils/arraylist.js:155-159 | the reverse iterator yields the window's elements in reverse order, as many as the slice's size |
| ArrayLists.BufferAt | utils/arraylist.js:87-97 | `at` accepts exactly the numbers `-buffer.length <= i < buffer.length`, checked against the buffer rather than the list's size; a non-number throws a TypeError, an index outside a RangeError; a negative index counts back from the buffer's end |
| ArrayLists.ArrayList.constructor | utils/arraylist.js:10-12 | a new list has an empty buffer and size 0 |
| ArrayLists.ArrayList.GetSize | utils/arraylist.js:32-34 | the size is the number of items |
| ArrayLists.ArrayList.SetSize | utils/arraylist.js:20-30 | succeeds exactly for a number between 0 and the buffer's length, which becomes the size while the buffer is kept; otherwise the size is unchanged and a TypeError (not a number) or an Error (out of bounds) is thrown |
| ArrayLists.ArrayList.Slice | utils/arraylist.js:36-42 | a list's slice is a window onto its whole buffer, stale slots beyond the size included, checked as `ArrayListSlice.from` checks it |
| ArrayLists.ArrayList.Append | utils/arraylist.js:44-57 | the items grow by exactly the value; the buffer slot at the old size is overwritten when it exists (a slot left by `detach` or `setSize`), else the buffer grows |
| ArrayLists.ArrayList.Detach | utils/arraylist.js:59-67 | on an empty list throws an Error and changes nothing; otherwise returns the last item and the items shrink to the rest, with the buffer untouched |
| ArrayLists.ArrayList.AppendArray | utils/arraylist.js:69-79 | the items grow by exactly the values, in order |
| ArrayLists.ArrayList.AppendSlice | utils/arraylist.js:81-85 | for a slice of another buffer, the items grow by exactly the slice's window, in order, and the size by the slice's size |
| ArrayLists.ArrayList.AppendOwnSlice | utils/arraylist.js:81-85 | for a slice of the list's own buffer, the buffer becomes the one where each read sees the writes before it; when the window lies below the old size, the items grow by exactly the window |
| ArrayLists.OwnAppendBelow | utils/arraylist.js:81-85 | copying positions below the write position of the live buffer writes what they held before the copy began |
| ArrayLists.OwnAppendPrefix | utils/arraylist.js:81-85 | copying a window below the size appends exactly the window's old contents |
| ArrayLists.OwnAppendReadsWrites | utils/arraylist.js:81-85 | a list `[1, 2, 3]` of size 1 appending its own slice `[0, 3)` becomes `[1, 1, 1, 1]`, not the `[1, 1, 2, 3]` a copy would give |
| ArrayLists.ArrayList.Set | utils/arraylist.js:99-110 | the same checks as `at`; a non-negative index in range writes the value there and nothing else; a negative index in range leaves the elements as they were (JavaScript makes it a property); the size never changes |
| ArrayLists.ArrayList.Values | utils/arraylist.js:112-116 | iterating the list yields exactly its items |
| ArrayLists.AppendThenDetach | utils/arraylist.js:44-67 | `append` followed by `detach` gives back the appended value and leaves the items as they were |
| Automata.Alphabet.Entries | dst/nfa.js:121 | `Array.from(alphabets)` lists every character once with its index, in insertion order |
| Automata.Alphabet.Set | dst/nfa.js:68 | `map.set`: the character maps to the new index; a known character keeps its place, a new one goes to the end |
| Automata.Alphabet.Intern | dst/nfa.js:58-69 | a known character keeps its index and the map is unchanged; a new one gets `size + offset` and is appended; indices stay consecutive from the offset |
| Automata.InternIdempotent | nfa/nfa.js:78-86 | interning the same character a second time changes nothing and gives the same index |
| Automata.InternFreshIndex | nfa/nfa.js:83-85 | a new character's index is at least the offset and differs from every index already given out |
| Sets.SetsAreEqualIsEquality | utils/sets-are-equal.js:5-17 | `setsAreEqual` answers true exactly when the two sets are equal |
| Sets.SizesDiffer | utils/sets-are-equal.js:6-8 | sets of different sizes are never equal |
| Sets.SetsAreEqualSymmetric | utils/sets-are-equal.js:10-16 | although only the first set is scanned, the answer does not depend on the argument order |
| WorkLists.WorkList.constructor | utils/worklist.js:11-13 | the list wraps the given buffer with its cursor at the front and nothing yielded yet |
| WorkLists.WorkList.Next | utils/worklist.js:15-27 | one iterator step yields the item under the cursor and advances it, or yields nothing once the cursor reaches the buffer's current length; everything yielded so far is a prefix of the buffer, and all of it once the iteration ends |
| WorkLists.WorkList.Has | utils/worklist.js:29-31 | `has` is true exactly when the value occurs at or after the cursor |
| WorkLists.WorkList.Add | utils/worklist.js:33-35 | the value is appended to the buffer; the cursor and what was yielded stay as they were |
| Closures.ImageInAll | algs/subset-construction.js:148-161 | every state `deltas` can reach by one index is the target of some edge of the automaton |
| Closures.ClosureExtends | algs/subset-construction.js:167-190 | the epsilon-closure contains every starting state |
| Closures.ClosureIsClosed | algs/subset-construction.js:167-190 | the epsilon-closure is closed under epsilon edges |
| Closures.ClosureLeast | algs/subset-construction.js:167-190 | the epsilon-closure is contained in every epsilon-closed superset of the starting states |
| Closures.ClosureUnique | algs/subset-construction.js:167-190 | any epsilon-closed superset of the starting states inside the closure is the closure itself, so a loop that reaches such a set has computed it |
| Closures.ClosureWithin | algs/subset-construction.js:167-190 | the closure adds only states that are targets of edges |
| Closures.ClosureEmpty | algs/subset-construction.js:39-42 | the closure is empty exactly when the starting set is, which is the case `processAlpha` records as -1 |
| Closures.ClosureIdempotent | algs/subset-construction.js:167-190 | closing a closure changes nothing |
| Closures.ClosureMonotone | algs/subset-construction.js:167-190 | a larger starting set has a larger closure |
| SubsetConstruction.EpsilonClosure | algs/subset-construction.js:167-190 | on success the result is exactly the epsilon-closure of the given states; it throws a TypeError exactly when some state of that closure has no mapping in the automaton (`delta` of an unknown state) |
| SubsetConstruction.Expand | algs/subset-construction.js:172-186 | one round of the closure loop: the state under the cursor is marked seen and its unseen epsilon targets are queued, keeping the loop invariant (everything seen is queued and inside the closure, and every state before the cursor has all its epsilon targets seen); it throws a TypeError when that state has no mapping |
| SubsetConstruction.Drained | algs/subset-construction.js:172-189 | once the cursor reaches the end of the work list, what was seen is exactly the epsilon-closure and every state in it has a mapping |
| SubsetConstruction.Visit | algs/subset-construction.js:180-185 | visiting targets marks every one of them seen and queues exactly the ones not seen before, behind the existing work list |
| SubsetConstruction.Deltas | algs/subset-construction.js:148-161 | on success the result is exactly the set of states one step on the index reaches (plus the sigma edges unless the index is epsilon); it throws a TypeError exactly when some given state has no mapping |
| SubsetConstruction.ImageAdd | algs/subset-construction.js:150-158 | the image of a set grows by exactly the moves of each state added to it |
| SubsetConstruction.SuccessorWithin | algs/subset-construction.js:36-37 | the closed image of a set is made of targets of edges only |
| SubsetConstruction.EntriesBound | algs/subset-construction.js:44-50 | distinct entries drawn from the states reachable from the start are no more than the subsets of those states, so the construction terminates |
| SubsetConstruction.RecordedPush | algs/subset-construction.js:40-50 | appending a cell that records the right successor for the next row and column keeps every table cell meaningful |
| SubsetConstruction.Subset.constructor | algs/subset-construction.js:63-75 | a new subset has no entries, an empty table with one column per registered character, the characters in insertion order, and an empty work list |
| SubsetConstruction.Subset.PushEntry | algs/subset-construction.js:80-86 | the entry is appended under the next index, named after that index, and the index is queued on the work list |
| SubsetConstruction.ProcessAlpha | algs/subset-construction.js:35-51 | appends exactly one cell: -1 when the closed image is empty, else the index of the entry holding that set, appending a new entry only when no entry holds it already; entries stay distinct and within the reachable states; it throws a TypeError exactly when a state of the entry or of its image has no mapping |
| SubsetConstruction.ProcessEntry | algs/subset-construction.js:28-33 | adds one table row and fills it with a meaningful cell for every registered character, in insertion order |
| SubsetConstruction.SuccessorOf | algs/subset-construction.js:36-37 | `epsilonClosure(deltas(...))` is exactly the closed image, and throws a TypeError exactly when a state of the set or of its image has no mapping |
| SubsetConstruction.EntryAdded | algs/subset-construction.js:44-50 | a set not yet held by any entry can be added without breaking distinctness |
| SubsetConstruction.ProcessNext | algs/subset-construction.js:20-23 | one round of the main loop either adds an entry or advances the cursor, and the number of entries stays within the number of subsets of the reachable states; a TypeError means some reachable state has no mapping |
| SubsetConstruction.Nfa2Dfa | algs/subset-construction.js:11-26 | a non-automaton argument throws a TypeError; when every reachable state has a mapping it succeeds, and then every entry has been processed and every table cell records the closed image of its row's entry on its column's character |
| SubsetConstruction.Subset.StartDfa | algs/subset-construction.js:89-106 | the DFA starts at entry 0, copies the characters with their indices, has one state per entry and no edges yet, and accepts exactly the entries holding an accepting NFA state |
| SubsetConstruction.AddVertices | algs/subset-construction.js:95-106 | every entry other than the start becomes a state, and an entry is accepting exactly when it holds an accepting NFA state |
| SubsetConstruction.HoldsAccepting | algs/subset-construction.js:100-105 | the inner loop finds an accepting state exactly when the entry's states meet the accepting set |
| SubsetConstruction.Subset.ToDfa | algs/subset-construction.js:88-121 | (corrected) the DFA's edges are exactly the table's cells other than -1, each from its row's entry on its column's character to the entry the cell names; its accepting states are the entries holding an accepting NFA state |
| SubsetConstruction.AddEdges | algs/subset-construction.js:108-118 | (corrected) after the loop over rows every state has exactly the edges its table row records |
| SubsetConstruction.AddRowEdges | algs/subset-construction.js:109-117 | (corrected) one row's loop gives its state exactly the edges of the row's cells other than -1 |
| SubsetConstruction.RowEdgesAt | algs/subset-construction.js:110-116 | a row has an edge on a column's character exactly when the cell is not -1, and the edge goes to the cell's entry |
| SubsetConstruction.Subset.ToDfaAsWritten | algs/subset-construction.js:88-121 | as written: since `.deref` of a number is `undefined`, which is never -1, every state gets an edge on every character, and each edge goes to entry 0 |
| SubsetConstruction.AddEdgesAsWritten | algs/subset-construction.js:108-118 | as written: every state's edges are the row `AsWrittenRow` sending every character to entry 0 |
| SubsetConstruction.AddRowEdgesAsWritten | algs/subset-construction.js:109-117 | as written: one row's loop gives its state an edge to entry 0 on every character |
| SubsetConstruction.AsWrittenRowAt | algs/subset-construction.js:110-115 | as written: every registered character has an edge, and it goes to entry 0 |
| SubsetConstruction.AsWrittenReturnsToStart | algs/subset-construction.js:110-115 | as written: any non-empty word of registered characters leads from any state back to the start state |
| SubsetConstruction.AsWrittenAcceptsTooMuch | algs/subset-construction.js:110 | as written: for an NFA whose start state accepts and has no edges, the DFA accepts the one-character word `a`, which the NFA rejects and the corrected DFA sends to the error state |
| SubsetConstruction.DfaStep | algs/subset-construction.js:35-51 | one step of the corrected DFA on a registered character goes to the error state exactly when the closed image is empty, and otherwise to the entry holding the closed image |
| SubsetConstruction.DfaRunsNfa | algs/subset-construction.js:35-51 | running the corrected DFA on a word of registered characters from any entry ends in the entry holding the set of NFA states the word reaches, or in the error state exactly when that set is empty |
| SubsetConstruction.DfaAcceptsNfaWords | algs/subset-construction.js:88-121 | the corrected DFA accepts a word of registered characters exactly when the NFA, started from the closure of its start state, can end in an accepting state |
| SubsetConstruction.CompleteTableAccepts | algs/subset-construction.js:11-26 | after `nfa2dfa` completes, the table's DFA accepts exactly the words of registered characters the NFA accepts |
| SubsetConstruction.NfaRunEmpty | algs/subset-construction.js:39-42 | from the empty set no word reaches any state, so the error state is a sink |
| SymbolNfa.NondeterministicFiniteAutomata.constructor | dst/nfa.js:14-23 | a new NFA has the given symbol as its start, or a fresh one for any other name; its states are the error state and the start, the start has no edges, and there are no characters and no accepting states |
| SymbolNfa.NondeterministicFiniteAutomata.Lookup | dst/nfa.js:42-56 | the error state has no targets (`null`); an unknown state throws a TypeError (`undefined.has`); otherwise the result is the state's target list for the index, or `null` when it has none |
| SymbolNfa.NondeterministicFiniteAutomata.Delta | dst/nfa.js:32-57 | a non-symbol state, or an index that is neither a string nor a number, throws a TypeError and changes nothing; a string is first interned as a character; then the lookup above; nothing but the characters changes |
| SymbolNfa.NondeterministicFiniteAutomata.AddAlphabet | dst/nfa.js:59-70 | a non-string throws a TypeError; otherwise the character is interned from `KnownMappingsSize` on and its index, at least `KnownMappingsSize`, is returned; nothing else changes |
| SymbolNfa.NondeterministicFiniteAutomata.AddVertex | dst/nfa.js:72-77 | adds a fresh state, other than the error state and every existing state, with no edges |
| SymbolNfa.NondeterministicFiniteAutomata.AppendVertex | dst/nfa.js:79-85 | a non-symbol throws a TypeError and changes nothing; otherwise the state is added with an empty edge map, replacing any edges it had |
| SymbolNfa.NondeterministicFiniteAutomata.AddEdge | dst/nfa.js:87-94 | an unknown source state throws a TypeError; otherwise the target is appended to the source's list for the index, which is created when missing; nothing else changes |
| SymbolDfa.DeterministicFiniteAutomata.constructor | tests/dfa.js:14-23 | a new DFA has the given symbol as its start, or a fresh one; its states are the error state and the start, with no edges, no characters and no accepting states |
| SymbolDfa.DeterministicFiniteAutomata.Lookup | tests/dfa.js:42-56 | the error state leads to itself; an unknown state throws a TypeError; a missing edge leads to the error state; otherwise the one target of the edge |
| SymbolDfa.DeterministicFiniteAutomata.Delta | tests/dfa.js:32-57 | the same argument checks as the NFA's `delta`, a string index is interned first, then the lookup above |
| SymbolDfa.DeterministicFiniteAutomata.AddAlphabet | tests/dfa.js:59-70 | a non-string throws a TypeError; otherwise the character is interned from `KnownMappingsSize` on, indices stay consecutive, and nothing else changes |
| SymbolDfa.DeterministicFiniteAutomata.AddVertex | tests/dfa.js:72-77 | adds a fresh state, other than the error state and every existing state, with no edges |
| SymbolDfa.DeterministicFiniteAutomata.AppendVertex | tests/dfa.js:79-85 | a non-symbol throws a TypeError; otherwise the state is added with an empty edge map |
| SymbolDfa.DeterministicFiniteAutomata.AddEdge | tests/dfa.js:87-99 | succeeds exactly when the index is a number, both states are symbols and the source is known (TypeError otherwise, nothing changed); the source's edge on the index is set to the target, replacing any earlier one |
| SymbolDfa.RunAppend | tests/dfa.js:32-57 | running a word and then one more character is one more `delta` step |
| SymbolDfa.RunFromError | tests/dfa.js:42-44 | from the error state every word stays in the error state |
| SymbolDfa.CopyAlphabet | algs/subset-construction.js:91-93 | copying the pairs one by one with `alphabets.set` reproduces the source map, order included |
| SymbolDfa.CopiedAll | algs/minimizer.js:307-309 | setting every pair of a map into an empty map, in order, gives back the map itself |
| Tables.PositionFrom | dst/tables.js:74-91 | a position is built exactly when the record has numeric `row` and `col` fields, which it then holds; otherwise a TypeError |
| Tables.PositionRecord | dst/tables.js:74-91 | a record holding two numbers always makes the position of those numbers, which is how `toDfa` calls `get` |
| Tables.Deref | algs/subset-construction.js:110 | `.deref` of a stored number is `undefined`, and of `null` or `undefined` a TypeError |
| Tables.FixedColumnTable.constructor | dst/tables.js:13-17 | a new table has the given columns, no rows and an empty buffer |
| Tables.FixedColumnTable.Get | dst/tables.js:19-28 | a bad position throws a TypeError; otherwise it reads the cell at `row * cols + col`, gives `null` past the buffer's end, and `undefined` for a negative index |
| Tables.FixedColumnTable.Push | dst/tables.js:30-32 | appends the element to the buffer and leaves the row count alone |
| Tables.FixedColumnTable.Rows | dst/tables.js:34-38 | the iterator yields just enough groups of `cols` cells to cover the buffer, group `g` holding the cells from `g * cols` on, with `undefined` past the end |
| Tables.TakeBuffer | dst/tables.js:41-45 | `takeBuffer` yields `amount` cells read with `at` from `offset` on |
| Tables.FlatIndex | dst/tables.js:21 | cell `row * cols + col` belongs to exactly that row and column when `col < cols` |
| Fa.Step | dst/fa.js:28-34 | in an automaton whose edges only lead to known states, `delta` from a known state (or the error state) gives a known state or the error state |
| Fa.RunKnown | dst/fa.js:28-34 | running a whole string from a known state ends in a known state or the error state |
| Fa.RunAppend | dst/fa.js:28-34 | running a string and then one more character is one more `delta` step |
| Fa.RunFromError | dst/fa.js:29-31 | from the error state every string stays in the error state |
| Fa.RunErrorPrefix | dst/fa.js:29-33 | once a prefix of a string reaches the error state, so does the whole string |
| Fa.RunExtends | graph.js:39-44 | adding states and edges never changes where a string that did not fail already led |
| Fa.AddState | graph.js:39-43 | a state named after the old state count is new, and adding it with no edges keeps the automaton consistent and extends it |
| Fa.AddLeaf | graph.js:39-44 | adding a new state as the target of a missing edge keeps the automaton consistent, extends it, and makes `delta` on that edge give the new state |
| Fa.FiniteAutomata.constructor | dst/fa.js:10-19 | a new automaton has a fresh start state other than the error state, the states start and error, no edges, no characters and no accepting states |
| Fa.FiniteAutomata.Cleared | fa.js:11-24 | the constructor that fills then clears its maps leaves the same state as the other constructor |
| Fa.FiniteAutomata.Delta | dst/fa.js:28-34 | the error state leads to itself; a known state follows its edge or leads to the error state when it has none; an unknown state throws a TypeError (`undefined.get`) |
| Graph.StateGraph.constructor | graph.js:12-19 | the view holds the automaton and its state |
| Graph.StateGraph.AppendString | graph.js:24-49 | inserts the string as a trie path from the view's state: the result is where the string now leads, and it is made accepting; existing edges are reused and a missing one gets a new state; the characters are added; when the path already existed no edge changes; the empty string accepts the view's own state |
| Graph.StateGraph.Follow | graph.js:29-44 | one round of the loop: the character is registered and the state moves along its edge, adding a new state and edge only when the edge was missing |
| Graph.StateGraph.AppendVertex | graph.js:54-61 | adds a fresh state with no edges and returns a view on it; nothing else changes |
| Graph.StateGraph.AddEdge | graph.js:67-70 | registers the character and sets the view's edge on it to the state, replacing any earlier target; no other edge changes |
| Graph.StateGraph.HasEdge | graph.js:75-77 | true exactly when the view's state has an edge on the character |
| Graph.StateGraph.GetVertex | graph.js:84-86 | gives a view on the target of the edge |
| Graph.StateGraph.AddEdges | graph.js:92-96 | every listed character now leads to the state, every other edge of the view is kept, other states' edges are untouched, and the characters are registered |
| Graph.StateGraph.Accept | graph.js:98-100 | makes the view's state accepting and changes nothing else |
| Recognizers.ExhaustiveRecognizer.constructor | recognizer.js:13-15 | the recognizer holds the automaton |
| Recognizers.ExhaustiveRecognizer.Recognize | recognizer.js:28-38 | the state is where the whole string leads from the start, one `delta` per character; returning early at the error state gives the same answer as reading on |
| Recognizers.ExhaustiveRecognizer.Accepts | recognizer.js:20-23 | true exactly when the whole string leads from the start to an accepting state |
| Recognizers.StopFromBounds | recognizer.js:62-88 | the loop stops between where it started and the end of the source |
| Recognizers.WalkIsRun | recognizer.js:62-66 | the state after `k` characters is where those characters lead from the start |
| Recognizers.WalkStep | recognizer.js:66-68 | reading one more character keeps the walk alive exactly when the new state is not the error state |
| Recognizers.DeltaWalks | recognizer.js:63-66 | the `delta` call in the loop is the walk's next step, read from the source at the cursor |
| Recognizers.ScanStep | recognizer.js:62-88 | one loop round updates the start, capture state and capture index as the reference definition says |
| Recognizers.ScanMeaning | recognizer.js:57-88 | after any number of rounds without an error, the capture is the last accepting non-start state seen since the last return to the start, and the start index is just after the last return to the start |
| Recognizers.StopLimits | recognizer.js:62-68 | once the loop stops, no longer prefix can be read without an error |
| Recognizers.TokenAtStop | recognizer.js:76-77 | when the loop stops after a capture, the token returned is the longest captured prefix, started after the last return to the start |
| Recognizers.NothingAtStop | recognizer.js:69-73 | when the loop stops without a capture, nothing could have been captured and the error is reported at the failing character, or at the end of the source |
| Recognizers.Stop | recognizer.js:68-98 | whatever way the loop stops, the result is the maximal-munch token or the error at the right position |
| Recognizers.StopFromStops | recognizer.js:62-88 | the loop always stops, at a point where it can read no further |
| Recognizers.StopFromReaches | recognizer.js:62-68 | from any earlier point the loop stops at the same place |
| Recognizers.OutcomeMeaning | recognizer.js:56-99 | `next()` either returns the maximal-munch token and leaves the cursor at its end, or throws an InvalidCharError at the failing position, with nothing captured, leaving the cursor one past it (or at the end) |
| Recognizers.TokenUnique | recognizer.js:56-99 | the maximal-munch token, when there is one, is unique |
| Recognizers.ResetExampleWalk | recognizer.js:78-80 | on a three-character example the walk returns to the start after two characters and then fails |
| Recognizers.StartCanPassEnd | recognizer.js:78-80 | a return to the start after the last capture moves the start index past the capture index, so the token's start is greater than its end |
| Recognizers.ResetExampleToken | recognizer.js:76-77 | the example's token is `(1, 2, 1)`: captured at 1, restarted at 2 |
| Recognizers.TokenRecognizer.constructor | recognizer.js:50-54 | a new tokenizer holds the automaton and the source, with its cursor at 0 |
| Recognizers.TokenRecognizer.Next | recognizer.js:56-99 | the result and the new cursor are exactly the reference outcome of reading from the old cursor, which `OutcomeMeaning` characterises; positions count code points (see Left out) |
| Recognizers.Tape.ScanNext | recognizer.js:63-86 | one round of the loop moves the scan to the state the next character leads to |
| Recognizers.ResetExample | recognizer.js:78-80 | the example tape is well formed and has three characters left |
| IndexNfa.ReferencesAreRefs | nfa/nfa.js:4-16 | an alphabet index is a reserved reference exactly when it is below the offset four: the four named references and every negative index |
| IndexNfa.AddedEdge | nfa/nfa.js:95-102 | adding an edge leaves the set of states with a mapping unchanged |
| IndexNfa.AddedEdgeListed | nfa/nfa.js:95-102 | adding an edge appends the target to the list for that state and alphabet index and to no other list |
| IndexNfa.InternedNotRef | nfa/nfa.js:79-85 | an interned alphabet entry never gets a reserved index, and neither does any earlier entry |
| IndexNfa.AddedEdgeKeepsDense | nfa/nfa.js:95-102 | adding an edge from a known state keeps every state mapped and only ever lengthens target lists |
| IndexNfa.NFA.constructor | nfa/nfa.js:24-50 | a new automaton has one named start state with an empty mapping, no alphabet and no accepting state |
| IndexNfa.NFA.Delta | nfa/nfa.js:52-72 | a non-number argument throws a TypeError; the error state gives null; a state with no mapping throws; otherwise the result is the target list exactly when the alphabet index is mapped |
| IndexNfa.NFA.AddAlpha | nfa/nfa.js:74-86 | a non-string throws a TypeError; a known character gets its old index; a new one gets the alphabet size plus the offset, which is never a reserved reference; nothing else changes |
| IndexNfa.NFA.AddVertex | nfa/nfa.js:88-93 | the new state's index is the old state count, it is named and gets an empty mapping, and nothing else changes |
| IndexNfa.NFA.AddEdge | nfa/nfa.js:95-102 | an unknown source state throws a TypeError and changes nothing; otherwise the target is appended to that state's list for the alphabet index |
| NfaBuilders.InternedIsIntern | nfa/nfa.js:79-85 | the builder's view of `addAlpha` on one code point is the alphabet's own interning |
| NfaBuilders.InternedFacts | nfa/nfa.js:79-85 | interning keeps every known character at its index, and a fresh index is never a reserved reference |
| NfaBuilders.SpellsGrow | nfa/nfa-builder.js:86-92 | a path that spells a string stays a path when target lists only grow and characters keep their indices |
| NfaBuilders.SpellsSnoc | nfa/nfa-builder.js:86-92 | a path for a string, followed by an edge on one more character, spells the longer string |
| NfaBuilders.AddedEdgeGrows | nfa/nfa-builder.js:88-90 | adding a fresh vertex and an edge from a known state only grows target lists |
| NfaBuilders.StringStep | nfa/nfa-builder.js:88-91 | one round of `buildString` adds exactly one state, numbered after the existing ones, and moves to it |
| NfaBuilders.StringStepFacts | nfa/nfa-builder.js:88-91 | one round adds an edge on the character from the current state to the new state, the new state has no edges, and nothing else is lost |
| NfaBuilders.StringChain | nfa/nfa-builder.js:86-92 | after `n` characters there are `n` new states and the current state is the last one added, or the start state for the empty string |
| NfaBuilders.StringChainSpells | nfa/nfa-builder.js:86-95 | the chain built for a string spells it from the start state to the state returned, keeping everything the automaton had |
| NfaBuilders.StringStepSpells | nfa/nfa-builder.js:88-91 | one more round extends the spelled prefix by one character |
| NfaBuilders.StringChainShape | nfa/nfa-builder.js:86-92 | each added state has exactly one edge, on the next character to the next added state, the last has none, and older states other than the start keep their lists |
| NfaBuilders.StringStepShape | nfa/nfa-builder.js:88-91 | one more round keeps that shape |
| NfaBuilders.SentinelStep | nfa/nfa-builder.js:34-43 | one round of `addSentinelString` adds exactly one state, numbered after the existing ones, and moves to it |
| NfaBuilders.SentinelStepFacts | nfa/nfa-builder.js:35-42 | one round adds the character edge to the new state and gives the new state one `fail` edge to the fail state and one `eof` edge to the eof state |
| NfaBuilders.SentinelChain | nfa/nfa-builder.js:33-45 | after `n` characters there are `n` new states and the state returned is the last one added, or the start state for an empty sentinel |
| NfaBuilders.SentinelChainMeaning | nfa/nfa-builder.js:29-46 | the sentinel chain spells the sentinel from the start state to the state returned, and every added state has exactly the `fail` and `eof` targets it was given |
| NfaBuilders.SentinelStepMeaning | nfa/nfa-builder.js:35-42 | one more round keeps that meaning for the longer prefix |
| NfaBuilders.EdgesFold | nfa/nfa-builder.js:56-59 | linking edges never adds or removes a state's mapping |
| NfaBuilders.EdgesFoldStops | nfa/nfa-builder.js:56-59 | once an edge throws, the later edges are not processed |
| NfaBuilders.EdgesFoldOutcome | nfa/nfa-builder.js:56-59 | linking succeeds exactly when every edge is a string and, when there is an edge, the source state is known; a failure is a TypeError |
| NfaBuilders.EdgesFoldLinks | nfa/nfa-builder.js:56-59 | on success every edge's character leads from `state1` to `state2`, and nothing the automaton had is lost |
| NfaBuilders.NFABuilder.constructor | nfa/nfa-builder.js:12-22 | the builder holds the automaton and an empty token map |
| NfaBuilders.CreateBuilder | nfa/nfa-builder.js:16-22 | a non-automaton throws a TypeError; otherwise a fresh builder holds the automaton with no tokens |
| NfaBuilders.NFABuilder.AddString | nfa/nfa-builder.js:24-27 | the string's chain of fresh states is added from the start state and its last state becomes accepting and is mapped to the token name; a non-string throws TypeError and leaves the NFA and the token names as they were (the source returns `undefined`; the model's result is the state `buildString` returned) |
| NfaBuilders.NFABuilder.AddSentinelString | nfa/nfa-builder.js:29-46 | the automaton becomes the sentinel chain and the state returned is its last state, with the accepting set unchanged |
| NfaBuilders.NFABuilder.AddEdges | nfa/nfa-builder.js:48-60 | a non-number state throws a TypeError and changes nothing; otherwise each edge is interned and linked in turn, stopping at the first that throws |
| NfaBuilders.NFABuilder.AddVertex | nfa/nfa-builder.js:62-69 | one named state with an empty mapping is added; the result is its index, or what the callback returns for it |
| NfaBuilders.NFABuilder.Accept | nfa/nfa-builder.js:71-74 | the state becomes accepting and is mapped to the token name, and the graph is unchanged |
| NfaBuilders.BuildString | nfa/nfa-builder.js:77-96 | a non-automaton or non-string throws a TypeError and changes nothing; otherwise the automaton becomes the string's chain and its last state is added to the accepting set and returned |
| NfaBuilders.BuildChain | nfa/nfa-builder.js:86-92 | the loop leaves the automaton equal to the string's chain and returns the state it ends in |
| NfaBuilders.LinkEdges | nfa/nfa-builder.js:56-59 | the loop over the edges leaves the automaton and outcome of the reference fold |
| Instructions.DataCheck | gen/instruction.js:43-59 | `Data.from` passes exactly when `data1` and `data2` are present and are numbers, and otherwise throws an Error |
| Instructions.InstructionCheck | gen/instruction.js:151-167 | `Instruction.from` passes exactly when `tag` is a number, `data` an object and the data passes `Data.from`, and otherwise throws an Error |
| Instructions.StateCheck | gen/instruction.js:72-102 | `State.from` passes exactly when `reachable` is a boolean and `token`, `edges`, `edgesLength` are numbers, and otherwise throws an Error |
| Instructions.EdgeCheck | gen/instruction.js:115-145 | `Edge.from` passes exactly when `recursive` is a boolean and `instIndex`, `alphabets`, `alphabetsLength` are numbers, and otherwise throws an Error |
| Instructions.RecordsPass | gen/instruction.js:36-150 | the records the generator builds always pass their validators |
| Instructions.PatchedPlaceholder | gen/instruction.js:221-265 | reserving a placeholder and patching it gives the instruction `addStateInst` appends: a state tag carrying the token, `stateAccepting` exactly when there are no edges, `stateReachable` exactly when there are edges and the state is reachable |
| Instructions.CompilationContext.constructor | gen/instruction.js:173-181 | a new context holds the subset, with empty instruction, extra and scratch lists |
| Instructions.CompilationContext.GetNode | gen/instruction.js:183-185 | a node exists exactly for an index within the node count either way (`Array.at` counts negative indices from the end), and a non-negative index gives that node |
| Instructions.CompilationContext.GetExtra | gen/instruction.js:191-193 | the same `Array.at` rule for the subset's `extra` list |
| Instructions.CompilationContext.UnpackArray | gen/instruction.js:207-210 | the length-prefixed array at an index unpacks exactly when its length and its items fit in `extra`, and gives those items |
| Instructions.CompilationContext.GetInst | gen/instruction.js:217-219 | an instruction index within the list either way gives the instruction, and anything else throws a RangeError |
| Instructions.CompilationContext.AddInst | gen/instruction.js:212-215 | the instruction is appended and its reference is its position plus two, so it is never one of the reserved references 0 and 1, and it refers back to the instruction |
| Instructions.CompilationContext.AddStateInst | gen/instruction.js:221-241 | the state instruction built by the tag rule is appended and its reference returned |
| Instructions.CompilationContext.MakeStateInst | gen/instruction.js:243-251 | a placeholder with tag and data -1 is appended and its reference returned |
| Instructions.CompilationContext.SetStateInst | gen/instruction.js:253-265 | the instruction the reference points at is patched (the token always, the tag by the state rule, the edges only when there are some) and no other; a reference outside the list throws a RangeError |
| Instructions.CompilationContext.AddEdgeInst | gen/instruction.js:267-276 | an edge instruction is appended, `edgeCircular` exactly for a recursive edge, holding the target and the alphabet list |
| Instructions.ReserveThenSet | gen/instruction.js:221-265 | reserving and then patching a state instruction appends exactly what `addStateInst` would have |
| StrictSubsets.EntryCheck | nfa/strict-subset.js:121-144 | `SubsetEntry.from` passes exactly when `states` is an object and `found`, `node` are numbers, and otherwise throws an Error |
| StrictSubsets.DataCheck | nfa/strict-subset.js:163-179 | `SubsetNode.Data.from` passes exactly when `data1` and `data2` are numbers, and otherwise throws an Error |
| StrictSubsets.NodeCheck | nfa/strict-subset.js:185-201 | `SubsetNode.from` passes exactly when `tag` is a number, `data` an object and the data passes, and otherwise throws an Error |
| StrictSubsets.SubsetCheck | nfa/strict-subset.js:65-109 | `Subset.from` passes exactly when all six fields are present and are objects, and otherwise throws an Error |
| StrictSubsets.RecordsPass | nfa/strict-subset.js:121-201 | the entry and node records the construction builds always pass their validators |
| StrictSubsets.SubsetGen.constructor | nfa/strict-subset.js:7-24 | a new generator holds the automaton's mappings, accepting set and alphabet, the tokens, the alphabet's keys in order, and empty entries, nodes, worklist and lists |
| StrictSubsets.SubsetGen.PushEntry | nfa/strict-subset.js:26-31 | the entry is appended, its index is the old entry count, and that index is queued on the worklist |
| StrictSubsets.SubsetGen.AddNode | nfa/strict-subset.js:33-36 | the node is appended and its index returned, with entries unchanged |
| StrictSubsets.Subset.GetArray | nfa/strict-subset.js:60-63 | a non-number index throws a TypeError; the length-prefixed array at an index unpacks exactly when its length and items fit in `extra`, and gives those items |
| StrictSubsets.GetArrayPacked | nfa/strict-subset.js:60-63 | an array appended to `extra` as its length followed by its items reads back as those items |
| SubsetConstructors.PostWithin | nfa/subset-constructor.js:133-142 | the image of a set of states on an alphabet index only holds targets listed in the mappings |
| SubsetConstructors.PostSnoc | nfa/subset-constructor.js:133-142 | the image of one more state is the old image plus that state's listed targets |
| SubsetConstructors.PostGrows | nfa/subset-constructor.js:133-142 | a larger set of states has a larger image |
| SubsetConstructors.ClashGrows | nfa/subset-constructor.js:143-177 | two different accepting states in a set stay two in any larger set |
| SubsetConstructors.OnlyNoClash | nfa/subset-constructor.js:143-177 | a set whose only accepting state is the one found has no clash |
| SubsetConstructors.VisitMeaning | nfa/subset-constructor.js:140-177 | visiting one target adds it to the image and keeps the found state the sole accepting one, or throws an Error exactly when a second accepting state appears |
| SubsetConstructors.ElemsSnoc | nfa/subset-constructor.js:140-142 | the elements of a longer prefix are those of the shorter prefix plus the new one |
| SubsetConstructors.VisitAllMeaning | nfa/subset-constructor.js:140-178 | visiting a target list adds all its targets to the image, or throws an Error when they bring a second accepting state |
| SubsetConstructors.StatesFoldMeaning | nfa/subset-constructor.js:133-179 | the outer loop over the states builds the image of the states seen so far, or fails with a TypeError for a state without a mapping or an Error for a clash |
| SubsetConstructors.StateStepMeaning | nfa/subset-constructor.js:134-178 | one more round of the outer loop keeps that meaning |
| SubsetConstructors.DeltasMeaning | nfa/subset-constructor.js:118-182 | `deltas` throws an Error for `epsilon` and `sigma`; otherwise it returns the image of the states, without repeats and with its sole accepting state, or fails only with a TypeError for an unmapped state or an Error for two accepting states in the image |
| SubsetConstructors.VisitAllStops | nfa/subset-constructor.js:170-176 | once a target throws, the later targets are not visited |
| SubsetConstructors.StatesFoldStops | nfa/subset-constructor.js:133-179 | once a state throws, the later states are not visited |
| SubsetConstructors.VisitTargets | nfa/subset-constructor.js:140-178 | the inner loop returns the reference result of visiting the target list |
| SubsetConstructors.Deltas | nfa/subset-constructor.js:118-182 | the method returns the reference image that `DeltasMeaning` characterises |
| SubsetConstructors.FindEntry | nfa/subset-constructor.js:98 | the index found is -1 exactly when no entry holds the same set of states, and otherwise an entry that does |
| SubsetConstructors.EdgeStep | nfa/subset-constructor.js:91-116 | one `handleEdge` only appends to scratch, entries and nodes, and leaves `extra` alone |
| SubsetConstructors.EdgesFrom | nfa/subset-constructor.js:65-70 | the calls of `handleEdge` for an entry only append to scratch, entries and nodes |
| SubsetConstructors.EdgesFromStops | nfa/subset-constructor.js:65-70 | once an edge throws, the later alphabet indices are not handled |
| SubsetConstructors.HandledNoRefs | nfa/subset-constructor.js:65-70 | the alphabet indices handled, the registered ones then `fail` and `eof`, are never `epsilon` or `sigma` |
| SubsetConstructors.EdgeListExtends | nfa/subset-constructor.js:91-116 | an entry's edge list stays valid as the construction appends |
| SubsetConstructors.StateNodeExtends | nfa/subset-constructor.js:72-85 | a handled entry stays handled as the construction appends |
| SubsetConstructors.EdgeStepKeeps | nfa/subset-constructor.js:91-116 | `handleEdge` keeps the entries sound and distinct and adds the edge node of the next index with a nonempty image, or fails only for an unmapped state or a clash |
| SubsetConstructors.EntriesPush | nfa/subset-constructor.js:98-105 | pushing an image no entry holds keeps the entries sound and distinct |
| SubsetConstructors.EdgeStepAdds | nfa/subset-constructor.js:98-115 | the edge node added points at the entry holding the image, on the alphabet index handled |
| SubsetConstructors.EdgeListAdds | nfa/subset-constructor.js:107-115 | appending that edge node extends the entry's edge list by one index |
| SubsetConstructors.EdgesFromKeeps | nfa/subset-constructor.js:65-70 | after the edges of an entry, scratch holds its edge nodes for every index with a nonempty image, in order, and the entries stay sound and distinct, or the construction fails only for an unmapped state or a clash |
| SubsetConstructors.EntryStepKeeps | nfa/subset-constructor.js:60-89 | `handleEntry` keeps the construction's invariant with one more entry handled, or fails only for an unmapped state or a clash |
| SubsetConstructors.EntryStepPacks | nfa/subset-constructor.js:72-85 | packing the edge list into `extra` as length and items and adding the state node makes the entry handled |
| SubsetConstructors.FinishCompletes | nfa/subset-constructor.js:42-45 | appending the state nodes to `extra` and bracketing them in the root gives a complete construction |
| SubsetConstructors.RootPatched | nfa/subset-constructor.js:44-45 | patching the root node changes no handled entry's edge list |
| SubsetConstructors.EntriesBound | nfa/subset-constructor.js:37-40 | there are never more entries than subsets of the automaton's states, so the work list runs out |
| SubsetConstructors.HandleEdge | nfa/subset-constructor.js:91-116 | the method does what the reference `handleEdge` step does, only appending to scratch |
| SubsetConstructors.HandleEdges | nfa/subset-constructor.js:65-70 | the loop over the alphabet and `fail`, `eof` gives the reference result for the entry's edges |
| SubsetConstructors.HandleEntry | nfa/subset-constructor.js:60-89 | the method gives the reference result of handling the entry, with scratch restored to where it was |
| SubsetConstructors.PackEntry | nfa/subset-constructor.js:72-88 | the edge nodes on scratch above its top go to `extra` as length and items, the entry's node becomes a new state node, and scratch is cut back to its top |
| SubsetConstructors.HandleNext | nfa/subset-constructor.js:37-40 | handling the next queued entry keeps the invariant and makes progress (a new entry, or one more handled), or fails only for an unmapped state or a clash |
| SubsetConstructors.Start | nfa/subset-constructor.js:20-35 | the generator starts with the root node and the entry holding the start state, whose found state is the start when it accepts |
| SubsetConstructors.HandleAll | nfa/subset-constructor.js:37-40 | the work-list loop ends with every entry handled, or fails only for an unmapped state or a clash |
| SubsetConstructors.Finish | nfa/subset-constructor.js:42-57 | the root brackets the state-node list appended to `extra`, and the finished subset holds the tokens, the alphabet, the entries, the nodes and `extra` |
| SubsetConstructors.Conclude | nfa/subset-constructor.js:42-57 | once every entry is handled the result is a complete construction |
| SubsetConstructors.ToSubset | nfa/subset-constructor.js:20-58 | the result is a complete subset construction (entry 0 is the start, entries are the distinct nonempty images reachable from it, each has its sole accepting state and a state node listing its edges) or a failure for an unmapped state or two accepting states in one image |
| DfaInstructions.StateScope.constructor | gen/generate-dfa-instructions.js:135-143 | a new state scope records the node, its reserved instruction and whether it has a token, and starts unreachable |
| DfaInstructions.ChainPush | gen/generate-dfa-instructions.js:137-144 | pushing a scope adds its node to the chain's nodes exactly when it is a state scope |
| DfaInstructions.Span | gen/generate-dfa-instructions.js:359-385 | the node range is exactly the indices between its bounds |
| DfaInstructions.RoomShrinks | gen/generate-dfa-instructions.js:144-208 | entering a node not already being compiled leaves fewer nodes that can still be entered, so the recursion of `enterNode` ends |
| DfaInstructions.InnermostMeaning | gen/generate-dfa-instructions.js:359-385 | the scope search finds nothing exactly when no state scope in the chain compiles the node, and otherwise the innermost one that does |
| DfaInstructions.FindReachableStateScope | gen/generate-dfa-instructions.js:359-397 | the loop returns the innermost state scope compiling the node, or null |
| DfaInstructions.TraceAccepting | gen/generate-dfa-instructions.js:97-122 | the walk up the chain finds a scope with a token exactly when some state scope in the chain has one |
| DfaInstructions.ScanMeaning | gen/generate-dfa-instructions.js:157-185 | the scan of the edges passes exactly when every edge is an edge node whose index is not `epsilon` or `sigma`, and reports a `fail` edge and an `eof` edge exactly when there is one |
| DfaInstructions.Scan | gen/generate-dfa-instructions.js:157-185 | the loop returns the reference scan |
| DfaInstructions.ScanStops | gen/generate-dfa-instructions.js:159-185 | once an edge throws, the later edges are not scanned |
| DfaInstructions.IndexOf | gen/generate-dfa-instructions.js:349-353 | the bucket lookup finds -1 exactly when no bucket has the target, and otherwise a bucket that has it |
| DfaInstructions.BucketedMeaning | gen/generate-dfa-instructions.js:335-357 | the buckets are keyed by the targets, without repeats, in the order first seen, and each holds exactly the alphabet indices of the edges to its target, in edge order |
| DfaInstructions.NoAlphas | gen/generate-dfa-instructions.js:335-357 | a target that no edge reaches has no alphabet indices |
| DfaInstructions.BucketsCover | gen/generate-dfa-instructions.js:335-357 | every edge's target has a bucket, and the edge's alphabet index is in it |
| DfaInstructions.MakeBuckets | gen/generate-dfa-instructions.js:335-357 | the method throws when an edge or its entry is missing, and otherwise returns the reference buckets of the edges' target and index pairs |
| DfaInstructions.PairsStop | gen/generate-dfa-instructions.js:337-354 | once an edge throws, the later edges are not read |
| DfaInstructions.ScanPairs | gen/generate-dfa-instructions.js:159-185 | after a successful scan, every edge gives one pair whose index is its label |
| DfaInstructions.CheckBucket | gen/generate-dfa-instructions.js:211-238 | a bucket passes exactly when its only reference indices are a `fail` alone in the bucket and an `eof` on an edge that is not recursive, and otherwise throws an Error |
| DfaInstructions.Refs | gen/generate-dfa-instructions.js:254-322 | the references of `count` instructions appended from position `n0` are consecutive, starting at `n0` plus two |
| DfaInstructions.AlphaExtra | gen/generate-dfa-instructions.js:307-315 | the character lists take one word per entry with characters, plus one per character |
| DfaInstructions.EdgeListLong | gen/generate-dfa-instructions.js:145-150 | a state's edge list holds at least two references, so `setStateInst` never makes such a state accepting-only |
| DfaInstructions.RefInstsOfMeaning | gen/generate-dfa-instructions.js:246-275 | the reference edges of one entry are fail and eof edges, one for each `fail` or `eof` index in its bucket |
| DfaInstructions.RefInstsMeaning | gen/generate-dfa-instructions.js:245-276 | the reference edges of all entries are fail and eof edges, one for each `fail` or `eof` index of each bucket |
| DfaInstructions.AlphaInstsTags | gen/generate-dfa-instructions.js:292-323 | the character edges are `edge` or `edgeCircular` instructions |
| DfaInstructions.LastReadsBack | gen/generate-dfa-instructions.js:307-322 | an entry's character edge names its target and reads back exactly its character indices from `extra` |
| DfaInstructions.WithCharsMeaning | gen/generate-dfa-instructions.js:303-305 | an entry gets a character edge exactly when its bucket has a character index |
| DfaInstructions.AllReadBackMeaning | gen/generate-dfa-instructions.js:292-323 | each character edge reads back the character indices of its own entry |
| DfaInstructions.AlphaReadBack | gen/generate-dfa-instructions.js:292-323 | the character edges and lists emitted for all entries read back their entries' characters |
| DfaInstructions.PushExtra | gen/generate-dfa-instructions.js:308 | one word is appended to `extra` |
| DfaInstructions.EmitRefEdge | gen/generate-dfa-instructions.js:252-273 | a `fail` index appends a fail edge (circular when the entry is recursive), an `eof` index an eof edge, pointing at the entry's instruction, and its reference goes on scratch |
| DfaInstructions.EmitRefEdgesOf | gen/generate-dfa-instructions.js:246-275 | the loop over one bucket emits the reference edges of the entry |
| DfaInstructions.EmitRefEdges | gen/generate-dfa-instructions.js:245-276 | the loop over the entries emits the reference edges of all of them |
| DfaInstructions.CountNonRefs | gen/generate-dfa-instructions.js:293-301 | the count is the number of character indices in the bucket |
| DfaInstructions.AppendNonRefs | gen/generate-dfa-instructions.js:309-315 | the character indices of the bucket are appended to `extra`, in order |
| DfaInstructions.EmitAlphaEdge | gen/generate-dfa-instructions.js:293-322 | an entry with characters appends its length-prefixed character list to `extra` and an edge instruction reading it back; one without appends nothing |
| DfaInstructions.EmitAlphaEdges | gen/generate-dfa-instructions.js:292-323 | the loop emits the character lists and edges of all entries, with their references on scratch |
| DfaInstructions.EmitDefaults | gen/generate-dfa-instructions.js:278-290 | without a `fail` edge the implicit fail reference goes on scratch, and without an `eof` edge a default eof edge is appended and referenced |
| DfaInstructions.Pack | gen/generate-dfa-instructions.js:325-331 | the references above the scratch top go to `extra` as length and items, their position is returned, and scratch is cut back |
| DfaInstructions.EmitEdgeInsts | gen/generate-dfa-instructions.js:243-324 | the emission phase appends the reference edges, the defaults and the character edges, in that order, and their references go on scratch |
| DfaInstructions.EmitEdges | gen/generate-dfa-instructions.js:243-332 | the emission phase appends the edge instructions and the character lists, then the state's edge list, and returns its position, with scratch restored |
| DfaInstructions.EmittedTags | gen/generate-dfa-instructions.js:243-323 | every instruction emitted for a state's edges is an edge instruction |
| DfaInstructions.EdgeListShape | gen/generate-dfa-instructions.js:243-329 | every reference in the edge list is the implicit fail edge or one of the instructions just emitted |
| DfaInstructions.FailPresent | gen/generate-dfa-instructions.js:252-280 | the edge list always holds a fail edge: an emitted one when the state has a `fail` edge, the implicit one otherwise |
| DfaInstructions.EofPresent | gen/generate-dfa-instructions.js:264-290 | the edge list always holds an eof edge: an emitted one when the state has an `eof` edge, the default one otherwise |
| DfaInstructions.EmittedListAt | gen/generate-dfa-instructions.js:243-332 | the packed edge list lies in `extra` at the returned position and holds only edge references, a fail edge and an eof edge |
| DfaInstructions.EdgeListFromParts | gen/generate-dfa-instructions.js:325-329 | a list packed after `extra` whose references are edges and include a fail and an eof edge is such an edge list |
| DfaInstructions.PackedAt | gen/generate-dfa-instructions.js:325-329 | a list appended as length and items reads back from its position |
| DfaInstructions.ListedAll | gen/generate-dfa-instructions.js:243-329 | every reference of the edge list refers to an edge instruction emitted for the state |
| DfaGenerate.EdgeListGrow | gen/generate-dfa-instructions.js:243-332 | a state's edge list stays valid as instructions and `extra` grow |
| DfaGenerate.EdgeListPatch | gen/generate-dfa-instructions.js:145-150 | patching an instruction before the state's edges leaves its edge list valid |
| DfaGenerate.EdgeListLower | gen/generate-dfa-instructions.js:243-332 | an edge list whose edges come after one position also comes after any earlier one |
| DfaGenerate.StatesExtend | gen/generate-dfa-instructions.js:130-151 | the well-formed states before a call and those it emits together are well formed |
| DfaGenerate.StatesEdges | gen/generate-dfa-instructions.js:243-323 | appending edge instructions keeps every state well formed |
| DfaGenerate.StatesPatch | gen/generate-dfa-instructions.js:145-150 | patching an instruction before a range of states keeps them well formed |
| DfaGenerate.ScanMentions | gen/generate-dfa-instructions.js:157-241 | a `fail` or `eof` edge seen by the scan lands in the bucket of some entry |
| DfaGenerate.EdgePush | gen/generate-dfa-instructions.js:197-202 | pushing an edge scope changes neither the room left nor any scope search |
| DfaGenerate.StatePush | gen/generate-dfa-instructions.js:137-144 | pushing a state scope for a node not being compiled leaves less room |
| DfaGenerate.InnermostIn | gen/generate-dfa-instructions.js:204-206 | the scope found up the chain is one the call may mark reachable |
| DfaGenerate.EnterNode | gen/generate-dfa-instructions.js:67-152 | a missing or non-state node, a missing entry or an edge array that does not unpack throws; a token without a name throws an Error; a dead end without a token and with no token up the chain throws an Error; otherwise the node's state instruction is emitted at the next position, with its token, `stateAccepting` exactly when it has no edges, and every state emitted is well formed |
| DfaGenerate.EnterDeadEnd | gen/generate-dfa-instructions.js:82-131 | a node without edges throws an Error exactly when it has no token and no state scope up the chain has one; otherwise a `stateAccepting` instruction with its token is appended |
| DfaGenerate.EnterState | gen/generate-dfa-instructions.js:134-151 | a node with edges gets a reserved instruction, its edges are entered in a new state scope, and the instruction is patched with its token and edge list, never as `stateAccepting` |
| DfaGenerate.FinishState | gen/generate-dfa-instructions.js:145-151 | patching the reserved instruction with the token and edge list makes it a well-formed state |
| DfaGenerate.EnterEdges | gen/generate-dfa-instructions.js:154-333 | a scan failure is passed on; on success the stored edge list refers only to edges emitted for this state and holds a fail and an eof edge, and every state emitted is well formed |
| DfaGenerate.EmitEntries | gen/generate-dfa-instructions.js:243-332 | emitting the entries' edges stores such an edge list and keeps every state well formed |
| DfaGenerate.EmittedStates | gen/generate-dfa-instructions.js:243-332 | after the emission the edge list is valid and every earlier state stays well formed |
| DfaGenerate.EmittedListLower | gen/generate-dfa-instructions.js:243-332 | the emitted edge list comes after the state's own position |
| DfaGenerate.EnterBuckets | gen/generate-dfa-instructions.js:187-241 | each bucket becomes an entry with its target and indices, checked, recursive exactly when the target is being compiled up the chain |
| DfaGenerate.EnterBucket | gen/generate-dfa-instructions.js:188-241 | a target compiled up the chain is marked reachable and its instruction is referred to; any other is entered in an edge scope and its state instruction is the next one; the bucket's indices pass the checks |
| DfaGenerate.StartPatched | gen/generate-dfa-instructions.js:63 | patching the start instruction keeps the states after it well formed |
| DfaGenerate.Generate | gen/generate-dfa-instructions.js:47-65 | without node 0 a TypeError, with a non-root node 0 an Error; otherwise the first instruction is the start, referring to the start node's state instruction, which comes second, and every state instruction is well formed |
| Minimizer.KeyIndex | algs/minimizer.js:113-117 | the bucket lookup finds -1 exactly when no bucket has the key, and otherwise the first bucket that has it |
| Minimizer.Table | algs/minimizer.js:97-120 | the live buckets are keyed by the partitions reached, in the order first reached, and each holds exactly the states filed under its key, in order |
| Minimizer.MembersIn | algs/minimizer.js:97-120 | a bucket holds exactly the states of the partition whose image lands under its key, without repeats when the states have none |
| Minimizer.LiveKeysIn | algs/minimizer.js:97-120 | the live keys are distinct and are exactly the keys other than `ErrorState` with some state under them |
| Minimizer.MembersSnoc | algs/minimizer.js:113-119 | one more state joins its own key's bucket and no other |
| Minimizer.ErrorBucketStep | algs/minimizer.js:118-120 | a state with a dead image joins the error bucket |
| Minimizer.LiveKeysSnoc | algs/minimizer.js:113-117 | a new live key is added at the end, a known one changes nothing |
| Minimizer.InsertStep | algs/minimizer.js:113-117 | filing one more live state gives the table of the longer state list |
| Minimizer.DeadStep | algs/minimizer.js:118-120 | a state with a dead image leaves the live table unchanged |
| Minimizer.KeyIndexAt | algs/minimizer.js:113-117 | in a table with distinct keys the lookup of a key finds its own position |
| Minimizer.BucketsBucketed | algs/minimizer.js:97-145 | the buckets, with the error bucket last when it is nonempty, partition the states by key |
| Minimizer.BucketsFacts | algs/minimizer.js:97-145 | the buckets partition the states by key, cover every state, and are distinct and nonempty |
| Minimizer.SplitIff | algs/minimizer.js:154 | a nonempty partition yields more than one bucket exactly when its states do not all have the same key |
| Minimizer.WithoutIn | algs/minimizer.js:276-285 | dropping the already-queued positions leaves exactly the others, without repeats |
| Minimizer.WithoutSnoc | algs/minimizer.js:278-282 | one more reachable position is queued exactly when it is not already queued |
| Minimizer.NewPositions | algs/minimizer.js:182-184 | the partitions added by a split get the positions after the existing ones |
| Minimizer.PositionsIn | algs/minimizer.js:182-184 | each such position is among them |
| Minimizer.BucketStates | algs/minimizer.js:157-160 | the split parts are the buckets' states, in bucket order |
| Minimizer.Positioned | algs/minimizer.js:252-263 | each added partition is named by its position |
| Minimizer.SetNames | algs/minimizer.js:257-259 | the states of a new partition now name it and every other state keeps its partition |
| Minimizer.MinimizationContext.constructor | algs/minimizer.js:216-232 | a new context holds the DFA, with no names, partitions or reachable sets and an empty work list |
| Minimizer.MinimizationContext.AddPartition | algs/minimizer.js:252-263 | the partition is appended, named by its position, its states name it, it gets an empty reachable set and it is queued |
| Minimizer.MinimizationContext.AddReachable | algs/minimizer.js:265-274 | a name that is not a symbol, an index that is not a number or a name without a reachable set throws a TypeError and changes nothing; otherwise the index is added to that set |
| Minimizer.MinimizationContext.PushReachables | algs/minimizer.js:276-285 | every position reachable from the partition that is not already waiting is queued, in order, and its reachable set is cleared; an unknown name throws a TypeError |
| Minimizer.MinimizationContext.ToDfa | algs/minimizer.js:287-330 | with no partitions, or a representative whose `delta` throws, a TypeError; otherwise a fresh DFA with the same alphabet, whose start is the start's partition, whose states are the partitions, accepting exactly when their first state accepts, with an edge wherever the first state's image is live |
| Minimizer.PushAll | algs/minimizer.js:278-282 | the loop queues every reachable position not already waiting, in order |
| Minimizer.AddPartitions | algs/minimizer.js:182-184 | the parts are appended as partitions named by their positions, each with an empty reachable set, queued, and their states name them |
| Minimizer.SplitNamed | algs/minimizer.js:154-199 | after a split every partition is still named by its position and holds distinct states |
| Minimizer.SplitPlaced | algs/minimizer.js:168-184 | after a split every state still names the partition that holds it |
| Minimizer.SplitPointed | algs/minimizer.js:168-184 | after a split every partition's states still name it |
| Minimizer.SplitQueued | algs/minimizer.js:178-193 | after a split the reachable sets and the work list hold only partition positions |
| Minimizer.SplitStructure | algs/minimizer.js:154-199 | a split keeps the context's bookkeeping consistent |
| Minimizer.BucketParts | algs/minimizer.js:157-160 | the buckets of a partition are disjoint and all their states name that partition |
| Minimizer.Split | algs/minimizer.js:154-199 | the last bucket stays in the partition, which is requeued unless it waits already, the others become new partitions, and everything reachable from it is queued |
| Minimizer.FileState | algs/minimizer.js:97-120 | a state whose `delta` throws throws a TypeError; a dead image files it in the error bucket; a live one files it under the image's partition and records the partition as reaching it |
| Minimizer.FileNext | algs/minimizer.js:97-120 | filing one more state extends the reference table, error bucket and reachable marks |
| Minimizer.FileStates | algs/minimizer.js:97-145 | the state loop gives exactly the reference buckets and marks, or a TypeError when some state's `delta` throws |
| Minimizer.ProcessAlpha | algs/minimizer.js:82-207 | a TypeError exactly when some state's `delta` throws; otherwise true exactly when the partition's states fall into more than one bucket, in which case the partition is split by the buckets, and otherwise only the reachable marks change |
| Minimizer.MarkedGrows | algs/minimizer.js:109 | marking reachability only adds to the reachable sets |
| Minimizer.RefinedGrows | algs/minimizer.js:109 | stability survives more reachable marks |
| Minimizer.StableMarked | algs/minimizer.js:97-120 | a partition whose states do not split on an index is stable on it once marked |
| Minimizer.KeyKept | algs/minimizer.js:168-184 | a state whose image is outside the split partition keeps its key |
| Minimizer.StableSplit | algs/minimizer.js:168-193 | a stable partition whose images avoid the split partition stays stable |
| Minimizer.RefinedSplit | algs/minimizer.js:154-199 | after a split, every partition not waiting in the work list is still stable on every index |
| Minimizer.Untouched | algs/minimizer.js:178-193 | a partition not waiting after a split was not the one split, not waiting before, and did not reach the split partition |
| Minimizer.StableAfterSplit | algs/minimizer.js:168-193 | a partition stable before the split and not reaching the split partition is stable after it |
| Minimizer.SplitStep | algs/minimizer.js:154-199 | a split keeps the bookkeeping consistent, the partitions uniform and the stability of every partition not waiting |
| Minimizer.UniformSplit | algs/minimizer.js:154-184 | splitting a partition that is wholly accepting or wholly not gives parts that are too |
| Minimizer.UniformAfter | algs/minimizer.js:154-184 | after a split every partition is still wholly accepting or wholly not |
| Minimizer.StableStep | algs/minimizer.js:62-73 | an index that does not split the partition leaves it stable on that index |
| Minimizer.StablePrefix | algs/minimizer.js:62-73 | the indices already passed stay stable after the next one |
| Minimizer.RefinedDone | algs/minimizer.js:62-73 | a partition stable on every index no longer needs to wait |
| Minimizer.ProcessWorkset | algs/minimizer.js:55-73 | a TypeError exactly when there is an index and some state's `delta` throws; otherwise the partitions stay uniform, every partition not waiting is stable, either the partitions grew or the work list is unchanged, and states are separated only where some index's images lie in different partitions |
| Minimizer.IndexPass | algs/minimizer.js:62-72 | one round of the index loop keeps the invariant and stops after a split, which separates only states whose images on the index lie in different partitions |
| Minimizer.RowAt | algs/minimizer.js:315-326 | the quotient state of a partition has an edge on an index exactly when the index is registered and the representative's image is live, and it leads to the image's partition |
| Minimizer.QuotientStep | algs/minimizer.js:311-327 | in a refined partition, the quotient's step from a state's partition is the partition of the state's step |
| Minimizer.QuotientRun | algs/minimizer.js:311-327 | the quotient's run on a word of registered indices from a state's partition is the partition of the state's run |
| Minimizer.QuotientAccepts | algs/minimizer.js:294-327 | the quotient accepts a word of registered indices from the start's partition exactly when the DFA accepts it from the start |
| Minimizer.BlankBuilt | algs/minimizer.js:294-303 | the vertices added by `toDfa` are those of the partitions, each without edges |
| Minimizer.BuiltStep | algs/minimizer.js:311-327 | adding a partition's row gives the quotient edges one partition further |
| Minimizer.BuiltAll | algs/minimizer.js:311-327 | the rows of all partitions are the quotient's edges |
| Minimizer.AcceptingStep | algs/minimizer.js:299-302 | a partition is an accepting state exactly when its first state accepts |
| Minimizer.AddVertices | algs/minimizer.js:294-303 | the vertex loop makes a state per partition and marks the accepting ones |
| Minimizer.AddVertex | algs/minimizer.js:295-302 | one round adds the partition's state unless it is the start, and marks it when its first state accepts |
| Minimizer.AddRow | algs/minimizer.js:314-326 | the row of a partition is added, or a TypeError when its representative's `delta` throws |
| Minimizer.AddCell | algs/minimizer.js:318-325 | one index adds the edge to the image's partition when the image is live |
| Minimizer.AddEdges | algs/minimizer.js:311-327 | the edge loop makes the quotient's edges, or a TypeError when some representative's `delta` throws |
| Minimizer.NonAccepting | algs/minimizer.js:16-20 | the non-accepting states are those that are neither `ErrorState` nor accepting, in order |
| Minimizer.PartitionCount | algs/minimizer.js:35-40 | there are never more partitions than named states |
| Minimizer.NoPartitions | algs/minimizer.js:291 | there are no partitions exactly when no state is named |
| Minimizer.RangeCard | algs/minimizer.js:294-303 | the quotient has as many states as there are partitions |
| Minimizer.QuotientSize | algs/minimizer.js:294-327 | the quotient's mappings have one entry per partition |
| Minimizer.FreshStructure | algs/minimizer.js:252-263 | adding a partition of new distinct states keeps the bookkeeping consistent |
| Minimizer.FreshUniform | algs/minimizer.js:23-28 | a seed partition that is wholly accepting or wholly not keeps the partitions uniform |
| Minimizer.AllPending | algs/minimizer.js:23-28 | while every partition waits, stability holds vacuously |
| Minimizer.SeedNames | algs/minimizer.js:13-28 | the seeded states are exactly the accepting states and the others but `ErrorState` |
| Minimizer.BadIsAccepting | algs/minimizer.js:16-20 | only an accepting state can lack a mapping, since the others come from the DFA's own states |
| Minimizer.WellFormedNames | algs/minimizer.js:13-28 | in a well-formed DFA the named states are closed under the edges, exclude `ErrorState` and include the start and the accepting states, none of which throws in `delta` |
| Minimizer.SeedPartition | algs/minimizer.js:23-28 | a seed partition is added when it is nonempty |
| Minimizer.SeedBoth | algs/minimizer.js:23-28 | the accepting states, then the others, become the first partitions, each when nonempty, so states in different partitions differ in acceptance |
| Minimizer.SeedSeparated | algs/minimizer.js:23-28 | states seeded into different partitions are told apart by the empty word |
| Minimizer.Seed | algs/minimizer.js:13-28 | the seeding names every state to partition, makes the partitions uniform, queues them all, and separates states of different partitions |
| Minimizer.DrainingStep | algs/minimizer.js:35-40 | one processed partition keeps the loop's invariant, separation of states in different partitions included |
| Minimizer.Process | algs/minimizer.js:35-36 | processing the next queued partition keeps the invariant, or throws a TypeError for an accepting state without a mapping |
| Minimizer.Round | algs/minimizer.js:35-40 | one round of the loop makes progress or ends it |
| Minimizer.Drain | algs/minimizer.js:35-40 | the work-list loop ends with every partition stable, or throws a TypeError for an accepting state without a mapping |
| Minimizer.Seeded | algs/minimizer.js:22-35 | the seeded context satisfies the loop's invariant |
| Minimizer.Drained | algs/minimizer.js:35-40 | when the work list runs out every partition is stable on every index, and states of different partitions are told apart |
| Minimizer.MinimizeDfa | algs/minimizer.js:12-48 | a TypeError exactly when there is no state to partition, or there is an index and an accepting state has no mapping; otherwise a fresh DFA over the same alphabet with no more states than the input; a well-formed DFA always succeeds, and the result is well formed, accepts exactly the same words of registered indices, has any two of its states told apart by a registered word, and keeps every state when the input's states are already pairwise told apart (so minimizing the result again keeps its size) |
| Minimizer.Partitioned | algs/minimizer.js:13-40 | the seeding and loop end with stable uniform partitions whose states in different partitions are told apart by a registered word, or throw a TypeError for an accepting state without a mapping |
| Minimizer.BadReps | algs/minimizer.js:311-327 | every partition's first state has a mapping when the accepting ones do |
| Minimizer.SameLanguage | algs/minimizer.js:287-330 | the DFA built from the stable partitions of a well-formed DFA accepts exactly the same words |
| Minimizer.Minimal | algs/minimizer.js:287-330 | the DFA built from the drained partitions of a well-formed DFA is well formed, any two of its states are told apart by a registered word, and it has as many states as the input has states when those are pairwise told apart |
| Minimizer.KeyApart | algs/minimizer.js:62-72 | two states whose images on a registered index lie in different partitions, or only one of which is dead, are told apart by a registered word |
| Minimizer.SeparatedStep | algs/minimizer.js:55-73 | a split that separates only states with differing images keeps all separated states told apart |
| Minimizer.SplitOnKeys | algs/minimizer.js:97-199 | the split of `processAlpha` gives two states different partitions only if they had different ones or their images on the index differ |
| Minimizer.ClassAlike | algs/minimizer.js:287-330 | the partition standing for a state accepts exactly when the state does, and is the error state exactly when it is |
| Minimizer.SamePartitionAlike | algs/minimizer.js:287-330 | once drained, no registered word tells apart two states of one partition |
| Minimizer.QuotientApart | algs/minimizer.js:287-330 | two different states of the rebuilt DFA are told apart by a registered word |
| Minimizer.NoMerge | algs/minimizer.js:287-330 | when every two states are told apart, the drained partitions are as many as the states |
| Minimizer.QuotientWellFormed | algs/minimizer.js:287-330 | the rebuilt DFA starts at a live state, its accepting states are states, and its edges lead to states |
| Js.At | gen/instruction.js:183-185 | `Array.prototype.at`: an element exactly for an index within the length either way, counting negative indices from the end |
| Js.FindIndex | nfa/subset-constructor.js:98 | `findIndex` gives -1 exactly when no element satisfies the test, and otherwise the first that does |
| Ordered.Add | algs/minimizer.js:273 | adding to an insertion-ordered set appends a new element at the end and leaves a present one in place, without repeats |
| Ordered.Filter | algs/minimizer.js:16-20 | the filtered sequence keeps exactly the elements that pass, in order |
| Ordered.ArrayFrom | algs/minimizer.js:13-20 | the sequence lists each element of the set exactly once |
| Sets.SetsAreEqualReflexive | utils/sets-are-equal.js:5-17 | every set equals itself |
| ArrayLists.Overwrite | utils/arraylist.js:49-57 | writing items from the current size overwrites the stale slots and extends the buffer only where needed, keeping what lies beyond |
| ArrayLists.OverwriteAppend | utils/arraylist.js:74-85 | appending items one by one is writing them all at once |
| NfaBuilders.StringLink | nfa/nfa-builder.js:88-91 | one round of `buildString` on the automaton is the reference step |
| NfaBuilders.SentinelLink | nfa/nfa-builder.js:35-42 | one round of `addSentinelString` on the automaton is the reference step |
| NfaBuilders.EdgeLink | nfa/nfa-builder.js:57-58 | one round of `addEdges` on the automaton is the reference step |
| SubsetConstructors.HandleEdgeAt | nfa/subset-constructor.js:65-70 | one call of `handleEdge` in the entry's loop extends the reference result by one alphabet index |

## Left out

- Names and descriptions. State names, Symbol descriptions and exception message texts are not modelled. States are integer handles and an exception is its class. The `InvalidCharError` index is kept.
- Logging and printing. `console.log` under `DEBUG` in `algs/minimizer.js` and `recognizer.js` changes no state. `printSubset`/`printSubsetNode` (nfa/subset-constructor.js:184-238), `traceScope` and `stringify` in gen/generate-dfa-instructions.js, `Partition.toString` and the `toJSON`/`getAlphaStringified` stringifiers only produce text.
- `getRootNode`, `extraSlice` and `getToken` in gen/instruction.js:187-201 are one-line reads. They are used inline where the generator reads them.
- `DfaScope` and `SCDIR` in gen/instruction.js:279-340 are runtime-type-checked records. The generator's scope chain is a sequence of `DfaInstructions.Scope` values, typed by construction, so the checks are not modelled.
- `MinimizationContext.from` (algs/minimizer.js:242-250) is a field-by-field type check of a record and is not modelled. The constructor is.
- `Uint32.verify` is `Math.floor` on a floating-point number. Elements are integers, so it is the identity. `ArrayListLike`'s check of `verify` is modelled (`ArrayLists.CheckTypeArg`), but other element types are not.
- `appendArray`'s `Array.isArray` check is not modelled: the argument is a sequence by type.
- Malformed automata are excluded by `Valid` preconditions. This covers edges to undeclared states, alphabet indices that are not registered, and NFA snapshots shared between objects. The source would propagate `undefined` there rather than fail cleanly.
- Callbacks are not modelled. Iteration protocols (`[Symbol.iterator]`) are modelled by the sequences they would yield, and a consumer that mutates the object mid-iteration is not captured, except for the work lists, whose cursor is modelled exactly.
- Iteration order of a JS `Set` or `Map` whose order is not observable in the result. Such a collection is a Dafny `set` or `map`.
- gen/generate.js, gen/run-instructions.js, gen/dfa-scope.js, utils/uint32arraylist.js, utils/poison-pill.js, utils/what-type.js, the re-export barrels and the test and driver scripts are not part of this model.
- SubsetConstruction.CompleteTableAccepts: the language theorem speaks of words of registered characters only. A character that has no index would follow `sigma` edges alone, and that run is not simulated.
- DfaGenerate.Generate: proves the start instruction, the start's state instruction and that every state instruction is well formed. It does not prove that the emitted program as a whole recognises the DFA's language. The edge and bucket lemmas state it locally, entry by entry.
- ArrayLists.ArrayList.Slice: the slice is a value that holds the buffer as it was when the slice was taken. In the source the slice shares the list's buffer, so a later `set`, `append` or `setSize` of that list shows through a slice kept across it. This is not captured. The callers in the source read or append each slice right after taking it, and of a different list.
- ArrayLists.ArrayList.AppendSlice: reads the slice's values as they were when it was taken, which is what the source does for a slice of another list. For a slice of the same list, the source's loop reads slots it has just written; that case is `ArrayLists.ArrayList.AppendOwnSlice`, and `ArrayLists.OwnAppendReadsWrites` shows the difference.
- Recognizers.TokenRecognizer.Next: indices count code points, and a character outside the Basic Multilingual Plane is read whole. The source reads `source.length` and `source.at(index)`, which count UTF-16 code units (recognizer.js:62-63, dst/recognizer.js:75-76). For such characters the token bounds differ, and a lone surrogate half never matches a character that `appendString` registered. For an automaton built from the string "😀", the source throws `InvalidCharError` at index 0 on the input "😀", where the model returns a token from 0 to 1.
- Js.Value: a JavaScript number is an integer here. Fractions, `NaN`, the infinities and `-0` are not modelled, so neither are the truncation of `at(1.5)` nor a `Map` lookup of `NaN`. This affects every member that takes a `Number`: `Js.At`, `Js.ToIntegerOrInfinity`, `ArrayLists.SliceFrom`, `ArrayLists.BufferAt`, `ArrayLists.Slice.At`, `ArrayLists.ArrayList.At`, `ArrayLists.ArrayList.Set`, `ArrayLists.ArrayList.SetSize`, `ArrayLists.ArrayList.Slice`, `IndexNfa.NFA.Delta`, `SymbolDfa.DeterministicFiniteAutomata.AddEdge`, `SymbolDfa.DeterministicFiniteAutomata.Delta`, `SymbolNfa.NondeterministicFiniteAutomata.Delta`, `NfaBuilders.NFABuilder.AddEdges`, `Minimizer.MinimizationContext.AddReachable`, `StrictSubsets.Subset.GetArray` and `Tables.PositionFrom`.
- `iter()` of dst/worklist.js: that class has no `iter()`, which utils/worklist.js:22-27 has. Were algs/subset-construction.js:20 to run with the dst class, its `subset.worklist.iter()` would throw a TypeError before the first round. The model follows utils/worklist.js and does not capture that failure.
- Minimizer.MinimizeDfa: the result is minimal in that a registered word tells any two of its states apart. Unreachable states are kept, as the source keeps them, so the result need not be the smallest DFA of its language.
- `Token` and `InvalidCharError` objects are values (`Recognizers.Token`, `Js.InvalidCharError`), not objects with an identity.

## Findings

| source | as written | input that shows it | evidently intended | confidence | as-written member | corrected member |
|---|---|---|---|---|---|---|
| algs/subset-construction.js:110 | `this.table.get({ row, col }).deref` reads a property of the plain number pushed at lines 40, 46 and 50. That is `undefined`, which is never `-1`, so every cell adds an edge, and `entries.at(undefined)` is entry 0, so every edge goes to the start | an NFA whose only state `0` is the start, accepts and has no edges, with the one character `"a"` at index 2: the table cell is `-1`, yet the DFA as written has an edge back to the start on `"a"` and accepts `"a"`, which the NFA rejects | read the cell itself: skip `-1`, otherwise add an edge to the entry the cell names | high (not executed) | SubsetConstruction.AsWrittenAcceptsTooMuch | SubsetConstruction.Subset.ToDfa |
