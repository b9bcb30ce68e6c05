/** nfa/strict-subset.js: the records the integer-indexed subset construction produces,
    their runtime validators, the generator state it grows, and the finished `Subset`. */
module StrictSubsets {
  import opened Js
  import Automata
  import opened IndexNfa
  import WorkLists
  import ArrayLists

  /** `SubsetNode.Tag`. */
  const RootTag: int := 0
  const EdgeTag: int := 1
  const StateTag: int := 2

  /** `SubsetEntry`: a set of NFA states in insertion order, the accepting state among
      them (or `ErrorState`), and the node that stands for the entry. */
  datatype Entry = Entry(states: seq<int>, found: int, node: int)

  /** `SubsetNode` with its `Data` pair inlined. */
  datatype Node = Node(tag: int, data1: int, data2: int)

  /** `SubsetEntry.from(inst)`: `states` must be an object and `found` and `node` numbers;
      a missing or mistyped field throws. */
  function EntryCheck(inst: Record): (r: Outcome)
    ensures r.Done? <==> HasField(inst, "states", "object") && HasField(inst, "found", "number") && HasField(inst, "node", "number")
    ensures r.Thrown? ==> r.exception == Error
  {
    if !("states" in inst) || TypeOf(inst["states"]) != "object" then Thrown(Error)
    else if !("found" in inst) || TypeOf(inst["found"]) != "number" then Thrown(Error)
    else if !("node" in inst) || TypeOf(inst["node"]) != "number" then Thrown(Error)
    else Done
  }

  /** `SubsetNode.Data.from(inst)`: `data1` and `data2` must be numbers. */
  function DataCheck(inst: Record): (r: Outcome)
    ensures r.Done? <==> HasField(inst, "data1", "number") && HasField(inst, "data2", "number")
    ensures r.Thrown? ==> r.exception == Error
  {
    if !("data1" in inst) || TypeOf(inst["data1"]) != "number" then Thrown(Error)
    else if !("data2" in inst) || TypeOf(inst["data2"]) != "number" then Thrown(Error)
    else Done
  }

  /** `SubsetNode.from(inst)`: `tag` must be a number and `data` an object, whose fields
      `data` holds and `Data.from` then checks. */
  function NodeCheck(inst: Record, data: Record): (r: Outcome)
    ensures r.Done? <==> (HasField(inst, "tag", "number") && HasField(inst, "data", "object") &&
      HasField(data, "data1", "number") && HasField(data, "data2", "number"))
    ensures r.Thrown? ==> r.exception == Error
  {
    if !("tag" in inst) || TypeOf(inst["tag"]) != "number" then Thrown(Error)
    else if !("data" in inst) || TypeOf(inst["data"]) != "object" then Thrown(Error)
    else DataCheck(data)
  }

  /** `Subset.from(inst)`: the six fields must all be objects. */
  function SubsetCheck(inst: Record): (r: Outcome)
    ensures r.Done? <==> (HasField(inst, "nfa", "object") && HasField(inst, "tokens", "object") &&
      HasField(inst, "alphabets", "object") && HasField(inst, "entries", "object") &&
      HasField(inst, "nodes", "object") && HasField(inst, "extra", "object"))
    ensures r.Thrown? ==> r.exception == Error
  {
    if !("nfa" in inst) || TypeOf(inst["nfa"]) != "object" then Thrown(Error)
    else if !("tokens" in inst) || TypeOf(inst["tokens"]) != "object" then Thrown(Error)
    else if !("alphabets" in inst) || TypeOf(inst["alphabets"]) != "object" then Thrown(Error)
    else if !("entries" in inst) || TypeOf(inst["entries"]) != "object" then Thrown(Error)
    else if !("nodes" in inst) || TypeOf(inst["nodes"]) != "object" then Thrown(Error)
    else if !("extra" in inst) || TypeOf(inst["extra"]) != "object" then Thrown(Error)
    else Done
  }

  /** The record `pushEntry` is given for an entry, as `SubsetEntry.from` sees it. */
  function EntryRecord(e: Entry): Record
  {
    map["states" := Object, "found" := Number(e.found), "node" := Number(e.node)]
  }

  /** The records `addNode` is given for a node. */
  function NodeRecord(n: Node): Record
  {
    map["tag" := Number(n.tag), "data" := Object]
  }

  function DataRecord(n: Node): Record
  {
    map["data1" := Number(n.data1), "data2" := Number(n.data2)]
  }

  /** Every entry and node the construction builds passes its validator, so `pushEntry`
      and `addNode` never throw. */
  lemma RecordsPass(e: Entry, n: Node)
    ensures EntryCheck(EntryRecord(e)) == Done
    ensures NodeCheck(NodeRecord(n), DataRecord(n)) == Done
  {
    assert HasField(EntryRecord(e), "states", "object");
    assert HasField(NodeRecord(n), "data", "object");
  }

  /** The work list holds the entry positions `0..n-1` in order. */
  ghost predicate Queued(buffer: seq<int>, n: nat)
  {
    |buffer| == n && forall k | 0 <= k < |buffer| :: buffer[k] == k
  }

  /** `SubsetGen`: the NFA it reads (its mappings, accepting states and alphabet, which
      the construction never changes), the token names, the entries with their work list,
      the nodes, the `extra` buffer of length-prefixed arrays and the `scratch` stack. */
  class SubsetGen {
    const mappings: Mappings
    const accepting: set<int>
    const alphabet: Automata.Alphabet
    const tokens: map<int, Value>
    /** `Array.from(nfa.alphabets.keys())`. */
    const alphabets: seq<string>
    const worklist: WorkLists.WorkList<int>
    var entries: seq<Entry>
    var nodes: seq<Node>
    const extra: ArrayLists.ArrayList
    const scratch: ArrayLists.ArrayList

    /** The work list queues exactly the entries; `extra` is only ever appended to, so
        its buffer holds nothing beyond its size. */
    ghost predicate Valid()
      reads this, worklist, extra, scratch
    {
      worklist.Valid() && Queued(worklist.buffer, |entries|) &&
      extra != scratch && extra.Valid() && extra.current == |extra.buffer| && scratch.Valid()
    }

    /** `new SubsetGen(nfa, tokens)`: nothing built yet. */
    constructor (nfa: NFA, tokens: map<int, Value>)
      ensures Valid() && fresh(worklist) && fresh(extra) && fresh(scratch)
      ensures mappings == nfa.mappings && accepting == nfa.accepting && alphabet == nfa.alphabets
      ensures this.tokens == tokens && alphabets == nfa.alphabets.keys
      ensures entries == [] && nodes == [] && worklist.index == 0
      ensures extra.buffer == [] && scratch.Items() == []
    {
      mappings := nfa.mappings;
      accepting := nfa.accepting;
      alphabet := nfa.alphabets;
      this.tokens := tokens;
      alphabets := nfa.alphabets.keys;
      worklist := new WorkLists.WorkList([]);
      entries := [];
      nodes := [];
      extra := new ArrayLists.ArrayList();
      scratch := new ArrayLists.ArrayList();
    }

    /** `pushEntry(entry)`: the entry goes to the end, and its position is queued and
        returned. */
    method PushEntry(entry: Entry) returns (entryIndex: int)
      requires Valid()
      modifies this, worklist
      ensures Valid()
      ensures entryIndex == |old(entries)| && entries == old(entries) + [entry] && nodes == old(nodes)
      ensures worklist.buffer == old(worklist.buffer) + [entryIndex] && worklist.index == old(worklist.index)
    {
      entryIndex := |entries|;
      entries := entries + [entry];
      worklist.Add(entryIndex);
    }

    /** `addNode(node)`: the node goes to the end and its position is returned. */
    method AddNode(node: Node) returns (nodeIndex: int)
      requires Valid()
      modifies this
      ensures Valid()
      ensures nodes == old(nodes) + [node] && nodeIndex == |nodes| - 1 && entries == old(entries)
    {
      nodes := nodes + [node];
      nodeIndex := |nodes| - 1;
    }
  }

  /** `Subset`: the finished construction. */
  datatype Subset = Subset(tokens: map<int, Value>, alphabets: seq<string>, entries: seq<Entry>, nodes: seq<Node>, extra: seq<int>)
  {
    /** `getArray(extraIndex)`: the length stored at `extraIndex` and the window of that
        many values right after it. Reading outside `extra`, or a window past its end or
        with a negative length, throws. */
    function GetArray(extraIndex: Value): (r: Result<ArrayLists.Slice>)
      ensures !extraIndex.Number? ==> r == Throw(TypeError)
      ensures r.Ok? ==> r.value.Valid() && r.value.buffer == extra
      ensures extraIndex.Number? && 0 <= extraIndex.num < |extra| ==>
        (r.Ok? <==> 0 <= extra[extraIndex.num] && extraIndex.num + 1 + extra[extraIndex.num] <= |extra|)
      ensures r.Ok? && 0 <= extraIndex.num < |extra| ==>
        r.value.Elements() == extra[extraIndex.num + 1..extraIndex.num + 1 + extra[extraIndex.num]]
    {
      var lens :- ArrayLists.BufferAt(extra, extraIndex);
      ArrayLists.SliceFrom(extra, Number(extraIndex.num + 1), Number(extraIndex.num + 1 + lens))
    }
  }

  /** An array stored length-prefixed at the end of `extra` is read back whole by
      `getArray` at the position of its length. */
  lemma GetArrayPacked(s: Subset, values: seq<int>)
    requires |s.extra| >= 1 + |values|
    requires s.extra[|s.extra| - 1 - |values|] == |values| && s.extra[|s.extra| - |values|..] == values
    ensures var r := s.GetArray(Number(|s.extra| - 1 - |values|)); r.Ok? && r.value.Elements() == values
  {
  }
}
