/** gen/generate-dfa-instructions.js, the recursive part: `generate`, `enterNode`,
    `enterEdges` and the `enterBucket` callback. A node is compiled inside the chain of
    scopes that led to it; its state instruction is reserved first and patched once its
    edges are stored, and a bucket whose target is already being compiled further up the
    chain becomes a circular edge to that target's reserved instruction. */
module DfaGenerate {
  import opened Js
  import IndexNfa
  import StrictSubsets
  import opened Instructions
  import opened DfaInstructions

  /** The instruction at position `q` is a state whose edge list, unless it has none,
      refers only to edges emitted after it and holds a fail and an eof edge. */
  ghost predicate StateEmitted(insts: seq<Inst>, extra: seq<int>, q: int)
  {
    0 <= q < |insts| && IsStateTag(insts[q].tag) &&
    (insts[q].tag != TagStateAccepting ==> EdgeListAt(insts, extra, insts[q].data2, q + 1))
  }

  /** Every state instruction at a position from `lo` up to `hi` is well formed. */
  ghost predicate StatesBetween(insts: seq<Inst>, extra: seq<int>, lo: int, hi: int)
  {
    forall q | lo <= q < hi && 0 <= q < |insts| && IsStateTag(insts[q].tag) :: StateEmitted(insts, extra, q)
  }

  /** An edge list survives appending instructions and appending to `extra`. */
  lemma EdgeListGrow(insts: seq<Inst>, extra: seq<int>, x: int, n0: int, insts': seq<Inst>, extra': seq<int>)
    requires EdgeListAt(insts, extra, x, n0) && insts <= insts' && extra <= extra'
    ensures EdgeListAt(insts', extra', x, n0)
  {
    var list := ListAt(extra, x);
    assert extra'[x] == extra[x];
    assert ListAt(extra', x) == list by {
      assert extra'[x + 1..x + 1 + extra[x]] == extra[x + 1..x + 1 + extra[x]];
    }
    forall k | 0 <= k < |list|
      ensures Listed(insts', n0, list[k])
    {
      if list[k] != RefEdgeFailImplicit {
        assert insts'[list[k] - InstructionRefOffset] == insts[list[k] - InstructionRefOffset];
      }
    }
    var i :| 0 <= i < |list| && FailRef(insts, list[i]);
    if list[i] != RefEdgeFailImplicit {
      assert insts'[list[i] - InstructionRefOffset] == insts[list[i] - InstructionRefOffset];
    }
    assert FailRef(insts', list[i]);
    var j :| 0 <= j < |list| && EofRef(insts, list[j]);
    assert insts'[list[j] - InstructionRefOffset] == insts[list[j] - InstructionRefOffset];
    assert EofRef(insts', list[j]);
  }

  /** Patching an instruction emitted before the listed edges leaves the list intact. */
  lemma EdgeListPatch(insts: seq<Inst>, extra: seq<int>, x: int, n0: int, p: int, inst: Inst)
    requires EdgeListAt(insts, extra, x, n0) && 0 <= p < n0 && p < |insts|
    ensures EdgeListAt(insts[p := inst], extra, x, n0)
  {
    var list := ListAt(extra, x);
    var patched := insts[p := inst];
    forall k | 0 <= k < |list|
      ensures Listed(patched, n0, list[k])
    {
      if list[k] != RefEdgeFailImplicit {
        assert patched[list[k] - InstructionRefOffset] == insts[list[k] - InstructionRefOffset];
      }
    }
    var i :| 0 <= i < |list| && FailRef(insts, list[i]);
    assert Listed(insts, n0, list[i]);
    if list[i] != RefEdgeFailImplicit {
      assert patched[list[i] - InstructionRefOffset] == insts[list[i] - InstructionRefOffset];
    }
    assert FailRef(patched, list[i]);
    var j :| 0 <= j < |list| && EofRef(insts, list[j]);
    assert Listed(insts, n0, list[j]);
    assert patched[list[j] - InstructionRefOffset] == insts[list[j] - InstructionRefOffset];
    assert EofRef(patched, list[j]);
  }

  /** A list of edges emitted from `n1` on is a list of edges emitted from any `n0 <= n1`
      on. */
  lemma EdgeListLower(insts: seq<Inst>, extra: seq<int>, x: int, n0: int, n1: int)
    requires n0 <= n1 && EdgeListAt(insts, extra, x, n1)
    ensures EdgeListAt(insts, extra, x, n0)
  {
    var list := ListAt(extra, x);
    assert forall k | 0 <= k < |list| :: Listed(insts, n1, list[k]) ==> Listed(insts, n0, list[k]);
  }

  /** Well-formed states stay well formed when more is appended, and the states appended
      since join them. */
  lemma StatesExtend(insts: seq<Inst>, extra: seq<int>, lo: int, insts': seq<Inst>, extra': seq<int>)
    requires StatesBetween(insts, extra, lo, |insts|) && insts <= insts' && extra <= extra'
    requires StatesBetween(insts', extra', |insts|, |insts'|)
    ensures StatesBetween(insts', extra', lo, |insts'|)
  {
    forall q | lo <= q < |insts| && 0 <= q && IsStateTag(insts'[q].tag)
      ensures StateEmitted(insts', extra', q)
    {
      assert insts'[q] == insts[q];
      if insts[q].tag != TagStateAccepting {
        EdgeListGrow(insts, extra, insts[q].data2, q + 1, insts', extra');
      }
    }
  }

  /** Appending edge instructions adds no state to check. */
  lemma StatesEdges(insts: seq<Inst>, extra: seq<int>, lo: int, e: seq<Inst>, extra': seq<int>)
    requires StatesBetween(insts, extra, lo, |insts|) && extra <= extra'
    requires forall j | 0 <= j < |e| :: IsEdgeTag(e[j].tag)
    ensures StatesBetween(insts + e, extra', lo, |insts + e|)
  {
    var insts' := insts + e;
    forall q | |insts| <= q < |insts'|
      ensures !IsStateTag(insts'[q].tag)
    {
      assert insts'[q] == e[q - |insts|];
    }
    StatesExtend(insts, extra, lo, insts', extra');
  }

  /** Patching an instruction before `lo` keeps the states from `lo` on well formed. */
  lemma StatesPatch(insts: seq<Inst>, extra: seq<int>, lo: int, p: int, inst: Inst)
    requires StatesBetween(insts, extra, lo, |insts|) && 0 <= p < lo && p < |insts|
    ensures StatesBetween(insts[p := inst], extra, lo, |insts|)
  {
    var patched := insts[p := inst];
    forall q | lo <= q < |insts| && IsStateTag(patched[q].tag)
      ensures StateEmitted(patched, extra, q)
    {
      assert patched[q] == insts[q];
      if insts[q].tag != TagStateAccepting {
        EdgeListPatch(insts, extra, insts[q].data2, q + 1, p, inst);
      }
    }
  }

  /** What `enterNode` reads for `nodeIndex` before it emits anything: the node must exist
      and be a state node, its entry must exist and its edge array must unpack. The result
      is the entry's token index (-1 for none) and the positions of the node's edge nodes. */
  function NodeInfo(subset: StrictSubsets.Subset, nodeIndex: int): Result<(int, seq<int>)>
  {
    var node := At(subset.nodes, nodeIndex);
    if node.None? then Throw(TypeError)
    else if node.value.tag != StrictSubsets.StateTag then Throw(Error)
    else
      var entry := At(subset.entries, node.value.data1);
      if entry.None? then Throw(TypeError)
      else
        var edges := subset.GetArray(Number(node.value.data2));
        if edges.Throw? then Throw(edges.exception) else Ok((entry.value.found, edges.value.Elements()))
  }

  /** An entry of `enterEdges` made from a bucket: same target and indices, checked, and
      recursive exactly when the target is being compiled somewhere up the chain. */
  ghost predicate Entered(chain: seq<Scope>, b: Bucket, e: EdgeEntry)
  {
    e.next == b.target && e.alphas == b.alphas && BucketOk(e.alphas, e.recursive) &&
    (e.recursive <==> Innermost(chain, b.target).Some?)
  }

  /** When a scan that succeeded saw an edge labelled `a`, some entry made from the
      buckets holds `a`. */
  lemma ScanMentions(subset: StrictSubsets.Subset, edges: seq<int>, entries: seq<EdgeEntry>, a: int)
    requires ScanEdges(subset.nodes, edges, |edges|).Ok? && PairsOf(subset, edges, |edges|).Ok?
    requires var buckets := Bucketed(PairsOf(subset, edges, |edges|).value);
      |entries| == |buckets| && forall j | 0 <= j < |entries| :: entries[j].alphas == buckets[j].alphas
    requires exists k | 0 <= k < |edges| :: EdgeLabel(subset.nodes, edges, k, a)
    ensures Mentions(entries, a)
  {
    var pairs := PairsOf(subset, edges, |edges|).value;
    ScanPairs(subset, edges, |edges|);
    var k :| 0 <= k < |edges| && EdgeLabel(subset.nodes, edges, k, a);
    assert EdgeLabel(subset.nodes, edges, k, pairs[k].1);
    BucketsCover(pairs, k);
    BucketedMeaning(pairs);
    var ts := Targets(pairs);
    var j :| 0 <= j < |ts| && ts[j] == pairs[k].0;
    assert a in entries[j].alphas;
  }

  /** Every state scope of the chain is among `scopes`, the objects a call may update. */
  ghost predicate InScopes(chain: seq<Scope>, scopes: set<StateScope>)
  {
    forall k | 0 <= k < |chain| && chain[k].State? :: chain[k].scope in scopes
  }

  /** Entering an edge scope changes neither the room left nor the scopes compiling a
      node. */
  lemma EdgePush(subset: StrictSubsets.Subset, chain: seq<Scope>, e: Scope, scopes: set<StateScope>, t: int)
    requires e.Edge? && InScopes(chain, scopes)
    ensures Room(subset, chain + [e]) == Room(subset, chain) && InScopes(chain + [e], scopes)
    ensures Innermost(chain + [e], t) == Innermost(chain, t)
  {
    ChainPush(chain, e);
    assert (chain + [e])[..|chain|] == chain;
    var c := chain + [e];
    assert forall k | 0 <= k < |chain| :: c[k] == chain[k];
  }

  /** Entering a state scope for a node that is not being compiled uses up room. */
  lemma StatePush(subset: StrictSubsets.Subset, chain: seq<Scope>, s: StateScope, scopes: set<StateScope>)
    requires s.nodeIndex in NodeRange(|subset.nodes|) && Innermost(chain, s.nodeIndex).None? && InScopes(chain, scopes)
    ensures Room(subset, chain + [State(s)]) < Room(subset, chain) && InScopes(chain + [State(s)], scopes + {s})
  {
    InnermostMeaning(chain, s.nodeIndex);
    RoomShrinks(subset, chain, s);
    var c := chain + [State(s)];
    assert forall k | 0 <= k < |chain| :: c[k] == chain[k];
  }

  /** The scope found for a target is one a call may update. */
  lemma InnermostIn(chain: seq<Scope>, t: int, scopes: set<StateScope>)
    requires InScopes(chain, scopes) && Innermost(chain, t).Some?
    ensures Innermost(chain, t).value in scopes
  {
    InnermostMeaning(chain, t);
  }

  /** `enterNode(ctx, parentScope, nodeIndex)`: a node without edges becomes a finished
      state instruction on the spot; a node with edges reserves its instruction, compiles
      its edges inside a new state scope and patches the instruction with the edge list
      and with whether an edge further down came back to it. The chain's state scopes are
      among `scopes`; `room` bounds how many more state scopes the chain can take. */
  method EnterNode(ctx: CompilationContext, chain: seq<Scope>, nodeIndex: int, ghost scopes: set<StateScope>, ghost room: nat)
    returns (r: Result<int>)
    requires ctx.Valid() && Innermost(chain, nodeIndex).None?
    requires InScopes(chain, scopes) && Room(ctx.subset, chain) <= room
    modifies ctx, ctx.extra, ctx.scratch, scopes
    decreases room, 1
    ensures ctx.Valid() && old(ctx.instructions) <= ctx.instructions && old(ctx.extra.buffer) <= ctx.extra.buffer
    ensures ctx.scratch.Items() == old(ctx.scratch.Items())
    ensures forall s | s in scopes :: old(s.reachable) ==> s.reachable
    ensures var info := NodeInfo(ctx.subset, nodeIndex);
      (info.Throw? ==> r == Throw(info.exception)) &&
      (info.Ok? && info.value.0 != -1 && info.value.0 !in ctx.subset.tokens ==> r == Throw(Error)) &&
      (info.Ok? && |info.value.1| == 0 && info.value.0 == -1 && !AcceptingAbove(chain) ==> r == Throw(Error))
    ensures r.Ok? ==> var n0 := |old(ctx.instructions)|; var info := NodeInfo(ctx.subset, nodeIndex);
      r.value == n0 + InstructionRefOffset && info.Ok? &&
      StateEmitted(ctx.instructions, ctx.extra.buffer, n0) &&
      StatesBetween(ctx.instructions, ctx.extra.buffer, n0, |ctx.instructions|) &&
      ctx.instructions[n0].data1 == info.value.0 &&
      (ctx.instructions[n0].tag == TagStateAccepting <==> |info.value.1| == 0)
  {
    var info := NodeInfo(ctx.subset, nodeIndex);
    if info.Throw? {
      return Throw(info.exception);
    }
    var (tokenIndex, edges) := info.value;
    if tokenIndex != -1 && tokenIndex !in ctx.subset.tokens {
      return Throw(Error);
    }
    if |edges| == 0 {
      r := EnterDeadEnd(ctx, chain, tokenIndex);
    } else {
      r := EnterState(ctx, chain, nodeIndex, tokenIndex, edges, scopes, room);
    }
  }

  /** `enterNode` for a node without edges: unless it has a token, some state up the chain
      must have one; the node becomes a `stateAccepting` instruction. */
  method EnterDeadEnd(ctx: CompilationContext, chain: seq<Scope>, tokenIndex: int) returns (r: Result<int>)
    requires ctx.Valid()
    modifies ctx
    ensures ctx.Valid() && ctx.extra.buffer == old(ctx.extra.buffer)
    ensures r.Throw? <==> tokenIndex == -1 && !AcceptingAbove(chain)
    ensures r.Throw? ==> r == Throw(Error) && ctx.instructions == old(ctx.instructions)
    ensures r.Ok? ==> var n0 := |old(ctx.instructions)|;
      ctx.instructions == old(ctx.instructions) + [Inst(TagStateAccepting, tokenIndex, -1)] &&
      r.value == n0 + InstructionRefOffset &&
      StateEmitted(ctx.instructions, ctx.extra.buffer, n0) &&
      StatesBetween(ctx.instructions, ctx.extra.buffer, n0, |ctx.instructions|)
  {
    if tokenIndex == -1 {
      var found := TraceAccepting(chain);
      if !found {
        return Throw(Error);
      }
    }
    var ref := ctx.AddStateInst(StateArgs(false, tokenIndex, 0, 0));
    r := Ok(ref);
  }

  /** `enterNode` for a node with edges: reserves its state instruction, enters its edges
      under a new state scope, then patches the instruction. */
  method EnterState(ctx: CompilationContext, chain: seq<Scope>, nodeIndex: int, tokenIndex: int, edges: seq<int>,
                    ghost scopes: set<StateScope>, ghost room: nat)
    returns (r: Result<int>)
    requires ctx.Valid() && -|ctx.subset.nodes| <= nodeIndex < |ctx.subset.nodes| && Innermost(chain, nodeIndex).None?
    requires InScopes(chain, scopes) && Room(ctx.subset, chain) <= room
    modifies ctx, ctx.extra, ctx.scratch, scopes
    decreases room, 0
    ensures ctx.Valid() && old(ctx.instructions) <= ctx.instructions && old(ctx.extra.buffer) <= ctx.extra.buffer
    ensures ctx.scratch.Items() == old(ctx.scratch.Items())
    ensures forall s | s in scopes :: old(s.reachable) ==> s.reachable
    ensures r.Ok? ==> var n0 := |old(ctx.instructions)|;
      r.value == n0 + InstructionRefOffset &&
      StateEmitted(ctx.instructions, ctx.extra.buffer, n0) &&
      StatesBetween(ctx.instructions, ctx.extra.buffer, n0, |ctx.instructions|) &&
      ctx.instructions[n0].data1 == tokenIndex && ctx.instructions[n0].tag != TagStateAccepting
  {
    ghost var i0 := ctx.instructions;
    var instIndex := ctx.MakeStateInst();
    var scope := new StateScope(nodeIndex, instIndex, tokenIndex != -1);
    StatePush(ctx.subset, chain, scope, scopes);
    var edgesIndex := EnterEdges(ctx, chain + [State(scope)], edges, scopes + {scope}, room - 1);
    if edgesIndex.Throw? {
      return Throw(edgesIndex.exception);
    }
    FinishState(ctx, i0, instIndex, scope.reachable, tokenIndex, edgesIndex.value);
    r := Ok(instIndex);
  }

  /** The end of `enterNode` for a node with edges: `setStateInst` with the edge list
      stored at `x` and its length read back from `extra`. */
  method FinishState(ctx: CompilationContext, ghost i0: seq<Inst>, instIndex: int, reachable: bool, tokenIndex: int, x: int)
    requires ctx.Valid() && i0 + [Placeholder] <= ctx.instructions && instIndex == |i0| + InstructionRefOffset
    requires EdgeListAt(ctx.instructions, ctx.extra.buffer, x, |i0| + 1)
    requires StatesBetween(ctx.instructions, ctx.extra.buffer, |i0| + 1, |ctx.instructions|)
    modifies ctx
    ensures ctx.Valid() && i0 <= ctx.instructions && |ctx.instructions| == |old(ctx.instructions)|
    ensures StateEmitted(ctx.instructions, ctx.extra.buffer, |i0|)
    ensures StatesBetween(ctx.instructions, ctx.extra.buffer, |i0|, |ctx.instructions|)
    ensures ctx.instructions[|i0|].data1 == tokenIndex && ctx.instructions[|i0|].tag != TagStateAccepting
  {
    var n0 := |i0|;
    assert ctx.instructions[n0] == (i0 + [Placeholder])[n0];
    EdgeListLong(ctx.instructions, ctx.extra.buffer, x, n0 + 1);
    var edgesLength := ctx.extra.At(Number(x)).value;
    ghost var i1 := ctx.instructions;
    var args := StateArgs(reachable, tokenIndex, x, edgesLength);
    var _ := ctx.SetStateInst(instIndex, args);
    PatchedPlaceholder(args);
    EdgeListPatch(i1, ctx.extra.buffer, x, n0 + 1, n0, StateInst(args));
    StatesPatch(i1, ctx.extra.buffer, n0 + 1, n0, StateInst(args));
    assert ctx.instructions[..n0] == i1[..n0];
  }

  /** `enterEdges(ctx, parentScope, parentNodeIndex, edges)`: scans the edge nodes, groups
      them into buckets, enters every bucket, then emits and stores the edge list; the
      result is where the list is stored in `extra`. */
  method EnterEdges(ctx: CompilationContext, chain: seq<Scope>, edges: seq<int>, ghost scopes: set<StateScope>, ghost room: nat)
    returns (r: Result<int>)
    requires ctx.Valid() && InScopes(chain, scopes) && Room(ctx.subset, chain) <= room
    modifies ctx, ctx.extra, ctx.scratch, scopes
    decreases room, 4
    ensures ctx.Valid() && old(ctx.instructions) <= ctx.instructions && old(ctx.extra.buffer) <= ctx.extra.buffer
    ensures ctx.scratch.Items() == old(ctx.scratch.Items())
    ensures forall s | s in scopes :: old(s.reachable) ==> s.reachable
    ensures ScanEdges(ctx.subset.nodes, edges, |edges|).Throw? ==> r == Throw(ScanEdges(ctx.subset.nodes, edges, |edges|).exception)
    ensures r.Ok? ==> ScanEdges(ctx.subset.nodes, edges, |edges|).Ok? && PairsOf(ctx.subset, edges, |edges|).Ok?
    ensures r.Ok? ==> (EdgeListAt(ctx.instructions, ctx.extra.buffer, r.value, |old(ctx.instructions)|) &&
      StatesBetween(ctx.instructions, ctx.extra.buffer, |old(ctx.instructions)|, |ctx.instructions|))
  {
    var scan := Scan(ctx, edges);
    if scan.Throw? {
      return Throw(scan.exception);
    }
    var (hasFail, hasEof) := scan.value;
    var buckets := MakeBuckets(ctx, edges);
    if buckets.Throw? {
      return Throw(buckets.exception);
    }
    var entries := EnterBuckets(ctx, chain, buckets.value, hasFail, hasEof, scopes, room);
    if entries.Throw? {
      return Throw(entries.exception);
    }
    ScanMeaning(ctx.subset.nodes, edges, |edges|);
    if hasFail {
      ScanMentions(ctx.subset, edges, entries.value, IndexNfa.Fail);
    }
    if hasEof {
      ScanMentions(ctx.subset, edges, entries.value, IndexNfa.Eof);
    }
    var extraIndex := EmitEntries(ctx, entries.value, hasFail, hasEof, |old(ctx.instructions)|);
    r := Ok(extraIndex);
  }

  /** The emission part of `enterEdges`, after the buckets were entered: the edges are
      appended after every state compiled so far, which stay well formed. */
  method EmitEntries(ctx: CompilationContext, entries: seq<EdgeEntry>, hasFail: bool, hasEof: bool, ghost n0: int)
    returns (extraIndex: int)
    requires ctx.Valid() && 0 <= n0 <= |ctx.instructions|
    requires hasFail ==> Mentions(entries, IndexNfa.Fail)
    requires hasEof ==> Mentions(entries, IndexNfa.Eof)
    requires StatesBetween(ctx.instructions, ctx.extra.buffer, n0, |ctx.instructions|)
    modifies ctx, ctx.extra, ctx.scratch
    ensures ctx.Valid() && old(ctx.instructions) <= ctx.instructions && old(ctx.extra.buffer) <= ctx.extra.buffer
    ensures ctx.scratch.Items() == old(ctx.scratch.Items())
    ensures EdgeListAt(ctx.instructions, ctx.extra.buffer, extraIndex, n0)
    ensures StatesBetween(ctx.instructions, ctx.extra.buffer, n0, |ctx.instructions|)
  {
    ghost var i1, e1 := ctx.instructions, ctx.extra.buffer;
    extraIndex := EmitEdges(ctx, entries, hasFail, hasEof);
    EmittedStates(entries, hasFail, hasEof, i1, e1, n0, ctx.instructions, ctx.extra.buffer, extraIndex);
  }

  /** What `enterEdges` appends keeps the states compiled since `n0` well formed, and
      stores an edge list of edges appended since `n0`. */
  lemma EmittedStates(entries: seq<EdgeEntry>, hasFail: bool, hasEof: bool, i1: seq<Inst>, e1: seq<int>, n0: int,
                       i2: seq<Inst>, e2: seq<int>, x: int)
    requires 0 <= n0 <= |i1|
    requires hasFail ==> Mentions(entries, IndexNfa.Fail)
    requires hasEof ==> Mentions(entries, IndexNfa.Eof)
    requires StatesBetween(i1, e1, n0, |i1|)
    requires i2 == i1 + Emitted(entries, hasEof, |e1|) && x == |e1| + WordCount(entries, |entries|)
    requires var list := EdgeList(entries, hasFail, hasEof, |i1|, |e1|);
      e2 == e1 + AlphaExtra(entries, |entries|) + [|list|] + list
    ensures i1 <= i2 && e1 <= e2 && EdgeListAt(i2, e2, x, n0) && StatesBetween(i2, e2, n0, |i2|)
  {
    EmittedListLower(entries, hasFail, hasEof, i1, e1, n0, i2, e2, x);
    var E := Emitted(entries, hasEof, |e1|);
    EmittedTags(entries, hasEof, |e1|);
    StatesEdges(i1, e1, n0, E, e2);
    assert i2 == i1 + E;
    assert e1 <= e2 by {
      assert e2[..|e1|] == e1;
    }
  }

  /** The edge list `enterEdges` stores refers to edges emitted after any earlier
      position `n0`. */
  lemma EmittedListLower(entries: seq<EdgeEntry>, hasFail: bool, hasEof: bool, i1: seq<Inst>, e1: seq<int>, n0: int,
                          i2: seq<Inst>, e2: seq<int>, x: int)
    requires 0 <= n0 <= |i1|
    requires hasFail ==> Mentions(entries, IndexNfa.Fail)
    requires hasEof ==> Mentions(entries, IndexNfa.Eof)
    requires i2 == i1 + Emitted(entries, hasEof, |e1|) && x == |e1| + WordCount(entries, |entries|)
    requires var list := EdgeList(entries, hasFail, hasEof, |i1|, |e1|);
      e2 == e1 + AlphaExtra(entries, |entries|) + [|list|] + list
    ensures EdgeListAt(i2, e2, x, n0)
  {
    EmittedListAt(entries, hasFail, hasEof, i1, e1, i2, e2, x);
    EdgeListLower(i2, e2, x, n0, |i1|);
  }

  /** `Array.from(buckets, enterBucket)`: enters the buckets in order. */
  method EnterBuckets(ctx: CompilationContext, chain: seq<Scope>, buckets: seq<Bucket>, hasFail: bool, hasEof: bool,
                      ghost scopes: set<StateScope>, ghost room: nat)
    returns (r: Result<seq<EdgeEntry>>)
    requires ctx.Valid() && InScopes(chain, scopes) && Room(ctx.subset, chain) <= room
    modifies ctx, ctx.extra, ctx.scratch, scopes
    decreases room, 3
    ensures ctx.Valid() && old(ctx.instructions) <= ctx.instructions && old(ctx.extra.buffer) <= ctx.extra.buffer
    ensures ctx.scratch.Items() == old(ctx.scratch.Items())
    ensures forall s | s in scopes :: old(s.reachable) ==> s.reachable
    ensures r.Ok? ==> (|r.value| == |buckets| && (forall j | 0 <= j < |buckets| :: Entered(chain, buckets[j], r.value[j])) &&
      StatesBetween(ctx.instructions, ctx.extra.buffer, |old(ctx.instructions)|, |ctx.instructions|))
  {
    var entries: seq<EdgeEntry> := [];
    var i := 0;
    while i < |buckets|
      invariant 0 <= i <= |buckets| && |entries| == i
      invariant forall j | 0 <= j < i :: Entered(chain, buckets[j], entries[j])
      invariant ctx.Valid() && old(ctx.instructions) <= ctx.instructions && old(ctx.extra.buffer) <= ctx.extra.buffer
      invariant ctx.scratch.Items() == old(ctx.scratch.Items())
      invariant forall s | s in scopes :: old(s.reachable) ==> s.reachable
      invariant StatesBetween(ctx.instructions, ctx.extra.buffer, |old(ctx.instructions)|, |ctx.instructions|)
    {
      ghost var ia, ea := ctx.instructions, ctx.extra.buffer;
      var entry := EnterBucket(ctx, chain, buckets[i], hasFail, hasEof, scopes, room);
      if entry.Throw? {
        return Throw(entry.exception);
      }
      StatesExtend(ia, ea, |old(ctx.instructions)|, ctx.instructions, ctx.extra.buffer);
      entries := entries + [entry.value];
      i := i + 1;
    }
    r := Ok(entries);
  }

  /** `enterBucket([nextNodeIndex, alphaIndexArray])`: a target compiled further up the
      chain is marked reachable and referred to; any other target is entered inside an
      edge scope. The bucket's indices are checked afterwards. */
  method EnterBucket(ctx: CompilationContext, chain: seq<Scope>, bucket: Bucket, hasFail: bool, hasEof: bool,
                     ghost scopes: set<StateScope>, ghost room: nat)
    returns (r: Result<EdgeEntry>)
    requires ctx.Valid() && InScopes(chain, scopes) && Room(ctx.subset, chain) <= room
    modifies ctx, ctx.extra, ctx.scratch, scopes
    decreases room, 2
    ensures ctx.Valid() && old(ctx.instructions) <= ctx.instructions && old(ctx.extra.buffer) <= ctx.extra.buffer
    ensures ctx.scratch.Items() == old(ctx.scratch.Items())
    ensures forall s | s in scopes :: old(s.reachable) ==> s.reachable
    ensures r.Ok? ==> (Entered(chain, bucket, r.value) &&
      StatesBetween(ctx.instructions, ctx.extra.buffer, |old(ctx.instructions)|, |ctx.instructions|))
    ensures r.Ok? && r.value.recursive ==> var s := Innermost(chain, bucket.target);
      s.Some? && r.value.instIndex == s.value.instIndex && s.value.reachable
    ensures r.Ok? && !r.value.recursive ==>
      r.value.instIndex == |old(ctx.instructions)| + InstructionRefOffset &&
      StateEmitted(ctx.instructions, ctx.extra.buffer, |old(ctx.instructions)|)
  {
    var reachableScope := FindReachableStateScope(chain, bucket.target);
    var recursive := reachableScope.Some?;
    var instIndex: int;
    if reachableScope.Some? {
      InnermostIn(chain, bucket.target, scopes);
      reachableScope.value.reachable := true;
      instIndex := reachableScope.value.instIndex;
    } else {
      var scope := Edge(hasFail, hasEof, bucket.alphas);
      EdgePush(ctx.subset, chain, scope, scopes, bucket.target);
      var next := EnterNode(ctx, chain + [scope], bucket.target, scopes, room);
      if next.Throw? {
        return Throw(next.exception);
      }
      instIndex := next.value;
    }
    var check := CheckBucket(bucket.alphas, recursive);
    if check.Thrown? {
      return Throw(check.exception);
    }
    r := Ok(EdgeEntry(bucket.target, bucket.alphas, instIndex, recursive));
  }

  /** Patching the start instruction with the root state's reference keeps the compiled
      states well formed. */
  lemma StartPatched(insts: seq<Inst>, extra: seq<int>, ref: int)
    requires |insts| >= 2 && insts[0] == Inst(TagStart, -1, -1)
    requires StateEmitted(insts, extra, 1) && StatesBetween(insts, extra, 1, |insts|)
    ensures var patched := insts[0 := Inst(TagStart, ref, -1)];
      StateEmitted(patched, extra, 1) && StatesBetween(patched, extra, 1, |patched|)
  {
    var patched := insts[0 := Inst(TagStart, ref, -1)];
    assert patched[1] == insts[1];
    if insts[1].tag != TagStateAccepting {
      EdgeListPatch(insts, extra, insts[1].data2, 2, 0, patched[0]);
    }
    StatesPatch(insts, extra, 1, 0, patched[0]);
  }

  /** `generate(subset)`: the root node must be node 0 and tagged `root`; its `data1`
      names the position in `extra` of the start node. The start instruction comes first
      and is patched to refer to the start node's state instruction, which comes second. */
  method Generate(subset: StrictSubsets.Subset) returns (r: Result<Scdir>)
    ensures At(subset.nodes, 0).None? ==> r == Throw(TypeError)
    ensures At(subset.nodes, 0).Some? && At(subset.nodes, 0).value.tag != StrictSubsets.RootTag ==> r == Throw(Error)
    ensures r.Ok? ==> var insts := r.value.instructions;
      |insts| >= 2 && insts[0] == Inst(TagStart, 1 + InstructionRefOffset, -1) &&
      StateEmitted(insts, r.value.extra, 1) && StatesBetween(insts, r.value.extra, 1, |insts|)
  {
    var ctx := new CompilationContext(subset);
    var rootNode := ctx.GetNode(0);
    if rootNode.None? {
      return Throw(TypeError);
    }
    if rootNode.value.tag != StrictSubsets.RootTag {
      return Throw(Error);
    }
    var nodeIndex := ctx.GetExtra(rootNode.value.data1);
    if nodeIndex.Throw? {
      return Throw(nodeIndex.exception);
    }
    var _ := ctx.AddInst(Inst(TagStart, -1, -1));
    var root := EnterNode(ctx, [], nodeIndex.value, {}, Room(subset, []));
    if root.Throw? {
      return Throw(root.exception);
    }
    ghost var i1 := ctx.instructions;
    assert i1[0] == Inst(TagStart, -1, -1);
    var start := ctx.GetInst(0).value;
    ctx.instructions := ctx.instructions[0 := start.(data1 := root.value)];
    StartPatched(i1, ctx.extra.buffer, root.value);
    assert ctx.instructions == i1[0 := Inst(TagStart, root.value, -1)];
    assert ctx.extra.Items() == ctx.extra.buffer;
    r := Ok(Scdir(ctx.instructions, ctx.extra.Items()));
  }
}
