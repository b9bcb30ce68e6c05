/** gen/instruction.js: the instruction records of the DFA code generator, their runtime
    validators, and the `CompilationContext` that appends instructions and patches state
    instructions in place. An instruction is addressed by its reference: its position
    plus `InstructionRefOffset`, so that references 0 and 1 stay free for the two
    reserved `Instruction.Ref` values. */
module Instructions {
  import opened Js
  import ArrayLists
  import StrictSubsets

  const InstructionRefOffset: int := 2

  /** `Instruction.Tag`. */
  const TagStart: int := 0
  const TagState: int := 1
  const TagStateAccepting: int := 2
  const TagStateReachable: int := 3
  const TagEdge: int := 4
  const TagEdgeCircular: int := 5
  const TagEdgeEof: int := 6
  const TagEdgeFail: int := 7
  const TagEdgeFailCircular: int := 8

  /** `Instruction.Ref`: references that name no instruction. */
  const RefStateEmpty: int := 0
  const RefEdgeFailImplicit: int := 1

  /** An `Instruction` with its `Data` pair inlined. */
  datatype Inst = Inst(tag: int, data1: int, data2: int)

  /** The arguments of `addStateInst` and `setStateInst`, after `Instruction.State.from`. */
  datatype StateArgs = StateArgs(reachable: bool, token: int, edges: int, edgesLength: int)

  /** The arguments of `addEdgeInst`, after `Instruction.Edge.from`. */
  datatype EdgeArgs = EdgeArgs(recursive: bool, instIndex: int, alphabets: int, alphabetsLength: int)

  /** `Instruction.Data.from(inst)`: `data1` and `data2` must be numbers. */
  function DataCheck(inst: Record): (r: Outcome)
    ensures r.Done? <==> HasField(inst, "data1", "number") && HasField(inst, "data2", "number")
    ensures r.Thrown? ==> r.exception == Error
  {
    if !("data1" in inst) || TypeOf(inst["data1"]) != "number" then Thrown(Error)
    else if !("data2" in inst) || TypeOf(inst["data2"]) != "number" then Thrown(Error)
    else Done
  }

  /** `Instruction.from(inst)`, which the instruction list's `append` runs: `tag` must be
      a number and `data` an object, whose fields `data` holds. */
  function InstructionCheck(inst: Record, data: Record): (r: Outcome)
    ensures r.Done? <==> (HasField(inst, "tag", "number") && HasField(inst, "data", "object") &&
      HasField(data, "data1", "number") && HasField(data, "data2", "number"))
    ensures r.Thrown? ==> r.exception == Error
  {
    if !("tag" in inst) || TypeOf(inst["tag"]) != "number" then Thrown(Error)
    else if !("data" in inst) || TypeOf(inst["data"]) != "object" then Thrown(Error)
    else DataCheck(data)
  }

  /** `Instruction.State.from(inst)`: `reachable` must be a boolean and `token`, `edges`
      and `edgesLength` numbers. */
  function StateCheck(inst: Record): (r: Outcome)
    ensures r.Done? <==> (HasField(inst, "reachable", "boolean") && HasField(inst, "token", "number") &&
      HasField(inst, "edges", "number") && HasField(inst, "edgesLength", "number"))
    ensures r.Thrown? ==> r.exception == Error
  {
    if !("reachable" in inst) || TypeOf(inst["reachable"]) != "boolean" then Thrown(Error)
    else if !("token" in inst) || TypeOf(inst["token"]) != "number" then Thrown(Error)
    else if !("edges" in inst) || TypeOf(inst["edges"]) != "number" then Thrown(Error)
    else if !("edgesLength" in inst) || TypeOf(inst["edgesLength"]) != "number" then Thrown(Error)
    else Done
  }

  /** `Instruction.Edge.from(inst)`: `recursive` must be a boolean and `instIndex`,
      `alphabets` and `alphabetsLength` numbers. */
  function EdgeCheck(inst: Record): (r: Outcome)
    ensures r.Done? <==> (HasField(inst, "recursive", "boolean") && HasField(inst, "instIndex", "number") &&
      HasField(inst, "alphabets", "number") && HasField(inst, "alphabetsLength", "number"))
    ensures r.Thrown? ==> r.exception == Error
  {
    if !("recursive" in inst) || TypeOf(inst["recursive"]) != "boolean" then Thrown(Error)
    else if !("instIndex" in inst) || TypeOf(inst["instIndex"]) != "number" then Thrown(Error)
    else if !("alphabets" in inst) || TypeOf(inst["alphabets"]) != "number" then Thrown(Error)
    else if !("alphabetsLength" in inst) || TypeOf(inst["alphabetsLength"]) != "number" then Thrown(Error)
    else Done
  }

  /** The records the context builds for an instruction, a state and an edge. */
  function InstRecord(i: Inst): Record
  {
    map["tag" := Number(i.tag), "data" := Object]
  }

  function DataRecord(i: Inst): Record
  {
    map["data1" := Number(i.data1), "data2" := Number(i.data2)]
  }

  function StateRecord(s: StateArgs): Record
  {
    map["reachable" := Bool(s.reachable), "token" := Number(s.token), "edges" := Number(s.edges), "edgesLength" := Number(s.edgesLength)]
  }

  function EdgeRecord(e: EdgeArgs): Record
  {
    map["recursive" := Bool(e.recursive), "instIndex" := Number(e.instIndex), "alphabets" := Number(e.alphabets), "alphabetsLength" := Number(e.alphabetsLength)]
  }

  /** Everything the context hands to a validator passes it, so the validators never throw
      inside the generator. */
  lemma RecordsPass(i: Inst, s: StateArgs, e: EdgeArgs)
    ensures InstructionCheck(InstRecord(i), DataRecord(i)) == Done
    ensures StateCheck(StateRecord(s)) == Done
    ensures EdgeCheck(EdgeRecord(e)) == Done
  {
    assert HasField(InstRecord(i), "data", "object");
    assert HasField(StateRecord(s), "reachable", "boolean");
    assert HasField(EdgeRecord(e), "recursive", "boolean");
  }

  /** The state instruction `addStateInst` appends. */
  function StateInst(s: StateArgs): Inst
  {
    if s.edgesLength == 0 then Inst(TagStateAccepting, s.token, -1)
    else Inst(if s.reachable then TagStateReachable else TagState, s.token, s.edges)
  }

  /** The placeholder `makeStateInst` appends. */
  const Placeholder: Inst := Inst(-1, -1, -1)

  /** An instruction after `setStateInst` patched it in place: the token always, the tag
      by the same rule as `addStateInst`, and the edges only when there are some. */
  function Patched(i: Inst, s: StateArgs): Inst
  {
    if s.edgesLength == 0 then Inst(TagStateAccepting, s.token, i.data2)
    else Inst(if s.reachable then TagStateReachable else TagState, s.token, s.edges)
  }

  /** Reserving a state instruction with `makeStateInst` and filling it in later with
      `setStateInst` gives the instruction `addStateInst` would have appended. */
  lemma PatchedPlaceholder(s: StateArgs)
    ensures Patched(Placeholder, s) == StateInst(s)
    ensures StateInst(s).tag in {TagState, TagStateAccepting, TagStateReachable} && StateInst(s).data1 == s.token
    ensures StateInst(s).tag == TagStateAccepting <==> s.edgesLength == 0
    ensures StateInst(s).tag == TagStateReachable <==> s.edgesLength != 0 && s.reachable
  {
  }

  /** The instruction `addEdgeInst` appends. */
  function EdgeInst(e: EdgeArgs): Inst
  {
    Inst(if e.recursive then TagEdgeCircular else TagEdge, e.instIndex, e.alphabets)
  }

  /** A state instruction is one of the three state tags. */
  predicate IsStateTag(tag: int)
  {
    tag == TagState || tag == TagStateAccepting || tag == TagStateReachable
  }

  /** An edge instruction is one of the five edge tags. */
  predicate IsEdgeTag(tag: int)
  {
    TagEdge <= tag <= TagEdgeFailCircular
  }

  /** `CompilationContext`: the subset being compiled, the instruction list, and the
      `extra` and `scratch` integer lists. */
  class CompilationContext {
    const subset: StrictSubsets.Subset
    var instructions: seq<Inst>
    const extra: ArrayLists.ArrayList
    const scratch: ArrayLists.ArrayList

    /** `extra` is only ever appended to, so its buffer holds nothing beyond its size. */
    ghost predicate Valid()
      reads this, extra, scratch
    {
      extra != scratch && extra.Valid() && extra.current == |extra.buffer| && scratch.Valid()
    }

    /** `new CompilationContext(subset)`: nothing emitted yet. */
    constructor (subset: StrictSubsets.Subset)
      ensures Valid() && fresh(extra) && fresh(scratch)
      ensures this.subset == subset && instructions == [] && extra.buffer == [] && scratch.Items() == []
    {
      this.subset := subset;
      instructions := [];
      extra := new ArrayLists.ArrayList();
      scratch := new ArrayLists.ArrayList();
    }

    /** `getNode(nodeIndex)`: `nodes.at(nodeIndex)`, or `undefined` (None). */
    function GetNode(nodeIndex: int): (r: Option<StrictSubsets.Node>)
      ensures r.Some? <==> -|subset.nodes| <= nodeIndex < |subset.nodes|
      ensures 0 <= nodeIndex < |subset.nodes| ==> r == Some(subset.nodes[nodeIndex])
    {
      At(subset.nodes, nodeIndex)
    }

    /** `getExtra(extraIndex)`: the subset's `extra.at(extraIndex)`. */
    function GetExtra(extraIndex: int): (r: Result<int>)
      ensures r.Ok? <==> -|subset.extra| <= extraIndex < |subset.extra|
      ensures 0 <= extraIndex < |subset.extra| ==> r == Ok(subset.extra[extraIndex])
    {
      ArrayLists.BufferAt(subset.extra, Number(extraIndex))
    }

    /** `unpackArray(extraIndex)`: the subset's `getArray`, the length-prefixed array
        stored at `extraIndex`. */
    function UnpackArray(extraIndex: int): (r: Result<ArrayLists.Slice>)
      ensures r.Ok? ==> r.value.Valid() && r.value.buffer == subset.extra
      ensures 0 <= extraIndex < |subset.extra| ==>
        (r.Ok? <==> 0 <= subset.extra[extraIndex] && extraIndex + 1 + subset.extra[extraIndex] <= |subset.extra|)
      ensures r.Ok? && 0 <= extraIndex < |subset.extra| ==>
        r.value.Elements() == subset.extra[extraIndex + 1..extraIndex + 1 + subset.extra[extraIndex]]
    {
      subset.GetArray(Number(extraIndex))
    }

    /** `getInst(instIndex)`: `instructions.at(instIndex)`, which throws outside
        `-size <= instIndex < size`; a negative position counts back from the end. */
    function GetInst(instIndex: int): (r: Result<Inst>)
      reads this
      ensures r.Ok? <==> -|instructions| <= instIndex < |instructions|
      ensures r.Throw? ==> r.exception == RangeError
      ensures 0 <= instIndex < |instructions| ==> r == Ok(instructions[instIndex])
    {
      if instIndex >= |instructions| || instIndex + |instructions| < 0 then Throw(RangeError)
      else Ok(instructions[AtPosition(|instructions|, instIndex)])
    }

    /** `addInst(inst)`: appends and returns the new instruction's reference, which is
        never one of the reserved ones. */
    method AddInst(inst: Inst) returns (ref: int)
      modifies this
      ensures instructions == old(instructions) + [inst]
      ensures ref == |old(instructions)| + InstructionRefOffset && ref != RefStateEmpty && ref != RefEdgeFailImplicit
      ensures GetInst(ref - InstructionRefOffset) == Ok(inst)
    {
      RecordsPass(inst, StateArgs(false, 0, 0, 0), EdgeArgs(false, 0, 0, 0));
      instructions := instructions + [inst];
      ref := |instructions| - 1 + InstructionRefOffset;
    }

    /** `addStateInst(stateInst)`: a state with no edges becomes `stateAccepting` with no
        edge list; otherwise `stateReachable` or `state`, pointing at its edges. */
    method AddStateInst(stateInst: StateArgs) returns (ref: int)
      modifies this
      ensures instructions == old(instructions) + [StateInst(stateInst)]
      ensures ref == |old(instructions)| + InstructionRefOffset
    {
      RecordsPass(Placeholder, stateInst, EdgeArgs(false, 0, 0, 0));
      if stateInst.edgesLength == 0 {
        ref := AddInst(Inst(TagStateAccepting, stateInst.token, -1));
        return;
      }
      ref := AddInst(Inst(if stateInst.reachable then TagStateReachable else TagState, stateInst.token, stateInst.edges));
    }

    /** `makeStateInst()`: reserves a state instruction to be patched later. */
    method MakeStateInst() returns (ref: int)
      modifies this
      ensures instructions == old(instructions) + [Placeholder]
      ensures ref == |old(instructions)| + InstructionRefOffset
    {
      ref := AddInst(Inst(-1, -1, -1));
    }

    /** `setStateInst(instOffset, stateInst)`: patches the instruction `instOffset` refers
        to, and no other. A reference outside the list throws a RangeError; the
        reserved references 0 and 1 reach back from the end of the list. */
    method SetStateInst(instOffset: int, stateInst: StateArgs) returns (r: Outcome)
      modifies this
      ensures var k := instOffset - InstructionRefOffset;
        (r.Done? <==> -|old(instructions)| <= k < |old(instructions)|) &&
        (r.Thrown? ==> r.exception == RangeError && instructions == old(instructions)) &&
        (r.Done? ==> var p := AtPosition(|old(instructions)|, k);
          instructions == old(instructions)[p := Patched(old(instructions)[p], stateInst)])
    {
      RecordsPass(Placeholder, stateInst, EdgeArgs(false, 0, 0, 0));
      var inst := GetInst(instOffset - InstructionRefOffset);
      if inst.Throw? {
        return Thrown(inst.exception);
      }
      var p := AtPosition(|instructions|, instOffset - InstructionRefOffset);
      var patched := inst.value.(data1 := stateInst.token);
      if stateInst.edgesLength == 0 {
        patched := patched.(tag := TagStateAccepting);
      } else {
        patched := patched.(tag := if stateInst.reachable then TagStateReachable else TagState);
        patched := patched.(data2 := stateInst.edges);
      }
      instructions := instructions[p := patched];
      r := Done;
    }

    /** `addEdgeInst(edgeInst)`: `edgeCircular` exactly for a recursive edge, pointing at
        the target instruction and at the edge's alphabet list. */
    method AddEdgeInst(edgeInst: EdgeArgs) returns (ref: int)
      modifies this
      ensures instructions == old(instructions) + [EdgeInst(edgeInst)]
      ensures ref == |old(instructions)| + InstructionRefOffset
    {
      RecordsPass(Placeholder, StateArgs(false, 0, 0, 0), edgeInst);
      ref := AddInst(Inst(if edgeInst.recursive then TagEdgeCircular else TagEdge, edgeInst.instIndex, edgeInst.alphabets));
    }
  }

  /** A state instruction reserved by `makeStateInst` and patched through its reference
      by `setStateInst` ends up as `addStateInst` would have made it, and every other
      instruction is left alone. */
  method ReserveThenSet(ctx: CompilationContext, stateInst: StateArgs) returns (ref: int)
    modifies ctx
    ensures ctx.instructions == old(ctx.instructions) + [StateInst(stateInst)]
    ensures ref == |old(ctx.instructions)| + InstructionRefOffset
  {
    ref := ctx.MakeStateInst();
    var r := ctx.SetStateInst(ref, stateInst);
    PatchedPlaceholder(stateInst);
  }

  /** `SCDIR`: the generator's result, the instructions and the `extra` list. */
  datatype Scdir = Scdir(instructions: seq<Inst>, extra: seq<int>)
}
