/** gen/generate-dfa-instructions.js: compiles a finished `Subset` into instructions. Each
    state node becomes a state instruction; its edge nodes are grouped by target into
    buckets, each target is compiled in turn inside a chain of scopes, and a target already
    being compiled further up the chain is not entered again but referred to by a circular
    edge. A state's edges are stored in `extra` as a length-prefixed list of references. */
module DfaInstructions {
  import opened Js
  import opened IndexNfa
  import StrictSubsets
  import ArrayLists
  import Ordered
  import opened Instructions

  /** `DfaScope.State`: the scope of a state node being compiled, with the reference of
      its reserved instruction. Only `reachable` changes: an edge further down that leads
      back to the node sets it. */
  class StateScope {
    const nodeIndex: int
    const instIndex: int
    const accepting: bool
    var reachable: bool

    constructor (nodeIndex: int, instIndex: int, accepting: bool)
      ensures this.nodeIndex == nodeIndex && this.instIndex == instIndex && this.accepting == accepting && !reachable
    {
      this.nodeIndex := nodeIndex;
      this.instIndex := instIndex;
      this.accepting := accepting;
      reachable := false;
    }
  }

  /** A scope above `DfaScope.Top`: a state scope, or `DfaScope.Edge` for the bucket being
      entered. A chain lists the scopes outermost first; `Top` lies below all of them. */
  datatype Scope = State(scope: StateScope) | Edge(hasFail: bool, hasEof: bool, alphabets: seq<int>)

  /** The state scopes of a chain. */
  function StateScopes(chain: seq<Scope>): set<StateScope>
  {
    set k | 0 <= k < |chain| && chain[k].State? :: chain[k].scope
  }

  /** The nodes the state scopes of a chain are compiling. */
  function Nodes(chain: seq<Scope>): set<int>
  {
    set k | 0 <= k < |chain| && chain[k].State? :: chain[k].scope.nodeIndex
  }

  lemma ChainPush(chain: seq<Scope>, s: Scope)
    ensures StateScopes(chain + [s]) == StateScopes(chain) + (if s.State? then {s.scope} else {})
    ensures Nodes(chain + [s]) == Nodes(chain) + (if s.State? then {s.scope.nodeIndex} else {})
  {
    var c := chain + [s];
    assert forall k | 0 <= k < |chain| :: c[k] == chain[k];
    assert c[|chain|] == s;
  }

  /** The integers from `lo` up to `hi`. */
  function Span(lo: int, hi: int): (r: set<int>)
    ensures forall i :: i in r <==> lo <= i < hi
    decreases hi - lo
  {
    if lo >= hi then {} else {lo} + Span(lo + 1, hi)
  }

  /** The positions `nodes.at` accepts. */
  function NodeRange(n: nat): set<int>
  {
    Span(-(n as int), n)
  }

  /** How many more state scopes a chain has room for: each compiles a different node
      position. */
  function Room(subset: StrictSubsets.Subset, chain: seq<Scope>): nat
  {
    |NodeRange(|subset.nodes|) - Nodes(chain)|
  }

  /** Entering a node that is not being compiled yet uses up room, which bounds the
      recursion of `enterNode`. */
  lemma RoomShrinks(subset: StrictSubsets.Subset, chain: seq<Scope>, s: StateScope)
    requires s.nodeIndex in NodeRange(|subset.nodes|) && s.nodeIndex !in Nodes(chain)
    ensures Room(subset, chain + [State(s)]) < Room(subset, chain)
  {
    ChainPush(chain, State(s));
    var R := NodeRange(|subset.nodes|);
    assert R - Nodes(chain + [State(s)]) == (R - Nodes(chain)) - {s.nodeIndex};
  }

  /** The innermost state scope of `chain` compiling `nodeIndex`. */
  function Innermost(chain: seq<Scope>, nodeIndex: int): Option<StateScope>
  {
    if |chain| == 0 then None
    else if chain[|chain| - 1].State? && chain[|chain| - 1].scope.nodeIndex == nodeIndex then Some(chain[|chain| - 1].scope)
    else Innermost(chain[..|chain| - 1], nodeIndex)
  }

  /** Scope `k` compiles `nodeIndex` and no scope inside it does. */
  ghost predicate InnermostAt(chain: seq<Scope>, nodeIndex: int, k: int)
  {
    0 <= k < |chain| && chain[k].State? && chain[k].scope.nodeIndex == nodeIndex &&
    forall j | k < j < |chain| :: !(chain[j].State? && chain[j].scope.nodeIndex == nodeIndex)
  }

  /** There is an innermost state scope for `nodeIndex` exactly when some state scope
      compiles it, and it is the one nearest the end of the chain. */
  lemma {:induction false} InnermostMeaning(chain: seq<Scope>, nodeIndex: int)
    ensures Innermost(chain, nodeIndex).None? <==> nodeIndex !in Nodes(chain)
    ensures Innermost(chain, nodeIndex).Some? ==>
      exists k :: InnermostAt(chain, nodeIndex, k) && chain[k].scope == Innermost(chain, nodeIndex).value
  {
    if |chain| > 0 {
      var init := chain[..|chain| - 1];
      InnermostMeaning(init, nodeIndex);
      ChainPush(init, chain[|chain| - 1]);
      assert init + [chain[|chain| - 1]] == chain;
      var last := |chain| - 1;
      if !(chain[last].State? && chain[last].scope.nodeIndex == nodeIndex) && Innermost(init, nodeIndex).Some? {
        var k :| InnermostAt(init, nodeIndex, k) && init[k].scope == Innermost(init, nodeIndex).value;
        assert InnermostAt(chain, nodeIndex, k);
      } else if chain[last].State? && chain[last].scope.nodeIndex == nodeIndex {
        assert InnermostAt(chain, nodeIndex, last);
      }
    }
  }

  /** `findReachableStateScope(ctx, scope, nodeIndex)`: walks from the innermost scope up
      to `Top`, and returns the first state scope compiling `nodeIndex`. */
  method FindReachableStateScope(chain: seq<Scope>, nodeIndex: int) returns (r: Option<StateScope>)
    ensures r == Innermost(chain, nodeIndex)
  {
    var i := |chain|;
    assert chain[..i] == chain;
    while i > 0
      invariant 0 <= i <= |chain|
      invariant Innermost(chain, nodeIndex) == Innermost(chain[..i], nodeIndex)
    {
      var current := chain[i - 1];
      if current.State? && current.scope.nodeIndex == nodeIndex {
        return Some(current.scope);
      }
      assert chain[..i][..i - 1] == chain[..i - 1];
      i := i - 1;
    }
    r := None;
  }

  /** Some state scope of the chain has a token. */
  predicate AcceptingAbove(chain: seq<Scope>)
  {
    exists k | 0 <= k < |chain| :: chain[k].State? && chain[k].scope.accepting
  }

  /** The walk `enterNode` makes for a dead end without a token: up the chain until a
      state scope with a token (true) or `Top` (false). */
  method TraceAccepting(chain: seq<Scope>) returns (found: bool)
    ensures found <==> AcceptingAbove(chain)
  {
    var i := |chain|;
    while i > 0
      invariant 0 <= i <= |chain|
      invariant forall k | i <= k < |chain| :: !(chain[k].State? && chain[k].scope.accepting)
    {
      var current := chain[i - 1];
      if current.State? && current.scope.accepting {
        return true;
      }
      i := i - 1;
    }
    found := false;
  }

  /** The first loop of `enterEdges` over the first `n` edge nodes: each must exist, be
      an edge node and not be labelled `epsilon` or `sigma`; the result says whether a
      `fail` and an `eof` edge were seen. */
  function ScanEdges(nodes: seq<StrictSubsets.Node>, edges: seq<int>, n: nat): Result<(bool, bool)>
    requires n <= |edges|
  {
    if n == 0 then Ok((false, false))
    else
      var r := ScanEdges(nodes, edges, n - 1);
      if r.Throw? then r
      else
        var node := At(nodes, edges[n - 1]);
        if node.None? then Throw(TypeError)
        else if node.value.tag != StrictSubsets.EdgeTag then Throw(Error)
        else if node.value.data2 == Sigma || node.value.data2 == Epsilon then Throw(Error)
        else Ok((r.value.0 || node.value.data2 == Fail, r.value.1 || node.value.data2 == Eof))
  }

  /** Edge `k` is an existing edge node labelled `alpha`. */
  ghost predicate EdgeLabel(nodes: seq<StrictSubsets.Node>, edges: seq<int>, k: int, alpha: int)
  {
    0 <= k < |edges| && At(nodes, edges[k]).Some? &&
    At(nodes, edges[k]).value.tag == StrictSubsets.EdgeTag && At(nodes, edges[k]).value.data2 == alpha
  }

  /** Edge `k` is an existing edge node with neither `epsilon` nor `sigma`. */
  ghost predicate EdgeOk(nodes: seq<StrictSubsets.Node>, edges: seq<int>, k: int)
  {
    0 <= k < |edges| && At(nodes, edges[k]).Some? && At(nodes, edges[k]).value.tag == StrictSubsets.EdgeTag &&
    At(nodes, edges[k]).value.data2 != Epsilon && At(nodes, edges[k]).value.data2 != Sigma
  }

  /** The scan succeeds exactly when every edge node is well formed, and then reports
      whether some edge is labelled `fail` and whether some edge is labelled `eof`. */
  lemma {:induction false} ScanMeaning(nodes: seq<StrictSubsets.Node>, edges: seq<int>, n: nat)
    requires n <= |edges|
    ensures var r := ScanEdges(nodes, edges, n);
      (r.Ok? <==> forall k | 0 <= k < n :: EdgeOk(nodes, edges, k)) &&
      (r.Ok? ==> ((r.value.0 <==> exists k | 0 <= k < n :: EdgeLabel(nodes, edges, k, Fail)) &&
        (r.value.1 <==> exists k | 0 <= k < n :: EdgeLabel(nodes, edges, k, Eof))))
  {
    if n > 0 {
      ScanMeaning(nodes, edges, n - 1);
      if ScanEdges(nodes, edges, n - 1).Ok? {
        if EdgeOk(nodes, edges, n - 1) {
          var a := At(nodes, edges[n - 1]).value.data2;
          assert EdgeLabel(nodes, edges, n - 1, a);
          assert (exists k | 0 <= k < n :: EdgeLabel(nodes, edges, k, Fail)) <==>
            (exists k | 0 <= k < n - 1 :: EdgeLabel(nodes, edges, k, Fail)) || a == Fail;
          assert (exists k | 0 <= k < n :: EdgeLabel(nodes, edges, k, Eof)) <==>
            (exists k | 0 <= k < n - 1 :: EdgeLabel(nodes, edges, k, Eof)) || a == Eof;
        } else {
          assert !(forall k | 0 <= k < n :: EdgeOk(nodes, edges, k));
        }
      }
    }
  }

  /** The first loop of `enterEdges`. */
  method Scan(ctx: CompilationContext, edges: seq<int>) returns (r: Result<(bool, bool)>)
    ensures r == ScanEdges(ctx.subset.nodes, edges, |edges|)
  {
    var hasFail := false;
    var hasEof := false;
    var i := 0;
    while i < |edges|
      invariant 0 <= i <= |edges|
      invariant ScanEdges(ctx.subset.nodes, edges, i) == Ok((hasFail, hasEof))
    {
      var node := ctx.GetNode(edges[i]);
      if node.None? {
        ScanStops(ctx.subset.nodes, edges, i + 1, |edges|);
        return Throw(TypeError);
      }
      if node.value.tag != StrictSubsets.EdgeTag {
        ScanStops(ctx.subset.nodes, edges, i + 1, |edges|);
        return Throw(Error);
      }
      var alphaIndex := node.value.data2;
      if AlphaIndexIsRef(alphaIndex) {
        if alphaIndex == Sigma || alphaIndex == Epsilon {
          ScanStops(ctx.subset.nodes, edges, i + 1, |edges|);
          return Throw(Error);
        } else if alphaIndex == Fail {
          hasFail := true;
        } else if alphaIndex == Eof {
          hasEof := true;
        }
      }
      i := i + 1;
    }
    r := Ok((hasFail, hasEof));
  }

  lemma {:induction false} ScanStops(nodes: seq<StrictSubsets.Node>, edges: seq<int>, n: nat, n': nat)
    requires n <= n' <= |edges| && ScanEdges(nodes, edges, n).Throw?
    ensures ScanEdges(nodes, edges, n') == ScanEdges(nodes, edges, n)
    decreases n'
  {
    if n < n' {
      ScanStops(nodes, edges, n, n' - 1);
    }
  }

  /** What `makeBuckets` reads from edge node `e`: the node of the entry it leads to and
      its alphabet index. */
  function PairAt(subset: StrictSubsets.Subset, e: int): Result<(int, int)>
  {
    var node := At(subset.nodes, e);
    if node.None? then Throw(TypeError)
    else if node.value.tag != StrictSubsets.EdgeTag then Throw(Error)
    else
      var entry := At(subset.entries, node.value.data1);
      if entry.None? then Throw(TypeError)
      else Ok((entry.value.node, node.value.data2))
  }

  /** The pairs of the first `n` edge nodes. */
  function PairsOf(subset: StrictSubsets.Subset, edges: seq<int>, n: nat): Result<seq<(int, int)>>
    requires n <= |edges|
  {
    if n == 0 then Ok([])
    else
      var r := PairsOf(subset, edges, n - 1);
      if r.Throw? then r
      else
        var p := PairAt(subset, edges[n - 1]);
        if p.Throw? then Throw(p.exception) else Ok(r.value + [p.value])
  }

  /** A bucket: a target node and the alphabet indices of the edges that lead to it. */
  datatype Bucket = Bucket(target: int, alphas: seq<int>)

  /** The position of the bucket for `t`, or -1. */
  function IndexOf(bs: seq<Bucket>, t: int): (k: int)
    ensures -1 <= k < |bs|
    ensures k == -1 <==> forall j | 0 <= j < |bs| :: bs[j].target != t
    ensures k != -1 ==> bs[k].target == t
  {
    if |bs| == 0 then -1
    else if bs[|bs| - 1].target == t then |bs| - 1
    else IndexOf(bs[..|bs| - 1], t)
  }

  /** One step of `makeBuckets`: the index joins the bucket of its target, which is
      created at the end when the target is new. */
  function Put(bs: seq<Bucket>, t: int, a: int): seq<Bucket>
  {
    var k := IndexOf(bs, t);
    if k == -1 then bs + [Bucket(t, [a])] else bs[k := Bucket(t, bs[k].alphas + [a])]
  }

  /** `makeBuckets` over a list of pairs. */
  function Bucketed(pairs: seq<(int, int)>): seq<Bucket>
  {
    if |pairs| == 0 then [] else Put(Bucketed(pairs[..|pairs| - 1]), pairs[|pairs| - 1].0, pairs[|pairs| - 1].1)
  }

  /** The targets in the order first seen. */
  function Targets(pairs: seq<(int, int)>): seq<int>
  {
    if |pairs| == 0 then [] else Ordered.Add(Targets(pairs[..|pairs| - 1]), pairs[|pairs| - 1].0)
  }

  /** The alphabet indices of the pairs whose target is `t`, in order. */
  function AlphasTo(pairs: seq<(int, int)>, t: int): seq<int>
  {
    if |pairs| == 0 then []
    else AlphasTo(pairs[..|pairs| - 1], t) + (if pairs[|pairs| - 1].0 == t then [pairs[|pairs| - 1].1] else [])
  }

  /** The buckets are keyed by the targets in the order first seen, and each holds
      exactly the alphabet indices of the edges to its target, in edge order. */
  ghost predicate BucketsOf(pairs: seq<(int, int)>, bs: seq<Bucket>)
  {
    var ts := Targets(pairs);
    |bs| == |ts| && forall k | 0 <= k < |bs| :: bs[k].target == ts[k] && bs[k].alphas == AlphasTo(pairs, ts[k])
  }

  lemma {:induction false} BucketedMeaning(pairs: seq<(int, int)>)
    ensures BucketsOf(pairs, Bucketed(pairs))
    ensures Ordered.Distinct(Targets(pairs))
  {
    if |pairs| > 0 {
      var init := pairs[..|pairs| - 1];
      var (t, a) := pairs[|pairs| - 1];
      BucketedMeaning(init);
      var bs := Bucketed(init);
      var ts := Targets(init);
      var k := IndexOf(bs, t);
      forall j | 0 <= j < |ts| && ts[j] != t
        ensures AlphasTo(pairs, ts[j]) == AlphasTo(init, ts[j])
      {
      }
      if k == -1 {
        assert t !in ts;
        NoAlphas(init, t);
      } else {
        assert t in ts;
      }
    }
  }

  /** A target never seen has no indices. */
  lemma {:induction false} NoAlphas(pairs: seq<(int, int)>, t: int)
    requires t !in Targets(pairs)
    ensures AlphasTo(pairs, t) == []
  {
    if |pairs| > 0 {
      NoAlphas(pairs[..|pairs| - 1], t);
    }
  }

  /** Every pair's index is in the bucket of its target. */
  lemma {:induction false} BucketsCover(pairs: seq<(int, int)>, j: int)
    requires 0 <= j < |pairs|
    ensures pairs[j].0 in Targets(pairs) && pairs[j].1 in AlphasTo(pairs, pairs[j].0)
  {
    var init := pairs[..|pairs| - 1];
    if j < |pairs| - 1 {
      BucketsCover(init, j);
      assert init[j] == pairs[j];
    }
  }

  /** `makeBuckets(ctx, nodeMembers)`. */
  method MakeBuckets(ctx: CompilationContext, edges: seq<int>) returns (r: Result<seq<Bucket>>)
    ensures var p := PairsOf(ctx.subset, edges, |edges|);
      (r.Throw? <==> p.Throw?) && (p.Throw? ==> r.exception == p.exception) && (p.Ok? ==> r.value == Bucketed(p.value))
  {
    var bucket: seq<Bucket> := [];
    ghost var pairs: seq<(int, int)> := [];
    var i := 0;
    while i < |edges|
      invariant 0 <= i <= |edges|
      invariant PairsOf(ctx.subset, edges, i) == Ok(pairs) && bucket == Bucketed(pairs)
    {
      var node := ctx.GetNode(edges[i]);
      if node.None? {
        PairsStop(ctx.subset, edges, i + 1, |edges|);
        return Throw(TypeError);
      }
      if node.value.tag != StrictSubsets.EdgeTag {
        PairsStop(ctx.subset, edges, i + 1, |edges|);
        return Throw(Error);
      }
      var entryIndex := node.value.data1;
      var alphaIndex := node.value.data2;
      var entry := At(ctx.subset.entries, entryIndex);
      if entry.None? {
        PairsStop(ctx.subset, edges, i + 1, |edges|);
        return Throw(TypeError);
      }
      var nextNodeIndex := entry.value.node;
      assert (pairs + [(nextNodeIndex, alphaIndex)])[..|pairs|] == pairs;
      pairs := pairs + [(nextNodeIndex, alphaIndex)];
      var k := IndexOf(bucket, nextNodeIndex);
      if k != -1 {
        bucket := bucket[k := Bucket(nextNodeIndex, bucket[k].alphas + [alphaIndex])];
      } else {
        bucket := bucket + [Bucket(nextNodeIndex, [alphaIndex])];
      }
      i := i + 1;
    }
    r := Ok(bucket);
  }

  lemma {:induction false} PairsStop(subset: StrictSubsets.Subset, edges: seq<int>, n: nat, n': nat)
    requires n <= n' <= |edges| && PairsOf(subset, edges, n).Throw?
    ensures PairsOf(subset, edges, n') == PairsOf(subset, edges, n)
    decreases n'
  {
    if n < n' {
      PairsStop(subset, edges, n, n' - 1);
    }
  }

  /** The scan and the buckets read the same alphabet indices: once both succeed, a
      `fail` (or `eof`) edge was seen exactly when some bucket holds `fail` (or `eof`). */
  lemma ScanPairs(subset: StrictSubsets.Subset, edges: seq<int>, n: nat)
    requires n <= |edges| && ScanEdges(subset.nodes, edges, n).Ok? && PairsOf(subset, edges, n).Ok?
    ensures |PairsOf(subset, edges, n).value| == n
    ensures forall k | 0 <= k < n :: EdgeLabel(subset.nodes, edges, k, PairsOf(subset, edges, n).value[k].1)
    decreases n
  {
    if n > 0 {
      ScanPairs(subset, edges, n - 1);
    }
  }

  /** `entry.alphaIndexArray` passes the checks of `enterBucket`: its only reference
      indices are a `fail` alone in its bucket and an `eof` on an edge that is not
      recursive. */
  predicate BucketOk(alphas: seq<int>, recursive: bool)
  {
    forall k | 0 <= k < |alphas| :: AlphaIndexIsRef(alphas[k]) ==>
      (alphas[k] == Fail && |alphas| == 1) || (alphas[k] == Eof && !recursive)
  }

  /** The checking loop of `enterBucket`; any other reference index reaches the
      `Unreachable` assertion, which throws too. */
  method CheckBucket(alphas: seq<int>, recursive: bool) returns (r: Outcome)
    ensures r.Done? <==> BucketOk(alphas, recursive)
    ensures r.Thrown? ==> r.exception == Error
  {
    var i := 0;
    while i < |alphas|
      invariant 0 <= i <= |alphas|
      invariant forall k | 0 <= k < i :: AlphaIndexIsRef(alphas[k]) ==>
        (alphas[k] == Fail && |alphas| == 1) || (alphas[k] == Eof && !recursive)
    {
      var alphaIndex := alphas[i];
      if AlphaIndexIsRef(alphaIndex) {
        if alphaIndex == Fail {
          if |alphas| > 1 {
            return Thrown(Error);
          }
        } else if alphaIndex == Eof {
          if recursive {
            return Thrown(Error);
          }
        } else {
          return Thrown(Error);
        }
      }
      i := i + 1;
    }
    r := Done;
  }

  /** An entry of `enterEdges`: a bucket's target and alphabet indices, the reference of
      the target's state instruction, and whether that state is still being compiled
      further up the chain. */
  datatype EdgeEntry = EdgeEntry(next: int, alphas: seq<int>, instIndex: int, recursive: bool)

  /** The references of `count` instructions appended from position `n0` on. */
  function Refs(n0: int, count: nat): (r: seq<int>)
    ensures |r| == count && forall k | 0 <= k < count :: r[k] == n0 + InstructionRefOffset + k
  {
    seq(count, k => n0 + InstructionRefOffset + k)
  }

  /** The instructions the first emission loop appends for index `a` of an entry: a fail
      edge (circular for a recursive entry) for `fail`, an eof edge for `eof`, and nothing
      for any other index. */
  function RefInst(e: EdgeEntry, a: int): seq<Inst>
  {
    if a == Fail then [Inst(if e.recursive then TagEdgeFailCircular else TagEdgeFail, e.instIndex, -1)]
    else if a == Eof then [Inst(TagEdgeEof, e.instIndex, -1)]
    else []
  }

  /** The first emission loop over the first `n` indices of one entry. */
  function RefInstsOf(e: EdgeEntry, n: nat): seq<Inst>
    requires n <= |e.alphas|
  {
    if n == 0 then [] else RefInstsOf(e, n - 1) + RefInst(e, e.alphas[n - 1])
  }

  /** The first emission loop over the first `n` entries. */
  function RefInsts(entries: seq<EdgeEntry>, n: nat): seq<Inst>
    requires n <= |entries|
  {
    if n == 0 then [] else RefInsts(entries, n - 1) + RefInstsOf(entries[n - 1], |entries[n - 1].alphas|)
  }

  /** The character indices of a bucket, in order: the indices that are not references. */
  function NonRefs(alphas: seq<int>): seq<int>
  {
    if |alphas| == 0 then []
    else NonRefs(alphas[..|alphas| - 1]) + (if AlphaIndexIsRef(alphas[|alphas| - 1]) then [] else [alphas[|alphas| - 1]])
  }

  /** How many `extra` words the third emission loop appends for one entry. */
  function WordLen(e: EdgeEntry): nat
  {
    WordLenOf(NonRefs(e.alphas))
  }

  /** The number of words a list of character indices takes: none when it is empty,
      otherwise its length and then the indices. */
  function WordLenOf(v: seq<int>): nat
  {
    if |v| == 0 then 0 else 1 + |v|
  }

  /** The `extra` words the third emission loop appends for one entry: the number of its
      character indices and the indices themselves, or nothing when it has none. */
  function AlphaWords(e: EdgeEntry): (r: seq<int>)
    ensures |r| == WordLen(e)
  {
    WordsOf(NonRefs(e.alphas))
  }

  function WordsOf(v: seq<int>): (r: seq<int>)
    ensures |r| == WordLenOf(v)
  {
    if |v| == 0 then [] else [|v|] + v
  }

  /** The edge instruction the third emission loop appends for one entry whose words
      start at `x`. */
  function AlphaInst(e: EdgeEntry, x: int): seq<Inst>
  {
    var v := NonRefs(e.alphas);
    if |v| == 0 then [] else [EdgeInst(EdgeArgs(e.recursive, e.instIndex, x, |v|))]
  }

  /** How many words the first `n` entries append. */
  function WordCount(entries: seq<EdgeEntry>, n: nat): nat
    requires n <= |entries|
  {
    if n == 0 then 0 else WordCount(entries, n - 1) + WordLen(entries[n - 1])
  }

  /** The words of the first `n` entries. */
  function AlphaExtra(entries: seq<EdgeEntry>, n: nat): (r: seq<int>)
    requires n <= |entries|
    ensures |r| == WordCount(entries, n)
  {
    if n == 0 then [] else AlphaExtra(entries, n - 1) + AlphaWords(entries[n - 1])
  }

  /** The edge instructions of the first `n` entries, with `extra` growing from `x0`. */
  function AlphaInsts(entries: seq<EdgeEntry>, n: nat, x0: int): seq<Inst>
    requires n <= |entries|
  {
    if n == 0 then []
    else AlphaInsts(entries, n - 1, x0) + AlphaInst(entries[n - 1], x0 + WordCount(entries, n - 1))
  }

  /** The default eof edge added when no bucket has an `eof` index. */
  const EofDefault: Inst := Inst(TagEdgeEof, -1, -1)

  /** All instructions `enterEdges` appends, with `extra` growing from `x0`. */
  function Emitted(entries: seq<EdgeEntry>, hasEof: bool, x0: int): seq<Inst>
  {
    RefInsts(entries, |entries|) + (if hasEof then [] else [EofDefault]) + AlphaInsts(entries, |entries|, x0)
  }

  /** The list of edge references `enterEdges` stores for instructions appended from
      position `n0` on: the fail and eof edges, the implicit fail edge when there is no
      fail edge, then the default eof edge and the character edges. */
  function EdgeList(entries: seq<EdgeEntry>, hasFail: bool, hasEof: bool, n0: int, x0: int): seq<int>
  {
    var c1 := |RefInsts(entries, |entries|)|;
    Refs(n0, c1) + (if hasFail then [] else [RefEdgeFailImplicit]) +
    Refs(n0 + c1, (if hasEof then 0 else 1) + |AlphaInsts(entries, |entries|, x0)|)
  }

  /** Some entry has index `a`. */
  ghost predicate Mentions(entries: seq<EdgeEntry>, a: int)
  {
    exists k | 0 <= k < |entries| :: a in entries[k].alphas
  }

  /** `ref` is the implicit fail edge or refers to an edge instruction from position
      `n0` on. */
  ghost predicate Listed(insts: seq<Inst>, n0: int, ref: int)
  {
    ref == RefEdgeFailImplicit ||
    (InstructionRefOffset <= ref && n0 + InstructionRefOffset <= ref < |insts| + InstructionRefOffset &&
      IsEdgeTag(insts[ref - InstructionRefOffset].tag))
  }

  /** `ref` is the implicit fail edge or refers to a fail edge. */
  ghost predicate FailRef(insts: seq<Inst>, ref: int)
  {
    ref == RefEdgeFailImplicit ||
    (InstructionRefOffset <= ref < |insts| + InstructionRefOffset &&
      insts[ref - InstructionRefOffset].tag in {TagEdgeFail, TagEdgeFailCircular})
  }

  /** `ref` refers to an eof edge. */
  ghost predicate EofRef(insts: seq<Inst>, ref: int)
  {
    InstructionRefOffset <= ref < |insts| + InstructionRefOffset && insts[ref - InstructionRefOffset].tag == TagEdgeEof
  }

  /** The list of references stored length-prefixed at `x` in `extra`. */
  function ListAt(extra: seq<int>, x: int): seq<int>
    requires 0 <= x < |extra| && 0 <= extra[x] && x + 1 + extra[x] <= |extra|
  {
    extra[x + 1..x + 1 + extra[x]]
  }

  /** A state's edge list: stored length-prefixed at `x`, every reference in it is the
      implicit fail edge or an edge instruction from position `n0` on, and it holds a
      fail edge and an eof edge, so every state can fail and can end. */
  ghost predicate EdgeListAt(insts: seq<Inst>, extra: seq<int>, x: int, n0: int)
  {
    0 <= x < |extra| && 0 <= extra[x] && x + 1 + extra[x] <= |extra| &&
    var list := ListAt(extra, x);
    (forall k | 0 <= k < |list| :: Listed(insts, n0, list[k])) &&
    (exists k | 0 <= k < |list| :: FailRef(insts, list[k])) &&
    (exists k | 0 <= k < |list| :: EofRef(insts, list[k]))
  }

  /** A fail entry and an eof entry are different entries, so an edge list is never
      shorter than two, and `setStateInst` never makes such a state `stateAccepting`. */
  lemma EdgeListLong(insts: seq<Inst>, extra: seq<int>, x: int, n0: int)
    requires EdgeListAt(insts, extra, x, n0)
    ensures extra[x] >= 2
  {
    var list := ListAt(extra, x);
    var i :| 0 <= i < |list| && FailRef(insts, list[i]);
    var j :| 0 <= j < |list| && EofRef(insts, list[j]);
    assert i != j;
  }

  /** Every first-loop instruction is a fail or an eof edge, and every `fail` or `eof`
      index of an entry gets its own edge pointing at the entry's target. */
  lemma {:induction false} RefInstsOfMeaning(e: EdgeEntry, n: nat)
    requires n <= |e.alphas|
    ensures forall j | 0 <= j < |RefInstsOf(e, n)| :: RefInstsOf(e, n)[j].tag in {TagEdgeFail, TagEdgeFailCircular, TagEdgeEof}
    ensures forall k | 0 <= k < n && (e.alphas[k] == Fail || e.alphas[k] == Eof) :: RefInst(e, e.alphas[k])[0] in RefInstsOf(e, n)
  {
    if n > 0 {
      RefInstsOfMeaning(e, n - 1);
    }
  }

  lemma {:induction false} RefInstsMeaning(entries: seq<EdgeEntry>, n: nat)
    requires n <= |entries|
    ensures forall j | 0 <= j < |RefInsts(entries, n)| :: RefInsts(entries, n)[j].tag in {TagEdgeFail, TagEdgeFailCircular, TagEdgeEof}
    ensures forall k, a | 0 <= k < n && a in entries[k].alphas && (a == Fail || a == Eof) :: RefInst(entries[k], a)[0] in RefInsts(entries, n)
  {
    if n > 0 {
      RefInstsMeaning(entries, n - 1);
      var e := entries[n - 1];
      RefInstsOfMeaning(e, |e.alphas|);
      forall k, a | 0 <= k < n && a in entries[k].alphas && (a == Fail || a == Eof)
        ensures RefInst(entries[k], a)[0] in RefInsts(entries, n)
      {
        if k == n - 1 {
          var i :| 0 <= i < |e.alphas| && e.alphas[i] == a;
        }
      }
    }
  }

  /** Every third-loop instruction is a plain or circular edge. */
  lemma {:induction false} AlphaInstsTags(entries: seq<EdgeEntry>, n: nat, x0: int)
    requires n <= |entries|
    ensures forall j | 0 <= j < |AlphaInsts(entries, n, x0)| :: AlphaInsts(entries, n, x0)[j].tag in {TagEdge, TagEdgeCircular}
  {
    if n > 0 {
      AlphaInstsTags(entries, n - 1, x0);
      var e := entries[n - 1];
      var last := AlphaInst(e, x0 + WordCount(entries, n - 1));
      assert forall j | 0 <= j < |last| :: last[j].tag in {TagEdge, TagEdgeCircular};
      assert AlphaInsts(entries, n, x0) == AlphaInsts(entries, n - 1, x0) + last;
    }
  }

  /** The edge instruction for entry `e` names its target and reads back exactly the
      entry's character indices from `extra`. */
  ghost predicate ReadsBack(extra: seq<int>, inst: Inst, e: EdgeEntry)
  {
    var v := NonRefs(e.alphas);
    inst == EdgeInst(EdgeArgs(e.recursive, e.instIndex, inst.data2, |v|)) &&
    0 <= inst.data2 && inst.data2 + 1 + |v| <= |extra| && extra[inst.data2] == |v| &&
    extra[inst.data2 + 1..inst.data2 + 1 + |v|] == v
  }

  /** A read-back stays valid when `extra` grows. */
  lemma {:induction false} ReadsBackExtend(extra: seq<int>, more: seq<int>, inst: Inst, e: EdgeEntry)
    requires ReadsBack(extra, inst, e)
    ensures ReadsBack(extra + more, inst, e)
  {
    var v := NonRefs(e.alphas);
    assert (extra + more)[inst.data2 + 1..inst.data2 + 1 + |v|] == extra[inst.data2 + 1..inst.data2 + 1 + |v|];
  }

  /** The edge instruction of an entry whose words are appended at the end of `base`
      reads back its character indices. */
  lemma {:induction false} LastReadsBack(base: seq<int>, e: EdgeEntry)
    requires NonRefs(e.alphas) != []
    ensures ReadsBack(base + AlphaWords(e), AlphaInst(e, |base|)[0], e)
  {
    var v := NonRefs(e.alphas);
    var extra := base + AlphaWords(e);
    assert extra[|base|] == |v|;
    assert extra[|base| + 1..|base| + 1 + |v|] == v;
  }

  /** The entries among the first `n` that have character indices, in order. */
  function WithChars(entries: seq<EdgeEntry>, n: nat): seq<EdgeEntry>
    requires n <= |entries|
  {
    if n == 0 then []
    else WithChars(entries, n - 1) + (if NonRefs(entries[n - 1].alphas) == [] then [] else [entries[n - 1]])
  }

  /** `WithChars` keeps exactly the entries with character indices. */
  lemma {:induction false} WithCharsMeaning(entries: seq<EdgeEntry>, n: nat)
    requires n <= |entries|
    ensures forall k | 0 <= k < n && NonRefs(entries[k].alphas) != [] :: entries[k] in WithChars(entries, n)
    ensures forall e | e in WithChars(entries, n) :: e in entries[..n] && NonRefs(e.alphas) != []
  {
    if n > 0 {
      WithCharsMeaning(entries, n - 1);
      assert entries[..n] == entries[..n - 1] + [entries[n - 1]];
    }
  }

  /** Each instruction reads back the entry at the same position. */
  ghost predicate AllReadBack(extra: seq<int>, insts: seq<Inst>, cs: seq<EdgeEntry>)
  {
    |insts| == |cs| &&
    (|cs| == 0 || (AllReadBack(extra, insts[..|insts| - 1], cs[..|cs| - 1]) && ReadsBack(extra, insts[|insts| - 1], cs[|cs| - 1])))
  }

  lemma {:induction false} AllReadBackMeaning(extra: seq<int>, insts: seq<Inst>, cs: seq<EdgeEntry>)
    requires AllReadBack(extra, insts, cs)
    ensures |insts| == |cs| && forall j | 0 <= j < |cs| :: ReadsBack(extra, insts[j], cs[j])
  {
    if |cs| > 0 {
      AllReadBackMeaning(extra, insts[..|insts| - 1], cs[..|cs| - 1]);
    }
  }

  lemma {:induction false} AllReadBackExtend(extra: seq<int>, more: seq<int>, insts: seq<Inst>, cs: seq<EdgeEntry>)
    requires AllReadBack(extra, insts, cs)
    ensures AllReadBack(extra + more, insts, cs)
  {
    if |cs| > 0 {
      AllReadBackExtend(extra, more, insts[..|insts| - 1], cs[..|cs| - 1]);
      ReadsBackExtend(extra, more, insts[|insts| - 1], cs[|cs| - 1]);
    }
  }

  /** Appending an entry's words and its edge instruction keeps every read-back. */
  lemma {:induction false} AllReadBackSnoc(prefix: seq<int>, insts: seq<Inst>, cs: seq<EdgeEntry>, e: EdgeEntry)
    requires AllReadBack(prefix, insts, cs)
    ensures AllReadBack(prefix + AlphaWords(e), insts + AlphaInst(e, |prefix|), cs + (if NonRefs(e.alphas) == [] then [] else [e]))
  {
    AllReadBackExtend(prefix, AlphaWords(e), insts, cs);
    if NonRefs(e.alphas) != [] {
      LastReadsBack(prefix, e);
      var i := AlphaInst(e, |prefix|)[0];
      assert insts + AlphaInst(e, |prefix|) == insts + [i];
      assert (insts + [i])[..|insts|] == insts;
      assert (cs + [e])[..|cs|] == cs;
      assert AllReadBack(prefix + AlphaWords(e), insts + [i], cs + [e]);
    } else {
      assert AlphaInst(e, |prefix|) == [];
      assert insts + [] == insts && cs + [] == cs;
    }
  }

  /** The third loop appends one edge instruction per entry with character indices, in
      order, and each reads back exactly that entry's character indices from the words
      appended after `base`. */
  lemma {:induction false} AlphaReadBack(entries: seq<EdgeEntry>, n: nat, base: seq<int>)
    requires n <= |entries|
    ensures AllReadBack(base + AlphaExtra(entries, n), AlphaInsts(entries, n, |base|), WithChars(entries, n))
  {
    if n > 0 {
      var e := entries[n - 1];
      var prefix := base + AlphaExtra(entries, n - 1);
      var before := AlphaInsts(entries, n - 1, |base|);
      var cs := WithChars(entries, n - 1);
      assert base + AlphaExtra(entries, n) == prefix + AlphaWords(e);
      assert AlphaInsts(entries, n, |base|) == before + AlphaInst(e, |prefix|);
      assert WithChars(entries, n) == cs + (if NonRefs(e.alphas) == [] then [] else [e]);
      AlphaReadBack(entries, n - 1, base);
      AllReadBackSnoc(prefix, before, cs, e);
    }
  }

  lemma {:induction false} RefsJoin(n0: int, c: nat, d: nat)
    ensures Refs(n0, c) + Refs(n0 + c, d) == Refs(n0, c + d)
  {
    var joined := Refs(n0, c) + Refs(n0 + c, d);
    forall k | 0 <= k < c + d
      ensures joined[k] == n0 + InstructionRefOffset + k
    {
      if k >= c {
        assert joined[k] == Refs(n0 + c, d)[k - c];
      }
    }
  }

  lemma Snoc<T>(a: seq<T>, b: seq<T>, c: seq<T>)
    ensures a + b + c == a + (b + c)
  {
  }

  lemma {:induction false} RefInstsOfStep(e: EdgeEntry, i: nat)
    requires i < |e.alphas|
    ensures RefInstsOf(e, i + 1) == RefInstsOf(e, i) + RefInst(e, e.alphas[i])
  {
  }

  lemma {:induction false} RefInstsStep(entries: seq<EdgeEntry>, k: nat)
    requires k < |entries|
    ensures RefInsts(entries, k + 1) == RefInsts(entries, k) + RefInstsOf(entries[k], |entries[k].alphas|)
  {
  }

  lemma {:induction false} AlphaExtraStep(entries: seq<EdgeEntry>, n: nat)
    requires 0 < n <= |entries|
    ensures AlphaExtra(entries, n) == AlphaExtra(entries, n - 1) + AlphaWords(entries[n - 1])
  {
  }

  lemma {:induction false} AlphaInstsStep(entries: seq<EdgeEntry>, n: nat, x0: int)
    requires 0 < n <= |entries|
    ensures AlphaInsts(entries, n, x0) == AlphaInsts(entries, n - 1, x0) + AlphaInst(entries[n - 1], x0 + WordCount(entries, n - 1))
  {
  }

  /** `ctx.extra.append(value)`: `extra` is only ever appended to. */
  method PushExtra(ctx: CompilationContext, value: int)
    requires ctx.Valid()
    modifies ctx.extra
    ensures ctx.Valid() && ctx.extra.buffer == old(ctx.extra.buffer) + [value]
  {
    ArrayLists.OverwriteAtEnd(ctx.extra.buffer, [value]);
    ctx.extra.Append(value);
  }

  /** One step of the first emission loop: a fail edge (circular for a recursive entry)
      for `fail`, an eof edge for `eof`, pushed on `scratch`; nothing for other indices. */
  method EmitRefEdge(ctx: CompilationContext, entry: EdgeEntry, alphaIndex: int)
    requires ctx.Valid()
    modifies ctx, ctx.scratch
    ensures ctx.Valid() && ctx.extra.buffer == old(ctx.extra.buffer)
    ensures ctx.instructions == old(ctx.instructions) + RefInst(entry, alphaIndex)
    ensures ctx.scratch.Items() == old(ctx.scratch.Items()) + Refs(|old(ctx.instructions)|, |RefInst(entry, alphaIndex)|)
  {
    if AlphaIndexIsRef(alphaIndex) {
      if alphaIndex == Fail {
        var ref := ctx.AddInst(Inst(if entry.recursive then TagEdgeFailCircular else TagEdgeFail, entry.instIndex, -1));
        ctx.scratch.Append(ref);
      } else if alphaIndex == Eof {
        var ref := ctx.AddInst(Inst(TagEdgeEof, entry.instIndex, -1));
        ctx.scratch.Append(ref);
      }
    }
  }

  /** The inner loop of the first emission loop, for one entry. */
  method EmitRefEdgesOf(ctx: CompilationContext, entry: EdgeEntry)
    requires ctx.Valid()
    modifies ctx, ctx.scratch
    ensures ctx.Valid() && ctx.extra.buffer == old(ctx.extra.buffer)
    ensures ctx.instructions == old(ctx.instructions) + RefInstsOf(entry, |entry.alphas|)
    ensures ctx.scratch.Items() == old(ctx.scratch.Items()) + Refs(|old(ctx.instructions)|, |RefInstsOf(entry, |entry.alphas|)|)
  {
    ghost var n0 := |ctx.instructions|;
    ghost var i0 := ctx.instructions;
    ghost var s0 := ctx.scratch.Items();
    ghost var insts: seq<Inst> := [];
    var i := 0;
    while i < |entry.alphas|
      invariant 0 <= i <= |entry.alphas| && ctx.Valid() && ctx.extra.buffer == old(ctx.extra.buffer)
      invariant ctx.instructions == i0 + insts
      invariant ctx.scratch.Items() == s0 + Refs(n0, |insts|)
      invariant insts == RefInstsOf(entry, i)
    {
      ghost var step := RefInst(entry, entry.alphas[i]);
      RefInstsOfStep(entry, i);
      Snoc(i0, insts, step);
      RefsSnoc(s0, n0, |insts|, |step|);
      EmitRefEdge(ctx, entry, entry.alphas[i]);
      insts := insts + step;
      i := i + 1;
    }
  }

  /** The first emission loop. */
  method EmitRefEdges(ctx: CompilationContext, entries: seq<EdgeEntry>)
    requires ctx.Valid()
    modifies ctx, ctx.scratch
    ensures ctx.Valid() && ctx.extra.buffer == old(ctx.extra.buffer)
    ensures ctx.instructions == old(ctx.instructions) + RefInsts(entries, |entries|)
    ensures ctx.scratch.Items() == old(ctx.scratch.Items()) + Refs(|old(ctx.instructions)|, |RefInsts(entries, |entries|)|)
  {
    ghost var n0 := |ctx.instructions|;
    ghost var i0 := ctx.instructions;
    ghost var s0 := ctx.scratch.Items();
    ghost var insts: seq<Inst> := [];
    var k := 0;
    while k < |entries|
      invariant 0 <= k <= |entries| && ctx.Valid() && ctx.extra.buffer == old(ctx.extra.buffer)
      invariant ctx.instructions == i0 + insts
      invariant ctx.scratch.Items() == s0 + Refs(n0, |insts|)
      invariant insts == RefInsts(entries, k)
    {
      ghost var step := RefInstsOf(entries[k], |entries[k].alphas|);
      RefInstsStep(entries, k);
      Snoc(i0, insts, step);
      RefsSnoc(s0, n0, |insts|, |step|);
      EmitRefEdgesOf(ctx, entries[k]);
      insts := insts + step;
      k := k + 1;
    }
  }

  /** The counting loop of the third emission loop. */
  method CountNonRefs(alphas: seq<int>) returns (validCount: int)
    ensures validCount == |NonRefs(alphas)|
  {
    validCount := 0;
    var i := 0;
    while i < |alphas|
      invariant 0 <= i <= |alphas| && validCount == |NonRefs(alphas[..i])|
    {
      assert alphas[..i + 1][..i] == alphas[..i];
      if !AlphaIndexIsRef(alphas[i]) {
        validCount := validCount + 1;
      }
      i := i + 1;
    }
    assert alphas[..i] == alphas;
  }

  /** The copying loop of the third emission loop. */
  method AppendNonRefs(ctx: CompilationContext, alphas: seq<int>)
    requires ctx.Valid()
    modifies ctx.extra
    ensures ctx.Valid() && ctx.extra.buffer == old(ctx.extra.buffer) + NonRefs(alphas)
  {
    var i := 0;
    while i < |alphas|
      invariant 0 <= i <= |alphas| && ctx.Valid() && ctx.extra.buffer == old(ctx.extra.buffer) + NonRefs(alphas[..i])
    {
      assert alphas[..i + 1][..i] == alphas[..i];
      if !AlphaIndexIsRef(alphas[i]) {
        PushExtra(ctx, alphas[i]);
      }
      i := i + 1;
    }
    assert alphas[..i] == alphas;
  }

  lemma AlphaLoopStep(entries: seq<EdgeEntry>, k: nat, x0: int, words: seq<int>, insts: seq<Inst>)
    requires k < |entries| && words == AlphaExtra(entries, k) && insts == AlphaInsts(entries, k, x0)
    ensures words + AlphaWords(entries[k]) == AlphaExtra(entries, k + 1)
    ensures insts + AlphaInst(entries[k], x0 + |words|) == AlphaInsts(entries, k + 1, x0)
  {
    AlphaExtraStep(entries, k + 1);
    AlphaInstsStep(entries, k + 1, x0);
  }

  lemma RefsSnoc(s0: seq<int>, n0: int, c: nat, d: nat)
    ensures s0 + Refs(n0, c) + Refs(n0 + c, d) == s0 + Refs(n0, c + d)
  {
    RefsJoin(n0, c, d);
    Snoc(s0, Refs(n0, c), Refs(n0 + c, d));
  }

  /** One step of the third emission loop: an entry with character indices gets its
      length-prefixed indices in `extra` and an edge instruction pointing at them. */
  method EmitAlphaEdge(ctx: CompilationContext, entry: EdgeEntry, ghost words: seq<int>, ghost step: seq<Inst>)
    requires ctx.Valid()
    requires words == AlphaWords(entry) && step == AlphaInst(entry, |ctx.extra.buffer|)
    modifies ctx, ctx.extra, ctx.scratch
    ensures ctx.Valid()
    ensures ctx.extra.buffer == old(ctx.extra.buffer) + words
    ensures ctx.instructions == old(ctx.instructions) + step
    ensures ctx.scratch.Items() == old(ctx.scratch.Items()) + Refs(|old(ctx.instructions)|, |step|)
  {
    var validCount := CountNonRefs(entry.alphas);
    if validCount == 0 {
      return;
    }
    var alphabetsStart := ctx.extra.GetSize();
    PushExtra(ctx, validCount);
    AppendNonRefs(ctx, entry.alphas);
    var ref := ctx.AddEdgeInst(EdgeArgs(entry.recursive, entry.instIndex, alphabetsStart, validCount));
    ctx.scratch.Append(ref);
  }

  /** The third emission loop. */
  method EmitAlphaEdges(ctx: CompilationContext, entries: seq<EdgeEntry>)
    requires ctx.Valid()
    modifies ctx, ctx.extra, ctx.scratch
    ensures ctx.Valid()
    ensures ctx.extra.buffer == old(ctx.extra.buffer) + AlphaExtra(entries, |entries|)
    ensures ctx.instructions == old(ctx.instructions) + AlphaInsts(entries, |entries|, |old(ctx.extra.buffer)|)
    ensures ctx.scratch.Items() == old(ctx.scratch.Items()) + Refs(|old(ctx.instructions)|, |AlphaInsts(entries, |entries|, |old(ctx.extra.buffer)|)|)
  {
    ghost var n0 := |ctx.instructions|;
    ghost var x0 := |ctx.extra.buffer|;
    ghost var s0 := ctx.scratch.Items();
    ghost var e0 := ctx.extra.buffer;
    ghost var i0 := ctx.instructions;
    ghost var words: seq<int> := [];
    ghost var insts: seq<Inst> := [];
    var k := 0;
    while k < |entries|
      invariant 0 <= k <= |entries| && ctx.Valid()
      invariant ctx.extra.buffer == e0 + words
      invariant ctx.instructions == i0 + insts
      invariant ctx.scratch.Items() == s0 + Refs(n0, |insts|)
      invariant words == AlphaExtra(entries, k) && insts == AlphaInsts(entries, k, x0)
    {
      ghost var more := AlphaWords(entries[k]);
      ghost var step := AlphaInst(entries[k], x0 + |words|);
      AlphaLoopStep(entries, k, x0, words, insts);
      Snoc(e0, words, more);
      Snoc(i0, insts, step);
      RefsSnoc(s0, n0, |insts|, |step|);
      assert |ctx.extra.buffer| == x0 + |words|;
      EmitAlphaEdge(ctx, entries[k], more, step);
      words := words + more;
      insts := insts + step;
      k := k + 1;
    }
  }

  /** The end of `enterEdges`: the references pushed since `scratchTop` are stored
      length-prefixed at the end of `extra`, and `scratch` is cut back to `scratchTop`. */
  method Pack(ctx: CompilationContext, scratchTop: nat, ghost base: seq<int>, ghost list: seq<int>) returns (extraIndex: int)
    requires ctx.Valid() && ctx.scratch.Items() == base + list && |base| == scratchTop
    modifies ctx.extra, ctx.scratch
    ensures ctx.Valid()
    ensures extraIndex == |old(ctx.extra.buffer)|
    ensures ctx.extra.buffer == old(ctx.extra.buffer) + [|list|] + list
    ensures ctx.scratch.Items() == base
  {
    assert ctx.scratch.Items()[scratchTop..] == list && ctx.scratch.Items()[..scratchTop] == base;
    var slice := ctx.scratch.Slice(Number(scratchTop), Number(ctx.scratch.GetSize()));
    assert slice.Ok?;
    assert slice.value.Elements() == list;
    extraIndex := ctx.extra.GetSize();
    PushExtra(ctx, slice.value.GetSize());
    ArrayLists.OverwriteAtEnd(ctx.extra.buffer, slice.value.Elements());
    ctx.extra.AppendSlice(slice.value);
    var _ := ctx.scratch.SetSize(Number(scratchTop));
  }


  /** The emission part of `enterEdges`: a fail or eof edge for each such index of each
      entry, the implicit fail edge unless some entry has `fail`, the default eof edge
      unless some entry has `eof`, a character edge with its indices in `extra` for each
      entry that has character indices, and finally the list of all those references,
      stored length-prefixed in `extra`. `scratch` ends as it began. */
  method EmitEdges(ctx: CompilationContext, entries: seq<EdgeEntry>, hasFail: bool, hasEof: bool) returns (extraIndex: int)
    requires ctx.Valid()
    modifies ctx, ctx.extra, ctx.scratch
    ensures ctx.Valid()
    ensures ctx.instructions == old(ctx.instructions) + Emitted(entries, hasEof, |old(ctx.extra.buffer)|)
    ensures extraIndex == |old(ctx.extra.buffer)| + WordCount(entries, |entries|)
    ensures var list := EdgeList(entries, hasFail, hasEof, |old(ctx.instructions)|, |old(ctx.extra.buffer)|);
      ctx.extra.buffer == old(ctx.extra.buffer) + AlphaExtra(entries, |entries|) + [|list|] + list
    ensures ctx.scratch.Items() == old(ctx.scratch.Items())
  {
    ghost var s0 := ctx.scratch.Items();
    ghost var list := EdgeList(entries, hasFail, hasEof, |ctx.instructions|, |ctx.extra.buffer|);
    var scratchTop := ctx.scratch.GetSize();
    EmitEdgeInsts(ctx, entries, hasFail, hasEof);
    extraIndex := Pack(ctx, scratchTop, s0, list);
  }

  /** The three emission steps of `enterEdges`, before the references are packed. */
  method EmitEdgeInsts(ctx: CompilationContext, entries: seq<EdgeEntry>, hasFail: bool, hasEof: bool)
    requires ctx.Valid()
    modifies ctx, ctx.extra, ctx.scratch
    ensures ctx.Valid()
    ensures ctx.instructions == old(ctx.instructions) + Emitted(entries, hasEof, |old(ctx.extra.buffer)|)
    ensures ctx.extra.buffer == old(ctx.extra.buffer) + AlphaExtra(entries, |entries|)
    ensures ctx.scratch.Items() == old(ctx.scratch.Items()) + EdgeList(entries, hasFail, hasEof, |old(ctx.instructions)|, |old(ctx.extra.buffer)|)
  {
    ghost var i0 := ctx.instructions;
    ghost var e0 := ctx.extra.buffer;
    ghost var s0 := ctx.scratch.Items();
    EmitRefEdges(ctx, entries);
    ghost var i1, t1 := ctx.instructions, ctx.scratch.Items();
    EmitDefaults(ctx, hasFail, hasEof);
    ghost var i2, t2 := ctx.instructions, ctx.scratch.Items();
    EmitAlphaEdges(ctx, entries);
    ghost var R := RefInsts(entries, |entries|);
    ghost var A := AlphaInsts(entries, |entries|, |e0|);
    ghost var D: seq<Inst> := if hasEof then [] else [EofDefault];
    ghost var F: seq<int> := if hasFail then [] else [RefEdgeFailImplicit];
    EdgeListParts(entries, hasFail, hasEof, |i0|, |e0|, R, F, D, A);
    EmitSteps(i0, R, D, A, s0, F, i1, i2, ctx.instructions, t1, t2, ctx.scratch.Items());
  }

  lemma EdgeListParts(entries: seq<EdgeEntry>, hasFail: bool, hasEof: bool, n0: int, x0: int,
                       r: seq<Inst>, f: seq<int>, d: seq<Inst>, a: seq<Inst>)
    requires r == RefInsts(entries, |entries|) && a == AlphaInsts(entries, |entries|, x0)
    requires f == (if hasFail then [] else [RefEdgeFailImplicit]) && d == (if hasEof then [] else [EofDefault])
    ensures EdgeList(entries, hasFail, hasEof, n0, x0) == Refs(n0, |r|) + f + Refs(n0 + |r|, |d| + |a|)
    ensures Emitted(entries, hasEof, x0) == r + d + a
  {
  }

  /** The three emission steps of `enterEdges` put together. */
  lemma EmitSteps<T>(i0: seq<T>, r: seq<T>, d: seq<T>, a: seq<T>, s0: seq<int>, f: seq<int>,
                     i1: seq<T>, i2: seq<T>, i3: seq<T>, t1: seq<int>, t2: seq<int>, t3: seq<int>)
    requires i1 == i0 + r && t1 == s0 + Refs(|i0|, |r|)
    requires i2 == i1 + d && t2 == t1 + f + Refs(|i1|, |d|)
    requires i3 == i2 + a && t3 == t2 + Refs(|i2|, |a|)
    ensures i3 == i0 + (r + d + a)
    ensures t3 == s0 + (Refs(|i0|, |r|) + f + Refs(|i0| + |r|, |d| + |a|))
  {
    ListJoin(s0, |i0|, |r|, f, |d|, |a|);
  }

  /** The implicit fail edge and the default eof edge of `enterEdges`. */
  method EmitDefaults(ctx: CompilationContext, hasFail: bool, hasEof: bool)
    requires ctx.Valid()
    modifies ctx, ctx.scratch
    ensures ctx.Valid() && ctx.extra.buffer == old(ctx.extra.buffer)
    ensures ctx.instructions == old(ctx.instructions) + (if hasEof then [] else [EofDefault])
    ensures ctx.scratch.Items() == old(ctx.scratch.Items()) + (if hasFail then [] else [RefEdgeFailImplicit]) +
      Refs(|old(ctx.instructions)|, if hasEof then 0 else 1)
  {
    ghost var s0 := ctx.scratch.Items();
    if !hasFail {
      ctx.scratch.Append(RefEdgeFailImplicit);
    }
    ghost var s1 := ctx.scratch.Items();
    if !hasEof {
      var ref := ctx.AddInst(EofDefault);
      ctx.scratch.Append(ref);
      assert ctx.scratch.Items() == s1 + [ref];
    } else {
      assert ctx.scratch.Items() == s1 + [];
    }
  }

  /** The references pushed by the three emission steps, joined. */
  lemma ListJoin(s0: seq<int>, n0: int, r: nat, f: seq<int>, d: nat, a: nat)
    ensures s0 + Refs(n0, r) + f + Refs(n0 + r, d) + Refs(n0 + r + d, a) == s0 + (Refs(n0, r) + f + Refs(n0 + r, d + a))
  {
    RefsJoin(n0 + r, d, a);
    var p := Refs(n0, r);
    var q := Refs(n0 + r, d);
    var t := Refs(n0 + r + d, a);
    assert s0 + p + f + q + t == s0 + (p + f + (q + t));
  }

  /** Every instruction `enterEdges` emits is an edge instruction. */
  lemma EmittedTags(entries: seq<EdgeEntry>, hasEof: bool, x0: int)
    ensures forall j | 0 <= j < |Emitted(entries, hasEof, x0)| :: IsEdgeTag(Emitted(entries, hasEof, x0)[j].tag)
  {
    var R := RefInsts(entries, |entries|);
    var D: seq<Inst> := if hasEof then [] else [EofDefault];
    var A := AlphaInsts(entries, |entries|, x0);
    RefInstsMeaning(entries, |entries|);
    AlphaInstsTags(entries, |entries|, x0);
    var E := Emitted(entries, hasEof, x0);
    assert E == R + D + A;
    forall j | 0 <= j < |E|
      ensures IsEdgeTag(E[j].tag)
    {
      if j < |R| {
        assert E[j] == R[j];
      } else if j < |R| + |D| {
        assert E[j] == EofDefault;
      } else {
        assert E[j] == A[j - |R| - |D|];
      }
    }
  }

  /** Every reference in the stored list is the implicit fail edge or one of the
      emitted instructions. */
  lemma EdgeListShape(entries: seq<EdgeEntry>, hasFail: bool, hasEof: bool, n0: int, x0: int)
    ensures var list := EdgeList(entries, hasFail, hasEof, n0, x0);
      forall k | 0 <= k < |list| :: (list[k] == RefEdgeFailImplicit ||
        n0 + InstructionRefOffset <= list[k] < n0 + InstructionRefOffset + |Emitted(entries, hasEof, x0)|)
  {
    var c1 := |RefInsts(entries, |entries|)|;
    var F: seq<int> := if hasFail then [] else [RefEdgeFailImplicit];
    var d := (if hasEof then 0 else 1) + |AlphaInsts(entries, |entries|, x0)|;
    var list := EdgeList(entries, hasFail, hasEof, n0, x0);
    assert list == Refs(n0, c1) + F + Refs(n0 + c1, d);
    assert |Emitted(entries, hasEof, x0)| == c1 + d;
    forall k | 0 <= k < |list|
      ensures list[k] == RefEdgeFailImplicit || n0 + InstructionRefOffset <= list[k] < n0 + InstructionRefOffset + c1 + d
    {
      if k < c1 {
        assert list[k] == Refs(n0, c1)[k];
      } else if k < c1 + |F| {
        assert list[k] == RefEdgeFailImplicit;
      } else {
        assert list[k] == Refs(n0 + c1, d)[k - c1 - |F|];
      }
    }
  }

  /** Where the reference to emitted instruction `j` sits in the stored list: at `j`
      among the fail and eof edges, after the implicit fail edge otherwise. */
  lemma PointsAt(insts0: seq<Inst>, r: seq<Inst>, d: seq<Inst>, a: seq<Inst>, f: seq<int>, j: int)
    requires 0 <= j < |r| + |d| + |a|
    ensures var list := Refs(|insts0|, |r|) + f + Refs(|insts0| + |r|, |d| + |a|);
      var k := if j < |r| then j else j + |f|;
      0 <= k < |list| && list[k] == |insts0| + InstructionRefOffset + j &&
      (insts0 + (r + d + a))[|insts0| + j] == (r + d + a)[j] &&
      (j < |r| ==> (r + d + a)[j] == r[j]) &&
      (|r| <= j < |r| + |d| ==> (r + d + a)[j] == d[j - |r|])
  {
    var list := Refs(|insts0|, |r|) + f + Refs(|insts0| + |r|, |d| + |a|);
    if j < |r| {
      assert list[j] == Refs(|insts0|, |r|)[j];
    } else {
      assert list[j + |f|] == Refs(|insts0| + |r|, |d| + |a|)[j - |r|];
    }
  }

  /** Without a fail edge among the entries, the implicit fail edge follows the entries'
      references in the stored list. */
  lemma ImplicitAt(n0: int, r: nat, f: seq<int>, m: nat)
    requires f == [RefEdgeFailImplicit]
    ensures var list := Refs(n0, r) + f + Refs(n0 + r, m);
      r < |list| && list[r] == RefEdgeFailImplicit
  {
    var list := Refs(n0, r) + f + Refs(n0 + r, m);
    assert list[r] == f[0];
  }

  /** The reference to a fail or eof edge of the first emission loop in the stored list. */
  lemma RefInList(insts0: seq<Inst>, r: seq<Inst>, d: seq<Inst>, a: seq<Inst>, f: seq<int>, inst: Inst) returns (k: int)
    requires inst in r
    ensures var list := Refs(|insts0|, |r|) + f + Refs(|insts0| + |r|, |d| + |a|);
      0 <= k < |list| && InstructionRefOffset <= list[k] < |insts0 + (r + d + a)| + InstructionRefOffset &&
      (insts0 + (r + d + a))[list[k] - InstructionRefOffset] == inst
  {
    var j :| 0 <= j < |r| && r[j] == inst;
    PointsAt(insts0, r, d, a, f, j);
    k := j;
  }

  /** The stored list holds the implicit fail edge or a fail edge. */
  lemma FailPresent(entries: seq<EdgeEntry>, hasFail: bool, hasEof: bool, insts0: seq<Inst>, x0: int)
    requires hasFail ==> Mentions(entries, Fail)
    ensures var list := EdgeList(entries, hasFail, hasEof, |insts0|, x0);
      exists k | 0 <= k < |list| :: FailRef(insts0 + Emitted(entries, hasEof, x0), list[k])
  {
    var R := RefInsts(entries, |entries|);
    var F: seq<int> := if hasFail then [] else [RefEdgeFailImplicit];
    var D: seq<Inst> := if hasEof then [] else [EofDefault];
    var A := AlphaInsts(entries, |entries|, x0);
    EdgeListParts(entries, hasFail, hasEof, |insts0|, x0, R, F, D, A);
    var list := Refs(|insts0|, |R|) + F + Refs(|insts0| + |R|, |D| + |A|);
    var k: int;
    if hasFail {
      var k0 :| 0 <= k0 < |entries| && Fail in entries[k0].alphas;
      RefInstsMeaning(entries, |entries|);
      k := RefInList(insts0, R, D, A, F, RefInst(entries[k0], Fail)[0]);
      assert FailRef(insts0 + (R + D + A), list[k]);
    } else {
      ImplicitAt(|insts0|, |R|, F, |D| + |A|);
      k := |R|;
    }
    assert 0 <= k < |list| && FailRef(insts0 + Emitted(entries, hasEof, x0), EdgeList(entries, hasFail, hasEof, |insts0|, x0)[k]);
  }

  /** The stored list holds an eof edge: one of the entries' or the default one. */
  lemma EofPresent(entries: seq<EdgeEntry>, hasFail: bool, hasEof: bool, insts0: seq<Inst>, x0: int)
    requires hasEof ==> Mentions(entries, Eof)
    ensures var list := EdgeList(entries, hasFail, hasEof, |insts0|, x0);
      exists k | 0 <= k < |list| :: EofRef(insts0 + Emitted(entries, hasEof, x0), list[k])
  {
    var R := RefInsts(entries, |entries|);
    var F: seq<int> := if hasFail then [] else [RefEdgeFailImplicit];
    var D: seq<Inst> := if hasEof then [] else [EofDefault];
    var A := AlphaInsts(entries, |entries|, x0);
    EdgeListParts(entries, hasFail, hasEof, |insts0|, x0, R, F, D, A);
    var list := Refs(|insts0|, |R|) + F + Refs(|insts0| + |R|, |D| + |A|);
    var k: int;
    if hasEof {
      var k0 :| 0 <= k0 < |entries| && Eof in entries[k0].alphas;
      RefInstsMeaning(entries, |entries|);
      k := RefInList(insts0, R, D, A, F, RefInst(entries[k0], Eof)[0]);
      assert EofRef(insts0 + (R + D + A), list[k]);
    } else {
      PointsAt(insts0, R, D, A, F, |R|);
      k := |R| + |F|;
      assert EofRef(insts0 + (R + D + A), list[k]);
    }
    assert 0 <= k < |list| && EofRef(insts0 + Emitted(entries, hasEof, x0), EdgeList(entries, hasFail, hasEof, |insts0|, x0)[k]);
  }

  /** What `enterEdges` stores at `x` is a state's edge list over the instructions it
      emitted from position `|insts0|` on. */
  lemma EmittedListAt(entries: seq<EdgeEntry>, hasFail: bool, hasEof: bool, insts0: seq<Inst>, extra0: seq<int>,
                       insts: seq<Inst>, extra: seq<int>, x: int)
    requires hasFail ==> Mentions(entries, Fail)
    requires hasEof ==> Mentions(entries, Eof)
    requires insts == insts0 + Emitted(entries, hasEof, |extra0|) && x == |extra0| + WordCount(entries, |entries|)
    requires var list := EdgeList(entries, hasFail, hasEof, |insts0|, |extra0|);
      extra == extra0 + AlphaExtra(entries, |entries|) + [|list|] + list
    ensures EdgeListAt(insts, extra, x, |insts0|)
  {
    var list := EdgeList(entries, hasFail, hasEof, |insts0|, |extra0|);
    var E := Emitted(entries, hasEof, |extra0|);
    EmittedTags(entries, hasEof, |extra0|);
    EdgeListShape(entries, hasFail, hasEof, |insts0|, |extra0|);
    ListedAll(insts0, E, list);
    FailPresent(entries, hasFail, hasEof, insts0, |extra0|);
    EofPresent(entries, hasFail, hasEof, insts0, |extra0|);
    var base := extra0 + AlphaExtra(entries, |entries|);
    EdgeListFromParts(insts0 + E, base, list, |insts0|);
    assert insts == insts0 + E && extra == base + [|list|] + list && x == |base|;
  }

  lemma EdgeListFromParts(insts: seq<Inst>, base: seq<int>, list: seq<int>, n0: int)
    requires forall k | 0 <= k < |list| :: Listed(insts, n0, list[k])
    requires exists k | 0 <= k < |list| :: FailRef(insts, list[k])
    requires exists k | 0 <= k < |list| :: EofRef(insts, list[k])
    ensures EdgeListAt(insts, base + [|list|] + list, |base|, n0)
  {
    PackedAt(base, list);
  }

  /** A list stored length-prefixed at the end of `base` is found at `|base|`. */
  lemma PackedAt(base: seq<int>, list: seq<int>)
    ensures var extra := base + [|list|] + list;
      |base| < |extra| && extra[|base|] == |list| && ListAt(extra, |base|) == list
  {
    var extra := base + [|list|] + list;
    assert extra[|base| + 1..|base| + 1 + |list|] == list;
  }

  /** References that are the implicit fail edge or point into edge instructions emitted
      after `insts0` are all listed. */
  lemma ListedAll(insts0: seq<Inst>, e: seq<Inst>, list: seq<int>)
    requires forall j | 0 <= j < |e| :: IsEdgeTag(e[j].tag)
    requires forall k | 0 <= k < |list| :: (list[k] == RefEdgeFailImplicit ||
      |insts0| + InstructionRefOffset <= list[k] < |insts0| + InstructionRefOffset + |e|)
    ensures forall k | 0 <= k < |list| :: Listed(insts0 + e, |insts0|, list[k])
  {
    forall k | 0 <= k < |list|
      ensures Listed(insts0 + e, |insts0|, list[k])
    {
      if list[k] != RefEdgeFailImplicit {
        assert (insts0 + e)[list[k] - InstructionRefOffset] == e[list[k] - InstructionRefOffset - |insts0|];
      }
    }
  }
}
