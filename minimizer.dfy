/** algs/minimizer.js: minimisation of a symbol-keyed DFA by partition refinement. The
    states are split into accepting and other states; a work list of partition positions
    is drained, and a partition whose states' images on some index fall into more than one
    partition (or some into ErrorState) is split by those images. Every partition seen
    reaching a split partition is queued again through the `reachable` map. At the end
    each partition becomes one state of a new DFA. */
module Minimizer {
  import opened Js
  import opened Automata
  import opened Ordered
  import SymbolDfa
  import WorkLists
  import SetFacts

  /** `Partition`: its name and its states in insertion order. The name is the fresh
      symbol `p{index}` of the partition's position, modelled by that position. */
  datatype Partition = Partition(name: int, states: seq<int>)

  /** `names`: for each state, the position of the partition holding it. */
  type Names = map<int, int>

  /** `reachable`: for each partition name, the positions of the partitions seen reaching
      it, as an insertion-ordered set. */
  type Reachable = map<int, seq<int>>

  /** The `bucket` map of `processAlpha`: keys in insertion order with their states. */
  type Buckets = seq<(int, seq<int>)>

  /** A state `delta` does not throw for: `ErrorState`, or a state with a mapping. */
  predicate Good(m: SymbolDfa.Edges, s: int)
  {
    s == ErrorState || s in m
  }

  /** `partitions.at(names.get(s))`, as a position: the partition named for `s`, or the
      first one when `s` has no name, since `at(undefined)` reads position 0. */
  function NameOf(names: Names, s: int): int
  {
    if s in names then names[s] else 0
  }

  /** The bucket `processAlpha` files `s` under on `index`: `ErrorState` for a dead image,
      otherwise the name of the partition holding the image. */
  function Key(m: SymbolDfa.Edges, names: Names, s: int, index: int): int
  {
    var image := SymbolDfa.Step(m, s, index);
    if image == ErrorState then ErrorState else NameOf(names, image)
  }

  /** Where `key` sits among the bucket keys, or -1 (`bucket.has(key)` is false). */
  function KeyIndex(b: Buckets, key: int): (r: int)
    ensures -1 <= r < |b|
    ensures r == -1 <==> forall j :: 0 <= j < |b| ==> b[j].0 != key
    ensures r != -1 ==> b[r].0 == key && forall j :: 0 <= j < r ==> b[j].0 != key
  {
    FindIndex(b, (e: (int, seq<int>)) => e.0 == key)
  }

  /** `bucket.get(key).push(s)` when the key is present, `bucket.set(key, [s])` otherwise. */
  function Insert(b: Buckets, key: int, s: int): Buckets
  {
    var j := KeyIndex(b, key);
    if j == -1 then b + [(key, [s])] else b[j := (key, b[j].1 + [s])]
  }

  /** The states of `states` filed under `k`, in order. */
  function Members(keyOf: int -> int, states: seq<int>, k: int): seq<int>
    decreases |states|
  {
    if |states| == 0 then []
    else
      var s := states[|states| - 1];
      Members(keyOf, states[..|states| - 1], k) + if keyOf(s) == k then [s] else []
  }

  /** The live keys (those other than `ErrorState`) in order of first appearance. */
  function LiveKeys(keyOf: int -> int, states: seq<int>): seq<int>
    decreases |states|
  {
    if |states| == 0 then []
    else
      var keys := LiveKeys(keyOf, states[..|states| - 1]);
      var k := keyOf(states[|states| - 1]);
      if k == ErrorState || k in keys then keys else keys + [k]
  }

  /** `bucket` after a prefix of the state loop: each live key seen so far with the
      states filed under it. */
  function Table(keyOf: int -> int, states: seq<int>): (r: Buckets)
    ensures |r| == |LiveKeys(keyOf, states)|
    ensures forall j | 0 <= j < |r| :: r[j].0 == LiveKeys(keyOf, states)[j]
    ensures forall j | 0 <= j < |r| :: r[j].1 == Members(keyOf, states, r[j].0)
  {
    var keys := LiveKeys(keyOf, states);
    seq(|keys|, j requires 0 <= j < |keys| => (keys[j], Members(keyOf, states, keys[j])))
  }

  /** The final `bucket` map: the live buckets, then `errorBucket` if it is not empty. */
  function AllBuckets(keyOf: int -> int, states: seq<int>): Buckets
  {
    var dead := Members(keyOf, states, ErrorState);
    Table(keyOf, states) + if |dead| > 0 then [(ErrorState, dead)] else []
  }

  /** A state is filed under `k` exactly when it is one of the states and has key `k`. */
  lemma {:induction false} MembersIn(keyOf: int -> int, states: seq<int>, k: int)
    ensures forall s :: s in Members(keyOf, states, k) <==> s in states && keyOf(s) == k
    ensures Distinct(states) ==> Distinct(Members(keyOf, states, k))
    decreases |states|
  {
    if |states| > 0 {
      var init := states[..|states| - 1];
      assert states == init + [states[|states| - 1]];
      MembersIn(keyOf, init, k);
    }
  }

  /** The live keys are distinct, and a key other than `ErrorState` is among them exactly
      when some state has it. */
  lemma {:induction false} LiveKeysIn(keyOf: int -> int, states: seq<int>)
    ensures Distinct(LiveKeys(keyOf, states))
    ensures forall k :: k in LiveKeys(keyOf, states) <==> k != ErrorState && |Members(keyOf, states, k)| > 0
    decreases |states|
  {
    if |states| > 0 {
      var init := states[..|states| - 1];
      assert states == init + [states[|states| - 1]];
      LiveKeysIn(keyOf, init);
    }
  }

  lemma MembersSnoc(keyOf: int -> int, init: seq<int>, s: int, k: int)
    ensures keyOf(s) == k ==> Members(keyOf, init + [s], k) == Members(keyOf, init, k) + [s]
    ensures keyOf(s) != k ==> Members(keyOf, init + [s], k) == Members(keyOf, init, k)
  {
    var states := init + [s];
    assert states[..|states| - 1] == init;
    assert Members(keyOf, init, k) + [] == Members(keyOf, init, k);
  }

  /** The error bucket after one more state, as the loop builds it. */
  lemma ErrorBucketStep(keyOf: int -> int, init: seq<int>, s: int, before: seq<int>, after: seq<int>)
    requires before == Members(keyOf, init, ErrorState)
    requires after == if keyOf(s) == ErrorState then before + [s] else before
    ensures after == Members(keyOf, init + [s], ErrorState)
  {
    MembersSnoc(keyOf, init, s, ErrorState);
  }

  lemma LiveKeysSnoc(keyOf: int -> int, init: seq<int>, s: int)
    ensures var keys := LiveKeys(keyOf, init);
      LiveKeys(keyOf, init + [s]) == if keyOf(s) == ErrorState || keyOf(s) in keys then keys else keys + [keyOf(s)]
  {
    var states := init + [s];
    assert states[..|states| - 1] == init;
  }

  /** One pass of the state loop on a live key is `Insert`. */
  lemma InsertStep(keyOf: int -> int, init: seq<int>, s: int)
    requires keyOf(s) != ErrorState
    ensures Insert(Table(keyOf, init), keyOf(s), s) == Table(keyOf, init + [s])
  {
    var keys, t, k := LiveKeys(keyOf, init), Table(keyOf, init), keyOf(s);
    var t' := Table(keyOf, init + [s]);
    LiveKeysIn(keyOf, init);
    LiveKeysSnoc(keyOf, init, s);
    var r := Insert(t, k, s);
    var j := KeyIndex(t, k);
    forall i | 0 <= i < |keys|
      ensures t'[i].0 == keys[i]
      ensures t'[i].1 == if k == keys[i] then Members(keyOf, init, keys[i]) + [s] else Members(keyOf, init, keys[i])
    {
      MembersSnoc(keyOf, init, s, keys[i]);
    }
    if j == -1 {
      assert k !in keys;
      assert |Members(keyOf, init, k)| == 0;
      MembersSnoc(keyOf, init, s, k);
      assert [] + [s] == [s];
      assert |t'| == |keys| + 1;
      assert t'[|keys|] == (k, [s]);
      assert r == t';
    } else {
      assert keys[j] == k;
      forall i | 0 <= i < |keys|
        ensures r[i] == t'[i]
      {
        if i != j {
          assert keys[i] != k;
        }
      }
      assert r == t';
    }
  }

  /** A dead key leaves the live buckets as they are. */
  lemma DeadStep(keyOf: int -> int, init: seq<int>, s: int)
    requires keyOf(s) == ErrorState
    ensures Table(keyOf, init) == Table(keyOf, init + [s])
  {
    var keys := LiveKeys(keyOf, init);
    LiveKeysIn(keyOf, init);
    LiveKeysSnoc(keyOf, init, s);
    var t, t' := Table(keyOf, init), Table(keyOf, init + [s]);
    forall i | 0 <= i < |keys|
      ensures t[i] == t'[i]
    {
      MembersSnoc(keyOf, init, s, keys[i]);
    }
  }

  /** `b` files states of `states` by key: no bucket is empty, a state sits only under its
      own key, and no key occurs twice. */
  predicate Bucketed(keyOf: int -> int, states: seq<int>, b: Buckets)
  {
    (forall j | 0 <= j < |b| :: |b[j].1| > 0) &&
    (forall j, s | 0 <= j < |b| && s in b[j].1 :: s in states && keyOf(s) == b[j].0) &&
    (forall i, j | 0 <= i < j < |b| :: b[i].0 != b[j].0)
  }

  /** Every state of `states` is in the bucket of its key. */
  predicate Covered(keyOf: int -> int, states: seq<int>, b: Buckets)
  {
    forall s | s in states ::
      KeyIndex(b, keyOf(s)) != -1 && s in b[KeyIndex(b, keyOf(s))].1
  }

  /** With distinct keys the bucket of `b[j].0` is found at `j`. */
  lemma KeyIndexAt(b: Buckets, j: int)
    requires 0 <= j < |b| && forall i, k | 0 <= i < k < |b| :: b[i].0 != b[k].0
    ensures KeyIndex(b, b[j].0) == j
  {
  }

  /** The final buckets are the states filed under each key, no bucket is empty and no
      key occurs twice. */
  lemma BucketsBucketed(keyOf: int -> int, states: seq<int>)
    ensures var b := AllBuckets(keyOf, states);
      Bucketed(keyOf, states, b) &&
      (forall j | 0 <= j < |b| :: b[j].1 == Members(keyOf, states, b[j].0)) &&
      (Distinct(states) ==> forall j | 0 <= j < |b| :: Distinct(b[j].1))
  {
    var b := AllBuckets(keyOf, states);
    LiveKeysIn(keyOf, states);
    forall k {
      MembersIn(keyOf, states, k);
    }
    assert forall i, j | 0 <= i < j < |b| :: b[i].0 != b[j].0;
  }

  /** `bucket` at the end of the state loop files every state once, under its key, and
      the buckets keep the order of the states. */
  lemma BucketsFacts(keyOf: int -> int, states: seq<int>)
    ensures var b := AllBuckets(keyOf, states);
      Bucketed(keyOf, states, b) && Covered(keyOf, states, b) &&
      (forall j | 0 <= j < |b| :: b[j].1 == Members(keyOf, states, b[j].0)) &&
      (Distinct(states) ==> forall j | 0 <= j < |b| :: Distinct(b[j].1))
  {
    var b := AllBuckets(keyOf, states);
    var keys := LiveKeys(keyOf, states);
    BucketsBucketed(keyOf, states);
    LiveKeysIn(keyOf, states);
    forall s | s in states
      ensures KeyIndex(b, keyOf(s)) != -1 && s in b[KeyIndex(b, keyOf(s))].1
    {
      MembersIn(keyOf, states, keyOf(s));
      assert s in Members(keyOf, states, keyOf(s));
      if keyOf(s) != ErrorState {
        var j :| 0 <= j < |keys| && keys[j] == keyOf(s);
        KeyIndexAt(b, j);
      } else {
        KeyIndexAt(b, |keys|);
      }
    }
  }

  /** All states of `states` have the key of the first. */
  predicate SameKey(keyOf: int -> int, states: seq<int>)
    requires |states| > 0
  {
    forall s | s in states :: keyOf(s) == keyOf(states[0])
  }

  /** `bucket.size > 1`, the test for a split, holds exactly when two states of the
      partition have images in different partitions, or one dead and one live. */
  lemma SplitIff(keyOf: int -> int, states: seq<int>)
    requires |states| > 0
    ensures |AllBuckets(keyOf, states)| > 1 <==> !SameKey(keyOf, states)
    ensures |AllBuckets(keyOf, states)| > 0
  {
    BucketsFacts(keyOf, states);
    var b := AllBuckets(keyOf, states);
    var s0 := states[0];
    assert s0 in states;
    assert KeyIndex(b, keyOf(s0)) != -1 && s0 in b[KeyIndex(b, keyOf(s0))].1;
    if |b| > 1 {
      var u, t := b[0].1[0], b[1].1[0];
      assert keyOf(u) != keyOf(t);
    } else {
      forall s | s in states
        ensures keyOf(s) == keyOf(states[0])
      {
        assert KeyIndex(b, keyOf(s)) == 0;
      }
    }
  }

  /** `Key` as the function `processAlpha` files by on `index`. */
  function KeyFn(m: SymbolDfa.Edges, names: Names, index: int): int -> int
  {
    s => Key(m, names, s, index)
  }

  /** The states the minimiser partitions: the accepting set and every other state but
      `ErrorState`. */
  function Universe(accepting: set<int>, states: set<int>): set<int>
  {
    accepting + (states - {ErrorState})
  }

  /** Partition `i` is named `i` and holds distinct states, at least one. */
  ghost predicate Named(partitions: seq<Partition>)
  {
    forall i | 0 <= i < |partitions| ::
      partitions[i].name == i && |partitions[i].states| > 0 && Distinct(partitions[i].states)
  }

  /** Every state of partition `i` is named `i`. */
  ghost predicate Placed(partitions: seq<Partition>, names: Names)
  {
    forall i, s {:trigger s in partitions[i].states} | 0 <= i < |partitions| && s in partitions[i].states :: s in names && names[s] == i
  }

  /** Every named state is in the partition its name points at. */
  ghost predicate Pointed(partitions: seq<Partition>, names: Names)
  {
    forall s | s in names :: 0 <= names[s] < |partitions| && s in partitions[names[s]].states
  }

  /** The reachable sets are keyed by the `n` partition names and hold distinct positions. */
  ghost predicate Keyed(reachable: Reachable, n: int)
  {
    (forall k :: k in reachable <==> 0 <= k < n) &&
    (forall k | k in reachable :: Distinct(reachable[k]) && forall a | a in reachable[k] :: 0 <= a < n)
  }

  /** The work list holds positions of the `n` partitions. */
  ghost predicate Queued(buffer: seq<int>, n: int)
  {
    forall k | 0 <= k < |buffer| :: 0 <= buffer[k] < n
  }

  /** The context's bookkeeping agrees with itself: partition `i` is named `i` and holds
      distinct states, `names` sends each state exactly to the partition holding it, the
      reachable sets are keyed by the partition names and hold positions, and the work
      list holds positions. */
  ghost predicate Structure(partitions: seq<Partition>, names: Names, reachable: Reachable, buffer: seq<int>)
  {
    Named(partitions) && Placed(partitions, names) && Pointed(partitions, names) &&
    Keyed(reachable, |partitions|) && Queued(buffer, |partitions|)
  }

  /** `reachable` after the state loop of `processAlpha` on partition `p`: `p` is added to
      the set of every live key met. */
  function Marked(reachable: Reachable, keys: seq<int>, p: int): Reachable
  {
    map k | k in reachable :: if k in keys then Add(reachable[k], p) else reachable[k]
  }

  /** The elements of `s` not in `excl`, in order. */
  function Without(s: seq<int>, excl: seq<int>): seq<int>
    decreases |s|
  {
    if |s| == 0 then []
    else Without(s[..|s| - 1], excl) + if s[|s| - 1] in excl then [] else [s[|s| - 1]]
  }

  /** `Without` keeps exactly the elements of `s` outside `excl`, and no duplicates. */
  lemma {:induction false} WithoutIn(s: seq<int>, excl: seq<int>)
    ensures forall x :: x in Without(s, excl) <==> x in s && x !in excl
    ensures Distinct(s) ==> Distinct(Without(s, excl))
    decreases |s|
  {
    if |s| > 0 {
      var init := s[..|s| - 1];
      assert s == init + [s[|s| - 1]];
      WithoutIn(init, excl);
    }
  }

  lemma WithoutSnoc(s: seq<int>, excl: seq<int>, x: int)
    ensures Without(s + [x], excl) == Without(s, excl) + if x in excl then [] else [x]
  {
    assert (s + [x])[..|s|] == s;
  }

  /** The positions `n`, `n + 1`, ... of `count` new partitions. */
  function NewPositions(n: int, count: nat): (r: seq<int>)
    ensures |r| == count && forall j | 0 <= j < count :: r[j] == n + j
  {
    seq(count, j requires 0 <= j < count => n + j)
  }

  lemma PositionsIn(n: int, count: nat, a: int)
    requires n <= a < n + count
    ensures a in NewPositions(n, count)
  {
    assert NewPositions(n, count)[a - n] == a;
  }

  /** The states of each bucket, in order. */
  function BucketStates(b: Buckets): (r: seq<seq<int>>)
    ensures |r| == |b| && forall j | 0 <= j < |b| :: r[j] == b[j].1
  {
    seq(|b|, j requires 0 <= j < |b| => b[j].1)
  }

  /** Partitions holding `parts` in turn, named by their positions from `n` on. */
  function Positioned(n: int, parts: seq<seq<int>>): (r: seq<Partition>)
    ensures |r| == |parts| && forall j | 0 <= j < |parts| :: r[j] == Partition(n + j, parts[j])
  {
    seq(|parts|, j requires 0 <= j < |parts| => Partition(n + j, parts[j]))
  }

  /** The partitions after splitting `p` by the buckets `b`: the last bucket stays at `p`,
      the others become new partitions. */
  ghost predicate SplitPartitions(p: int, b: Buckets, partitions: seq<Partition>, partitions': seq<Partition>)
    requires 0 <= p < |partitions| && |b| > 0
  {
    partitions' == partitions[p := Partition(p, b[|b| - 1].1)] + Positioned(|partitions|, BucketStates(b)[..|b| - 1])
  }

  /** The names after the split: the states of each new partition point at it, the others
      keep their names. */
  ghost predicate SplitNames(b: Buckets, n: int, names: Names, names': Names)
  {
    names'.Keys == names.Keys &&
    (forall j, s | 0 <= j < |b| - 1 && s in b[j].1 :: s in names' && names'[s] == n + j) &&
    (forall s | s in names && (forall j | 0 <= j < |b| - 1 :: s !in b[j].1) :: names'[s] == names[s])
  }

  /** The reachable sets after the split: `p`'s is emptied, the new partitions get empty
      ones, the others keep theirs. */
  ghost predicate SplitReachable(p: int, count: int, n: int, marked: Reachable, reachable': Reachable)
    requires forall k | 0 <= k < n :: k in marked
  {
    (forall k :: k in reachable' <==> 0 <= k < n + count) &&
    (forall k | k in reachable' :: reachable'[k] == if k == p || k >= n then [] else marked[k])
  }

  /** The work list after the split: `p` unless it is pending, then the new partitions,
      then every partition in `p`'s reachable set that is not pending by then. */
  ghost predicate SplitBuffer(p: int, count: nat, n: int, reach: seq<int>, buffer: seq<int>, cursor: int, buffer': seq<int>)
    requires 0 <= cursor <= |buffer|
  {
    var requeue := if p in buffer[cursor..] then [] else [p];
    var added := NewPositions(n, count);
    buffer' == buffer + requeue + added + Without(reach, buffer[cursor..] + requeue + added)
  }

  /** The state after `processAlpha` splits partition `p` by the buckets `b`, `marked`
      being `reachable` after the state loop. */
  ghost predicate SplitInto(p: int, b: Buckets, marked: Reachable,
                            partitions: seq<Partition>, names: Names, buffer: seq<int>, cursor: int,
                            partitions': seq<Partition>, names': Names, reachable': Reachable, buffer': seq<int>)
    requires 0 <= p < |partitions| && |b| > 0 && 0 <= cursor <= |buffer|
    requires forall k | 0 <= k < |partitions| :: k in marked
  {
    SplitPartitions(p, b, partitions, partitions') &&
    SplitNames(b, |partitions|, names, names') &&
    SplitReachable(p, |b| - 1, |partitions|, marked, reachable') &&
    SplitBuffer(p, |b| - 1, |partitions|, marked[p], buffer, cursor, buffer')
  }

  /** The loop of `addPartition` and of the split in `processAlpha` that points `names`
      at partition `index` for each of `states`. */
  method SetNames(names: Names, states: seq<int>, index: int) returns (r: Names)
    ensures forall s :: s in r <==> s in names || s in states
    ensures forall s | s in states :: r[s] == index
    ensures forall s | s in names && s !in states :: r[s] == names[s]
  {
    r := names;
    var i := 0;
    while i < |states|
      invariant 0 <= i <= |states|
      invariant forall s :: s in r <==> s in names || s in states[..i]
      invariant forall s | s in states[..i] :: r[s] == index
      invariant forall s | s in names && s !in states[..i] :: r[s] == names[s]
    {
      assert states[..i + 1] == states[..i] + [states[i]];
      r := r[states[i] := index];
      i := i + 1;
    }
    assert states[..i] == states;
  }

  class MinimizationContext {
    const dfa: SymbolDfa.DeterministicFiniteAutomata
    var names: Names
    const worklist: WorkLists.WorkList<int>
    var reachable: Reachable
    var partitions: seq<Partition>

    ghost predicate Valid()
      reads this, worklist, dfa
    {
      dfa.Valid() && worklist.Valid() &&
      Structure(partitions, names, reachable, worklist.buffer) &&
      names.Keys <= Universe(dfa.accepting, dfa.states)
    }

    /** `new MinimizationContext(dfa)`: no partitions, names or reachable sets, and an
        empty work list. */
    constructor (dfa: SymbolDfa.DeterministicFiniteAutomata)
      requires dfa.Valid()
      ensures Valid() && this.dfa == dfa && fresh(worklist)
      ensures names == map[] && reachable == map[] && partitions == []
      ensures worklist.buffer == [] && worklist.index == 0
    {
      this.dfa := dfa;
      names := map[];
      worklist := new WorkLists.WorkList([]);
      reachable := map[];
      partitions := [];
    }

    /** `addPartition(states)`: a partition named by its position, the old partition
        count, with an empty reachable set; its states are pointed at it and its
        position is queued. */
    method AddPartition(states: seq<int>)
      requires worklist.Valid()
      modifies this, worklist
      ensures worklist.Valid()
      ensures partitions == old(partitions) + [Partition(|old(partitions)|, states)]
      ensures reachable == old(reachable)[|old(partitions)| := []]
      ensures forall s :: s in names <==> s in old(names) || s in states
      ensures forall s | s in states :: names[s] == |old(partitions)|
      ensures forall s | s in old(names) && s !in states :: names[s] == old(names)[s]
      ensures worklist.buffer == old(worklist.buffer) + [|old(partitions)|]
      ensures worklist.index == old(worklist.index)
    {
      var index := |partitions|;
      var entry := Partition(index, states);
      reachable := reachable[entry.name := []];
      names := SetNames(names, states, index);
      partitions := partitions + [entry];
      worklist.Add(index);
    }

    /** `addReachable(name, index)`: records that partition `index` reaches partition
        `name`; both are type-checked, and an unknown name fails on the missing set. */
    method AddReachable(name: Value, index: Value) returns (r: Outcome)
      modifies this
      ensures r.Thrown? <==> !name.Symbol? || !index.Number? || name.handle !in old(reachable)
      ensures r.Thrown? ==> r.exception == TypeError && reachable == old(reachable)
      ensures r.Done? ==> reachable == old(reachable)[name.handle := Add(old(reachable)[name.handle], index.num)]
      ensures names == old(names) && partitions == old(partitions)
    {
      if !name.Symbol? || !index.Number? || name.handle !in reachable {
        return Thrown(TypeError);
      }
      reachable := reachable[name.handle := Add(reachable[name.handle], index.num)];
      r := Done;
    }

    /** `pushReachables(name)`: queues every partition of `name`'s reachable set that is
        not pending, in the set's order, then empties the set; an unknown name fails. */
    method PushReachables(name: int) returns (r: Outcome)
      requires worklist.Valid()
      requires name in reachable ==> Distinct(reachable[name])
      modifies this, worklist
      ensures worklist.Valid() && worklist.index == old(worklist.index)
      ensures r.Thrown? <==> name !in old(reachable)
      ensures r.Thrown? ==> r.exception == TypeError && reachable == old(reachable) && worklist.buffer == old(worklist.buffer)
      ensures r.Done? ==> reachable == old(reachable)[name := []]
      ensures r.Done? ==>
        worklist.buffer == old(worklist.buffer) + Without(old(reachable)[name], old(worklist.buffer)[old(worklist.index)..])
      ensures names == old(names) && partitions == old(partitions)
    {
      if name !in reachable {
        return Thrown(TypeError);
      }
      PushAll(worklist, reachable[name]);
      reachable := reachable[name := []];
      r := Done;
    }

    /** `toDfa()`: one state per partition, named by the partition; the start state is
        the partition of the original start, a partition is accepting when its first
        state is, the alphabet is copied, and each partition gets an edge per registered
        index to the partition of its first state's image, unless that is `ErrorState`.
        With no partitions `partitions.at(...)` is undefined and reading its name throws;
        a first state without a mapping fails in `delta`. */
    method ToDfa() returns (r: Result<SymbolDfa.DeterministicFiniteAutomata>)
      requires Valid()
      ensures r.Throw? <==> (|partitions| == 0 ||
        (|dfa.alphabets.Entries()| > 0 && exists a | 0 <= a < |partitions| :: !Good(dfa.mappings, Rep(partitions[a]))))
      ensures r.Throw? ==> r.exception == TypeError
      ensures r.Ok? ==> fresh(r.value) && r.value.Valid() && r.value.alphabets == dfa.alphabets
      ensures r.Ok? ==> r.value.start == NameOf(names, dfa.start)
      ensures r.Ok? ==> r.value.mappings == QuotientEdges(dfa.mappings, names, partitions, dfa.alphabets.Entries())
      ensures r.Ok? ==> r.value.accepting == QuotientAccepting(partitions, dfa.accepting)
    {
      if |partitions| == 0 {
        return Throw(TypeError);
      }
      var start := partitions[NameOf(names, dfa.start)].name;
      var result := new SymbolDfa.DeterministicFiniteAutomata(Symbol(start));
      AddVertices(result, partitions, start, dfa.accepting);
      var alphabets := dfa.alphabets.Entries();
      SymbolDfa.CopyAlphabet(result, dfa.alphabets, alphabets);
      BlankBuilt(dfa.mappings, names, partitions, alphabets, start);
      var edges := AddEdges(result, dfa, names, partitions, alphabets);
      if edges.Thrown? {
        return Throw(edges.exception);
      }
      r := Ok(result);
    }
  }

  /** The loop of `pushReachables`: each partition of `reach` not pending is queued. */
  method PushAll(worklist: WorkLists.WorkList<int>, reach: seq<int>)
    requires worklist.Valid() && Distinct(reach)
    modifies worklist
    ensures worklist.Valid() && worklist.index == old(worklist.index)
    ensures worklist.buffer == old(worklist.buffer) + Without(reach, old(worklist.buffer)[old(worklist.index)..])
  {
    ghost var buffer, pending := worklist.buffer, worklist.buffer[worklist.index..];
    ghost var pushed: seq<int> := [];
    var i := 0;
    while i < |reach|
      invariant 0 <= i <= |reach|
      invariant worklist.Valid() && worklist.index == old(worklist.index)
      invariant pushed == Without(reach[..i], pending)
      invariant worklist.buffer == buffer + pushed
    {
      var target := reach[i];
      assert reach[..i + 1] == reach[..i] + [target];
      WithoutSnoc(reach[..i], pending, target);
      WithoutIn(reach[..i], pending);
      assert target !in pushed;
      DropConcat(buffer, pushed, worklist.index);
      var has := worklist.Has(target);
      if !has {
        worklist.Add(target);
        AppendAssoc(buffer, pushed, [target]);
        pushed := pushed + [target];
      }
      i := i + 1;
    }
    assert reach[..i] == reach;
  }

  lemma AppendAssoc(a: seq<int>, b: seq<int>, c: seq<int>)
    ensures a + b + c == a + (b + c)
  {
  }

  /** The loop of `processAlpha` that turns every bucket but the kept one into a new
      partition. */
  method AddPartitions(ctx: MinimizationContext, parts: seq<seq<int>>)
    requires ctx.worklist.Valid()
    requires forall j, s | 0 <= j < |parts| && s in parts[j] :: s in ctx.names
    requires forall i, j, s | 0 <= i < j < |parts| && s in parts[i] :: s !in parts[j]
    modifies ctx, ctx.worklist
    ensures ctx.worklist.Valid() && ctx.worklist.index == old(ctx.worklist.index)
    ensures ctx.partitions == old(ctx.partitions) + Positioned(|old(ctx.partitions)|, parts)
    ensures forall k :: k in ctx.reachable <==> k in old(ctx.reachable) || |old(ctx.partitions)| <= k < |old(ctx.partitions)| + |parts|
    ensures forall k | k in ctx.reachable :: ctx.reachable[k] == if |old(ctx.partitions)| <= k < |old(ctx.partitions)| + |parts| then [] else old(ctx.reachable)[k]
    ensures ctx.names.Keys == old(ctx.names).Keys
    ensures forall j, s | 0 <= j < |parts| && s in parts[j] :: ctx.names[s] == |old(ctx.partitions)| + j
    ensures forall s | s in old(ctx.names) && (forall j | 0 <= j < |parts| :: s !in parts[j]) :: ctx.names[s] == old(ctx.names)[s]
    ensures ctx.worklist.buffer == old(ctx.worklist.buffer) + NewPositions(|old(ctx.partitions)|, |parts|)
  {
    ghost var n, names, reachable, buffer := |ctx.partitions|, ctx.names, ctx.reachable, ctx.worklist.buffer;
    ghost var partitions := ctx.partitions;
    var i := 0;
    while i < |parts|
      invariant 0 <= i <= |parts|
      invariant ctx.worklist.Valid() && ctx.worklist.index == old(ctx.worklist.index)
      invariant ctx.partitions == partitions + Positioned(n, parts[..i])
      invariant forall k :: k in ctx.reachable <==> k in reachable || n <= k < n + i
      invariant forall k | k in ctx.reachable :: ctx.reachable[k] == if n <= k < n + i then [] else reachable[k]
      invariant ctx.names.Keys == names.Keys
      invariant forall j, s | 0 <= j < i && s in parts[j] :: ctx.names[s] == n + j
      invariant forall s | s in names && (forall j | 0 <= j < i :: s !in parts[j]) :: ctx.names[s] == names[s]
      invariant ctx.worklist.buffer == buffer + NewPositions(n, i)
    {
      ctx.AddPartition(parts[i]);
      assert NewPositions(n, i + 1) == NewPositions(n, i) + [n + i];
      assert Positioned(n, parts[..i + 1]) == Positioned(n, parts[..i]) + [Partition(n + i, parts[i])];
      i := i + 1;
    }
  }

  /** Marking one more live key `k` is recording `p` in `k`'s reachable set. */
  lemma MarkedSnoc(reachable: Reachable, keys: seq<int>, k: int, p: int)
    requires k != ErrorState ==> k in reachable
    ensures var marked := Marked(reachable, keys, p);
      Marked(reachable, if k == ErrorState || k in keys then keys else keys + [k], p) ==
      if k == ErrorState then marked else marked[k := Add(marked[k], p)]
  {
  }

  /** Marking keeps the bookkeeping consistent. */
  lemma MarkedStructure(partitions: seq<Partition>, names: Names, reachable: Reachable, buffer: seq<int>, keys: seq<int>, p: int)
    requires Structure(partitions, names, reachable, buffer) && 0 <= p < |partitions|
    ensures Structure(partitions, names, Marked(reachable, keys, p), buffer)
  {
  }

  lemma SplitNamed(keyOf: int -> int, p: int, b: Buckets, partitions: seq<Partition>, partitions': seq<Partition>)
    requires Named(partitions) && 0 <= p < |partitions| && |b| > 1
    requires Bucketed(keyOf, partitions[p].states, b)
    requires forall j | 0 <= j < |b| :: Distinct(b[j].1)
    requires SplitPartitions(p, b, partitions, partitions')
    ensures Named(partitions')
  {
  }

  lemma SplitPlaced(keyOf: int -> int, p: int, b: Buckets, partitions: seq<Partition>, names: Names,
                    partitions': seq<Partition>, names': Names)
    requires Placed(partitions, names) && 0 <= p < |partitions| && |b| > 1
    requires Bucketed(keyOf, partitions[p].states, b)
    requires SplitPartitions(p, b, partitions, partitions') && SplitNames(b, |partitions|, names, names')
    ensures Placed(partitions', names')
  {
    var n, last := |partitions|, |b| - 1;
    var P := partitions[p].states;
    forall i, s | 0 <= i < |partitions'| && s in partitions'[i].states
      ensures s in names' && names'[s] == i
    {
      if i == p {
        assert s in b[last].1 && keyOf(s) == b[last].0 && s in P;
        assert forall j | 0 <= j < last :: b[j].0 != b[last].0;
      } else if i < n {
        assert s in partitions[i].states && names[s] == i;
        assert s !in P;
      }
    }
  }

  lemma SplitPointed(keyOf: int -> int, p: int, b: Buckets, partitions: seq<Partition>, names: Names,
                     partitions': seq<Partition>, names': Names)
    requires Pointed(partitions, names) && 0 <= p < |partitions| && |b| > 1
    requires Bucketed(keyOf, partitions[p].states, b) && Covered(keyOf, partitions[p].states, b)
    requires SplitPartitions(p, b, partitions, partitions') && SplitNames(b, |partitions|, names, names')
    ensures Pointed(partitions', names')
  {
    var last := |b| - 1;
    forall s | s in names'
      ensures 0 <= names'[s] < |partitions'| && s in partitions'[names'[s]].states
    {
      if j :| 0 <= j < last && s in b[j].1 {
      } else if names[s] == p {
        var j := KeyIndex(b, keyOf(s));
        assert j != -1 && s in b[j].1;
      }
    }
  }

  lemma SplitQueued(p: int, b: Buckets, marked: Reachable, n: int, buffer: seq<int>, cursor: int,
                    reachable': Reachable, buffer': seq<int>)
    requires Keyed(marked, n) && Queued(buffer, n) && 0 <= p < n && |b| > 1 && 0 <= cursor <= |buffer|
    requires SplitReachable(p, |b| - 1, n, marked, reachable')
    requires SplitBuffer(p, |b| - 1, n, marked[p], buffer, cursor, buffer')
    ensures Keyed(reachable', n + |b| - 1) && Queued(buffer', n + |b| - 1)
  {
    var requeue := if p in buffer[cursor..] then [] else [p];
    var added := NewPositions(n, |b| - 1);
    WithoutIn(marked[p], buffer[cursor..] + requeue + added);
    forall k | 0 <= k < |buffer'|
      ensures 0 <= buffer'[k] < n + |b| - 1
    {
      var front := buffer + requeue + added;
      if k >= |front| {
        assert buffer'[k] in Without(marked[p], buffer[cursor..] + requeue + added);
      }
    }
  }

  /** A split keeps the bookkeeping consistent: the buckets are disjoint, non-empty and
      inside the split partition, so every state still sits in exactly the partition its
      name points at. */
  lemma SplitStructure(keyOf: int -> int, p: int, b: Buckets, marked: Reachable,
                       partitions: seq<Partition>, names: Names, buffer: seq<int>, cursor: int,
                       partitions': seq<Partition>, names': Names, reachable': Reachable, buffer': seq<int>)
    requires Structure(partitions, names, marked, buffer)
    requires 0 <= p < |partitions| && 0 <= cursor <= |buffer|
    requires b == AllBuckets(keyOf, partitions[p].states) && |b| > 1
    requires SplitInto(p, b, marked, partitions, names, buffer, cursor, partitions', names', reachable', buffer')
    ensures Structure(partitions', names', reachable', buffer')
  {
    BucketsFacts(keyOf, partitions[p].states);
    SplitNamed(keyOf, p, b, partitions, partitions');
    SplitPlaced(keyOf, p, b, partitions, names, partitions', names');
    SplitPointed(keyOf, p, b, partitions, names, partitions', names');
    SplitQueued(p, b, marked, |partitions|, buffer, cursor, reachable', buffer');
  }

  /** No state is in two buckets. */
  ghost predicate Disjoint(b: Buckets)
  {
    forall i, j, s | 0 <= i < j < |b| && s in b[i].1 :: s !in b[j].1
  }

  /** Every state in a bucket is named `p`. */
  ghost predicate NamedAfter(b: Buckets, names: Names, p: int)
  {
    forall j, s | 0 <= j < |b| && s in b[j].1 :: s in names && names[s] == p
  }

  /** The buckets of a partition's states are disjoint and hold only states named after
      it. */
  lemma BucketParts(keyOf: int -> int, P: seq<int>, b: Buckets, names: Names, p: int)
    requires b == AllBuckets(keyOf, P)
    requires forall s | s in P :: s in names && names[s] == p
    ensures Disjoint(b) && NamedAfter(b, names, p)
  {
    BucketsBucketed(keyOf, P);
    forall i, j, s | 0 <= i < j < |b| && s in b[i].1
      ensures s !in b[j].1
    {
      assert keyOf(s) == b[i].0 != b[j].0;
    }
  }

  /** The split of `processAlpha` once `bucket` has more than one entry: the last bucket
      replaces the partition's states, the partition is queued unless pending, each other
      bucket becomes a new partition, and the partitions that reached the split one are
      queued. */
  method Split(ctx: MinimizationContext, p: int, b: Buckets)
    requires ctx.worklist.Valid() && 0 <= p < |ctx.partitions| && |b| > 1
    requires Named(ctx.partitions) && Keyed(ctx.reachable, |ctx.partitions|)
    requires Disjoint(b) && NamedAfter(b, ctx.names, p)
    modifies ctx, ctx.worklist
    ensures ctx.worklist.Valid() && ctx.worklist.index == old(ctx.worklist.index)
    ensures SplitInto(p, b, old(ctx.reachable), old(ctx.partitions), old(ctx.names), old(ctx.worklist.buffer),
                      old(ctx.worklist.index), ctx.partitions, ctx.names, ctx.reachable, ctx.worklist.buffer)
  {
    ghost var partitions, names, reachable := ctx.partitions, ctx.names, ctx.reachable;
    ghost var buffer, cursor := ctx.worklist.buffer, ctx.worklist.index;
    ghost var n, last := |partitions|, |b| - 1;
    var partition := ctx.partitions[p];
    var temp := BucketStates(b);
    partition := partition.(states := temp[|temp| - 1]);
    temp := temp[..|temp| - 1];
    ctx.partitions := ctx.partitions[p := partition];
    ctx.names := SetNames(ctx.names, partition.states, p);
    ghost var names1 := ctx.names;
    ghost var requeue := if p in buffer[cursor..] then [] else [p];
    if !ctx.worklist.Has(p) {
      ctx.worklist.Add(p);
    }
    assert ctx.worklist.buffer == buffer + requeue;
    assert |ctx.partitions| == n && |temp| == last && ctx.reachable == reachable;
    AddPartitions(ctx, temp);
    ghost var names2, reachable2 := ctx.names, ctx.reachable;
    ghost var buffer2 := ctx.worklist.buffer;
    assert reachable2[p] == reachable[p];
    var pushed := ctx.PushReachables(partition.name);
    ComposeNames(b, n, p, names, names1, names2);
    ComposeReachable(p, last, n, reachable, reachable2, ctx.reachable);
    ComposeBuffer(p, last, n, reachable[p], buffer, cursor, buffer2, ctx.worklist.buffer);
  }

  lemma Regroup(a: seq<int>, b: seq<int>, c: seq<int>, d: seq<int>)
    ensures a + b + c + d == a + (b + c + d)
  {
  }

  lemma DropConcat(a: seq<int>, c: seq<int>, k: int)
    requires 0 <= k <= |a|
    ensures (a + c)[k..] == a[k..] + c
  {
  }

  /** The work list after the requeue, `AddPartitions` and `pushReachables`. */
  lemma ComposeBuffer(p: int, count: nat, n: int, reach: seq<int>, buffer: seq<int>, cursor: int, buffer2: seq<int>, buffer3: seq<int>)
    requires 0 <= cursor <= |buffer|
    requires buffer2 == buffer + (if p in buffer[cursor..] then [] else [p]) + NewPositions(n, count)
    requires buffer3 == buffer2 + Without(reach, buffer2[cursor..])
    ensures SplitBuffer(p, count, n, reach, buffer, cursor, buffer3)
  {
    var requeue := if p in buffer[cursor..] then [] else [p];
    var added := NewPositions(n, count);
    assert buffer2 == buffer + (requeue + added);
    DropConcat(buffer, requeue + added, cursor);
    assert buffer2[cursor..] == buffer[cursor..] + requeue + added;
  }

  /** `names` after `SetNames` on the kept bucket and `AddPartitions` on the others. */
  lemma ComposeNames(b: Buckets, n: int, p: int, names: Names, names1: Names, names2: Names)
    requires |b| > 1
    requires forall j, s | 0 <= j < |b| && s in b[j].1 :: s in names && names[s] == p
    requires forall s :: s in names1 <==> s in names || s in b[|b| - 1].1
    requires forall s | s in b[|b| - 1].1 :: names1[s] == p
    requires forall s | s in names && s !in b[|b| - 1].1 :: names1[s] == names[s]
    requires var parts := BucketStates(b)[..|b| - 1];
      names2.Keys == names1.Keys &&
      (forall j, s | 0 <= j < |parts| && s in parts[j] :: names2[s] == n + j) &&
      (forall s | s in names1 && (forall j | 0 <= j < |parts| :: s !in parts[j]) :: names2[s] == names1[s])
    ensures SplitNames(b, n, names, names2)
  {
    var parts := BucketStates(b)[..|b| - 1];
    assert forall j | 0 <= j < |parts| :: parts[j] == b[j].1;
    forall s
      ensures s in names2 <==> s in names
    {
      if s in b[|b| - 1].1 {
        assert s in names;
      }
    }
    assert names2.Keys == names.Keys;
  }

  /** `reachable` after `AddPartitions` and `pushReachables`. */
  lemma ComposeReachable(p: int, count: nat, n: int, marked: Reachable, reachable2: Reachable, reachable3: Reachable)
    requires 0 <= p < n && forall k :: k in marked <==> 0 <= k < n
    requires forall k :: k in reachable2 <==> k in marked || n <= k < n + count
    requires forall k | k in reachable2 :: reachable2[k] == if n <= k < n + count then [] else marked[k]
    requires reachable3 == reachable2[p := []]
    ensures SplitReachable(p, count, n, marked, reachable3)
  {
  }

  /** One pass of the state loop of `processAlpha`: `delta(state, index)`, then either
      the mark that the work set reaches the image's partition and the state added to
      that partition's bucket, or the state added to `errorBucket`. */
  method FileState(ctx: MinimizationContext, state: int, partitionIndex: int, index: int, bucket: Buckets, errorBucket: seq<int>)
    returns (r: Result<(Buckets, seq<int>)>)
    requires forall s | s in ctx.names :: 0 <= ctx.names[s] < |ctx.partitions|
    requires forall i | 0 <= i < |ctx.partitions| :: ctx.partitions[i].name == i && i in ctx.reachable
    requires |ctx.partitions| > 0
    modifies ctx
    ensures ctx.names == old(ctx.names) && ctx.partitions == old(ctx.partitions)
    ensures r.Throw? <==> !Good(ctx.dfa.mappings, state)
    ensures r.Throw? ==> r.exception == TypeError
    ensures var k := Key(ctx.dfa.mappings, ctx.names, state, index);
      r.Ok? && k == ErrorState ==>
        r.value == (bucket, errorBucket + [state]) && ctx.reachable == old(ctx.reachable)
    ensures var k := Key(ctx.dfa.mappings, ctx.names, state, index);
      r.Ok? && k != ErrorState ==>
        r.value == (Insert(bucket, k, state), errorBucket) && k in old(ctx.reachable) &&
        ctx.reachable == old(ctx.reachable)[k := Add(old(ctx.reachable)[k], partitionIndex)]
  {
    var image := ctx.dfa.Lookup(state, index);
    if image.Throw? {
      return Throw(image.exception);
    }
    if image.value != ErrorState {
      // `partitions.at(names.get(image))`: an image without a name reads position 0
      var partition := ctx.partitions[NameOf(ctx.names, image.value)];
      var done := ctx.AddReachable(Symbol(partition.name), Number(partitionIndex));
      r := Ok((Insert(bucket, partition.name, state), errorBucket));
    } else {
      r := Ok((bucket, errorBucket + [state]));
    }
  }

  /** The state loop of `processAlpha` followed by the filing of `errorBucket`: the
      buckets by key, with `partitionIndex` marked as reaching each live key's
      partition; a state without a mapping fails in `delta`. */
  /** One pass of the state loop of `processAlpha`, stated against the tables of the
      states filed so far. */
  method FileNext(ctx: MinimizationContext, ghost keyOf: int -> int, ghost reach: Reachable, ghost init: seq<int>,
                  state: int, partitionIndex: int, index: int, bucket: Buckets, errorBucket: seq<int>)
    returns (r: Result<(Buckets, seq<int>)>)
    requires 0 <= partitionIndex < |ctx.partitions|
    requires forall s | s in ctx.names :: 0 <= ctx.names[s] < |ctx.partitions|
    requires forall i | 0 <= i < |ctx.partitions| :: ctx.partitions[i].name == i && i in ctx.reachable
    requires keyOf == KeyFn(ctx.dfa.mappings, ctx.names, index)
    requires bucket == Table(keyOf, init) && errorBucket == Members(keyOf, init, ErrorState)
    requires ctx.reachable == Marked(reach, LiveKeys(keyOf, init), partitionIndex)
    modifies ctx
    ensures ctx.names == old(ctx.names) && ctx.partitions == old(ctx.partitions)
    ensures r.Throw? <==> !Good(ctx.dfa.mappings, state)
    ensures r.Throw? ==> r.exception == TypeError
    ensures r.Ok? ==>
      r.value.0 == Table(keyOf, init + [state]) && r.value.1 == Members(keyOf, init + [state], ErrorState) &&
      ctx.reachable == Marked(reach, LiveKeys(keyOf, init + [state]), partitionIndex)
  {
    ghost var k := keyOf(state);
    assert k == Key(ctx.dfa.mappings, ctx.names, state, index);
    r := FileState(ctx, state, partitionIndex, index, bucket, errorBucket);
    if r.Throw? {
      return;
    }
    LiveKeysSnoc(keyOf, init, state);
    MarkedSnoc(reach, LiveKeys(keyOf, init), k, partitionIndex);
    if k != ErrorState {
      InsertStep(keyOf, init, state);
    } else {
      DeadStep(keyOf, init, state);
    }
    ErrorBucketStep(keyOf, init, state, errorBucket, r.value.1);
  }

  method FileStates(ctx: MinimizationContext, states: seq<int>, partitionIndex: int, index: int) returns (r: Result<Buckets>)
    requires 0 <= partitionIndex < |ctx.partitions|
    requires forall s | s in ctx.names :: 0 <= ctx.names[s] < |ctx.partitions|
    requires forall i | 0 <= i < |ctx.partitions| :: ctx.partitions[i].name == i && i in ctx.reachable
    modifies ctx
    ensures ctx.names == old(ctx.names) && ctx.partitions == old(ctx.partitions)
    ensures r.Throw? <==> exists s | s in states :: !Good(ctx.dfa.mappings, s)
    ensures r.Throw? ==> r.exception == TypeError
    ensures var keyOf := KeyFn(ctx.dfa.mappings, ctx.names, index);
      r.Ok? ==>
        r.value == AllBuckets(keyOf, states) &&
        ctx.reachable == Marked(old(ctx.reachable), LiveKeys(keyOf, states), partitionIndex)
  {
    ghost var m := ctx.dfa.mappings;
    ghost var keyOf := KeyFn(m, ctx.names, index);
    ghost var reach := ctx.reachable;
    var bucket: Buckets := [];
    var errorBucket: seq<int> := [];
    var i := 0;
    while i < |states|
      invariant 0 <= i <= |states|
      invariant ctx.names == old(ctx.names) && ctx.partitions == old(ctx.partitions)
      invariant bucket == Table(keyOf, states[..i]) && errorBucket == Members(keyOf, states[..i], ErrorState)
      invariant ctx.reachable == Marked(reach, LiveKeys(keyOf, states[..i]), partitionIndex)
      invariant forall s | s in states[..i] :: Good(m, s)
    {
      var state := states[i];
      assert states[..i + 1] == states[..i] + [state];
      var filed := FileNext(ctx, keyOf, reach, states[..i], state, partitionIndex, index, bucket, errorBucket);
      if filed.Throw? {
        assert state in states;
        return Throw(filed.exception);
      }
      bucket, errorBucket := filed.value.0, filed.value.1;
      i := i + 1;
    }
    assert states[..i] == states;
    if |errorBucket| > 0 {
      bucket := bucket + [(ErrorState, errorBucket)];
    }
    r := Ok(bucket);
  }

  /** `processAlpha(ctx, workset, partitionIndex, alpha, index)`: files the states of the
      work set by the partition their image on `index` falls in (`ErrorState` last),
      recording on the way that the work set reaches each such partition; a state
      without a mapping fails in `delta`. With more than one bucket the partition is
      split and the result is `true`. `alpha` is only printed when debugging, so it is
      not a parameter here. */
  method ProcessAlpha(ctx: MinimizationContext, workset: Partition, partitionIndex: int, index: int) returns (r: Result<bool>)
    requires ctx.Valid() && 0 <= partitionIndex < |ctx.partitions| && workset == ctx.partitions[partitionIndex]
    modifies ctx, ctx.worklist
    ensures unchanged(ctx.dfa)
    ensures r.Ok? ==> ctx.Valid()
    ensures ctx.worklist.index == old(ctx.worklist.index)
    ensures r.Throw? <==> exists s | s in workset.states :: !Good(ctx.dfa.mappings, s)
    ensures r.Throw? ==> r.exception == TypeError
    ensures var keyOf := KeyFn(ctx.dfa.mappings, old(ctx.names), index);
      r.Ok? ==> (r.value <==> |AllBuckets(keyOf, workset.states)| > 1)
    ensures var keyOf := KeyFn(ctx.dfa.mappings, old(ctx.names), index);
      r.Ok? && !r.value ==>
        ctx.reachable == Marked(old(ctx.reachable), LiveKeys(keyOf, workset.states), partitionIndex) &&
        ctx.names == old(ctx.names) && ctx.partitions == old(ctx.partitions) &&
        ctx.worklist.buffer == old(ctx.worklist.buffer)
    ensures var keyOf := KeyFn(ctx.dfa.mappings, old(ctx.names), index);
      r.Ok? && r.value ==>
        SplitInto(partitionIndex, AllBuckets(keyOf, workset.states),
                  Marked(old(ctx.reachable), LiveKeys(keyOf, workset.states), partitionIndex),
                  old(ctx.partitions), old(ctx.names), old(ctx.worklist.buffer), old(ctx.worklist.index),
                  ctx.partitions, ctx.names, ctx.reachable, ctx.worklist.buffer)
  {
    ghost var keyOf := KeyFn(ctx.dfa.mappings, ctx.names, index);
    ghost var partitions, names, reachable := ctx.partitions, ctx.names, ctx.reachable;
    ghost var buffer, cursor := ctx.worklist.buffer, ctx.worklist.index;
    assert Structure(partitions, names, reachable, buffer);
    var bucket := FileStates(ctx, workset.states, partitionIndex, index);
    if bucket.Throw? {
      return Throw(bucket.exception);
    }
    ghost var marked := Marked(reachable, LiveKeys(keyOf, workset.states), partitionIndex);
    MarkedStructure(partitions, names, reachable, buffer, LiveKeys(keyOf, workset.states), partitionIndex);
    assert ctx.reachable == marked;
    if |bucket.value| > 1 {
      assert forall s | s in workset.states :: s in names && names[s] == partitionIndex;
      BucketParts(keyOf, workset.states, bucket.value, names, partitionIndex);
      Split(ctx, partitionIndex, bucket.value);
      SplitStructure(keyOf, partitionIndex, bucket.value, marked, partitions, names, buffer, cursor,
                     ctx.partitions, ctx.names, ctx.reachable, ctx.worklist.buffer);
      r := Ok(true);
    } else {
      r := Ok(false);
    }
    assert Structure(ctx.partitions, ctx.names, ctx.reachable, ctx.worklist.buffer);
    assert ctx.names.Keys == names.Keys;
    assert ctx.dfa.Valid();
    assert ctx.worklist.Valid();
  }

  /** The state `toDfa` reads a partition by, its first (`const [state] = states`); a
      partition is never empty, so the `ErrorState` fallback is not reached. */
  function Rep(p: Partition): int
  {
    if |p.states| == 0 then ErrorState else p.states[0]
  }

  /** Partition `a` is stable on `index`: the images of all its states on `index` lie in
      one partition (or are all `ErrorState`), and `a` is recorded as reaching it. */
  ghost predicate StableOn(m: SymbolDfa.Edges, names: Names, partitions: seq<Partition>, reachable: Reachable, a: int, index: int)
    requires 0 <= a < |partitions|
  {
    var k := Key(m, names, Rep(partitions[a]), index);
    (forall s | s in partitions[a].states :: Key(m, names, s, index) == k) &&
    (k != ErrorState ==> k in reachable && a in reachable[k])
  }

  /** Every partition that is not pending is stable on every registered index. */
  ghost predicate Refined(m: SymbolDfa.Edges, names: Names, partitions: seq<Partition>, reachable: Reachable,
                          alphabets: seq<(string, int)>, pending: seq<int>)
  {
    forall a, c | 0 <= a < |partitions| && a !in pending && 0 <= c < |alphabets| ::
      StableOn(m, names, partitions, reachable, a, alphabets[c].1)
  }

  /** Each partition is wholly accepting or wholly not. */
  ghost predicate Uniform(partitions: seq<Partition>, accepting: set<int>)
  {
    forall a, s | 0 <= a < |partitions| && s in partitions[a].states ::
      s in accepting <==> Rep(partitions[a]) in accepting
  }

  /** Every reachable set of `reachable` is still there in `reachable'`, with no position lost. */
  ghost predicate Grows(reachable: Reachable, reachable': Reachable)
  {
    forall k | k in reachable :: k in reachable' && forall x | x in reachable[k] :: x in reachable'[k]
  }

  /** Reading `w` from `s` and from `t` tells the two apart: one run ends in an accepting
      state and the other does not, or one ends in `ErrorState` and the other does not. */
  ghost predicate TellsApart(m: SymbolDfa.Edges, accepting: set<int>, s: int, t: int, w: seq<int>)
  {
    var x, y := SymbolDfa.Run(m, s, w), SymbolDfa.Run(m, t, w);
    (x in accepting) != (y in accepting) || (x == ErrorState) != (y == ErrorState)
  }

  /** Some word of registered indices tells `s` and `t` apart. */
  ghost predicate Apart(m: SymbolDfa.Edges, accepting: set<int>, alphabets: seq<(string, int)>, s: int, t: int)
  {
    exists w :: SymbolDfa.Registered(alphabets, w) && TellsApart(m, accepting, s, t, w)
  }

  /** States that `names` puts in different partitions are apart: no partition was split
      without cause. */
  ghost predicate Separated(m: SymbolDfa.Edges, accepting: set<int>, alphabets: seq<(string, int)>, names: Names)
  {
    forall s, t | s in names && t in names && names[s] != names[t] :: Apart(m, accepting, alphabets, s, t)
  }

  /** Some registered index files `s` and `t` under different buckets. */
  ghost predicate KeysDiffer(m: SymbolDfa.Edges, names: Names, alphabets: seq<(string, int)>, s: int, t: int)
  {
    exists c :: 0 <= c < |alphabets| && Key(m, names, s, alphabets[c].1) != Key(m, names, t, alphabets[c].1)
  }

  /** `names'` names the same states as `names` and separates only states that `names`
      already separates or that some registered index files under different buckets. */
  ghost predicate SplitsBy(m: SymbolDfa.Edges, alphabets: seq<(string, int)>, names: Names, names': Names)
  {
    names'.Keys == names.Keys &&
    forall s, t | s in names && t in names && names'[s] != names'[t] ::
      names[s] != names[t] || KeysDiffer(m, names, alphabets, s, t)
  }

  /** Two states that a registered index files under different buckets are apart, once
      the states in different partitions are: the index itself tells them apart when one
      image is `ErrorState`, and otherwise it leads to two states already apart. */
  lemma KeyApart(m: SymbolDfa.Edges, accepting: set<int>, alphabets: seq<(string, int)>, names: Names, s: int, t: int, c: int)
    requires ClosedUnder(m, names) && Separated(m, accepting, alphabets, names)
    requires 0 <= c < |alphabets| && Key(m, names, s, alphabets[c].1) != Key(m, names, t, alphabets[c].1)
    ensures Apart(m, accepting, alphabets, s, t)
  {
    var index := alphabets[c].1;
    var x, y := SymbolDfa.Step(m, s, index), SymbolDfa.Step(m, t, index);
    assert SymbolDfa.Run(m, s, [index]) == SymbolDfa.Run(m, x, []);
    assert SymbolDfa.Run(m, t, [index]) == SymbolDfa.Run(m, y, []);
    assert SymbolDfa.Known(alphabets, index);
    if x == ErrorState || y == ErrorState {
      assert SymbolDfa.Registered(alphabets, [index]) && TellsApart(m, accepting, s, t, [index]);
    } else {
      assert x in names && y in names && names[x] != names[y];
      var w :| SymbolDfa.Registered(alphabets, w) && TellsApart(m, accepting, x, y, w);
      var v := [index] + w;
      assert v[1..] == w;
      assert SymbolDfa.Registered(alphabets, v) by {
        forall i | 0 <= i < |v|
          ensures SymbolDfa.Known(alphabets, v[i])
        {
          if i > 0 {
            assert v[i] == w[i - 1];
          }
        }
      }
      assert TellsApart(m, accepting, s, t, v);
    }
  }

  /** A refinement step that separates states only for a cause keeps them separated. */
  lemma SeparatedStep(m: SymbolDfa.Edges, accepting: set<int>, alphabets: seq<(string, int)>, names: Names, names': Names)
    requires ClosedUnder(m, names) && Separated(m, accepting, alphabets, names)
    requires SplitsBy(m, alphabets, names, names')
    ensures ClosedUnder(m, names') && Separated(m, accepting, alphabets, names')
  {
    forall s, t | s in names' && t in names' && names'[s] != names'[t]
      ensures Apart(m, accepting, alphabets, s, t)
    {
      if names[s] == names[t] {
        var c :| 0 <= c < |alphabets| && Key(m, names, s, alphabets[c].1) != Key(m, names, t, alphabets[c].1);
        KeyApart(m, accepting, alphabets, names, s, t, c);
      }
    }
  }

  /** Splitting partition `p` by its buckets on the index at position `c` separates only
      states of `p` that the index files under different buckets. */
  lemma SplitOnKeys(m: SymbolDfa.Edges, alphabets: seq<(string, int)>, c: int, partitions: seq<Partition>, p: int,
                    names: Names, names': Names)
    requires Placed(partitions, names) && Pointed(partitions, names)
    requires 0 <= p < |partitions| && 0 <= c < |alphabets|
    requires SplitNames(AllBuckets(KeyFn(m, names, alphabets[c].1), partitions[p].states), |partitions|, names, names')
    ensures SplitsBy(m, alphabets, names, names')
  {
    var keyOf := KeyFn(m, names, alphabets[c].1);
    var P := partitions[p].states;
    var b := AllBuckets(keyOf, P);
    var n, last := |partitions|, |b| - 1;
    BucketsFacts(keyOf, P);
    BucketParts(keyOf, P, b, names, p);
    forall s, t | s in names && t in names && names'[s] != names'[t] && names[s] == names[t]
      ensures KeysDiffer(m, names, alphabets, s, t)
    {
      if names[s] != p {
        assert false;
      }
      assert s in P && t in P;
      var js, jt := KeyIndex(b, keyOf(s)), KeyIndex(b, keyOf(t));
      assert s in b[js].1 && t in b[jt].1;
      if js == jt {
        assert false;
      }
      assert keyOf(s) == b[js].0 != b[jt].0 == keyOf(t);
      assert Key(m, names, s, alphabets[c].1) != Key(m, names, t, alphabets[c].1);
    }
  }

  lemma MarkedGrows(reachable: Reachable, keys: seq<int>, p: int)
    ensures Grows(reachable, Marked(reachable, keys, p))
  {
  }

  /** Stability survives the growth of the reachable sets. */
  lemma RefinedGrows(m: SymbolDfa.Edges, names: Names, partitions: seq<Partition>, reachable: Reachable,
                     reachable': Reachable, alphabets: seq<(string, int)>, pending: seq<int>)
    requires Refined(m, names, partitions, reachable, alphabets, pending) && Grows(reachable, reachable')
    ensures Refined(m, names, partitions, reachable', alphabets, pending)
  {
  }

  /** After a pass of `processAlpha` on `p` that does not split, `p` is stable on that
      index: the one bucket means one key, and the pass marked `p` as reaching it. */
  lemma StableMarked(m: SymbolDfa.Edges, names: Names, partitions: seq<Partition>, reachable: Reachable, p: int, index: int)
    requires Named(partitions) && Pointed(partitions, names) && Keyed(reachable, |partitions|) && 0 <= p < |partitions|
    requires |AllBuckets(KeyFn(m, names, index), partitions[p].states)| <= 1
    ensures StableOn(m, names, partitions, Marked(reachable, LiveKeys(KeyFn(m, names, index), partitions[p].states), p), p, index)
  {
    var keyOf := KeyFn(m, names, index);
    var P := partitions[p].states;
    SplitIff(keyOf, P);
    LiveKeysIn(keyOf, P);
    MembersIn(keyOf, P, keyOf(P[0]));
    assert P[0] in Members(keyOf, P, keyOf(P[0]));
    var image := SymbolDfa.Step(m, P[0], index);
    assert image in names ==> 0 <= names[image] < |partitions|;
  }

  /** Names change only for the states of the split partition `p`, so a key other than `p`
      is the same before and after the split. */
  lemma KeyKept(m: SymbolDfa.Edges, names: Names, names': Names, b: Buckets, n: int, p: int, s: int, index: int)
    requires SplitNames(b, n, names, names') && NamedAfter(b, names, p)
    requires Key(m, names, s, index) != p
    ensures Key(m, names', s, index) == Key(m, names, s, index)
  {
    var t := SymbolDfa.Step(m, s, index);
    assert t in names && names[t] != p ==> forall j | 0 <= j < |b| - 1 :: t !in b[j].1;
  }

  /** A partition that is stable, is not the split one and did not reach it stays stable. */
  lemma StableSplit(m: SymbolDfa.Edges, names: Names, partitions: seq<Partition>, reachable: Reachable, marked: Reachable,
                    p: int, b: Buckets, a: int, index: int,
                    partitions': seq<Partition>, names': Names, reachable': Reachable)
    requires Named(partitions) && Keyed(reachable, |partitions|) && Grows(reachable, marked)
    requires 0 <= p < |partitions| && |b| > 1 && 0 <= a < |partitions| && a != p
    requires forall k | 0 <= k < |partitions| :: k in marked
    requires NamedAfter(b, names, p)
    requires StableOn(m, names, partitions, reachable, a, index)
    requires a !in marked[p]
    requires SplitPartitions(p, b, partitions, partitions') && SplitNames(b, |partitions|, names, names')
    requires SplitReachable(p, |b| - 1, |partitions|, marked, reachable')
    ensures 0 <= a < |partitions'| && StableOn(m, names', partitions', reachable', a, index)
  {
    var n := |partitions|;
    assert partitions'[a] == partitions[a];
    var P := partitions[a];
    var k := Key(m, names, Rep(P), index);
    assert k != ErrorState ==> a in reachable[k] && a in marked[k];
    assert k != p;
    forall s | s in P.states
      ensures Key(m, names', s, index) == k
    {
      KeyKept(m, names, names', b, n, p, s, index);
    }
    assert P.states[0] in P.states;
    assert Key(m, names', Rep(P), index) == k;
  }

  /** A split keeps the work list's promise: every partition not pending afterwards is
      stable. The split one is queued, the new ones are queued, and every partition that
      reached the split one is queued by `pushReachables`; every other key is unchanged. */
  lemma RefinedSplit(m: SymbolDfa.Edges, p: int, index: int, b: Buckets, reachable: Reachable, marked: Reachable,
                     partitions: seq<Partition>, names: Names, buffer: seq<int>, cursor: int,
                     partitions': seq<Partition>, names': Names, reachable': Reachable, buffer': seq<int>,
                     alphabets: seq<(string, int)>)
    requires Structure(partitions, names, reachable, buffer) && 0 <= p < |partitions| && 0 <= cursor <= |buffer|
    requires Refined(m, names, partitions, reachable, alphabets, [p] + buffer[cursor..])
    requires b == AllBuckets(KeyFn(m, names, index), partitions[p].states) && |b| > 1
    requires marked == Marked(reachable, LiveKeys(KeyFn(m, names, index), partitions[p].states), p)
    requires SplitInto(p, b, marked, partitions, names, buffer, cursor, partitions', names', reachable', buffer')
    ensures Refined(m, names', partitions', reachable', alphabets, buffer'[cursor..])
  {
    forall a, c | 0 <= a < |partitions'| && a !in buffer'[cursor..] && 0 <= c < |alphabets|
      ensures StableOn(m, names', partitions', reachable', a, alphabets[c].1)
    {
      Untouched(m, p, index, b, reachable, marked, partitions, names, buffer, cursor, partitions', buffer', a);
      assert StableOn(m, names, partitions, reachable, a, alphabets[c].1);
      StableAfterSplit(m, p, index, b, reachable, marked, partitions, names, partitions', names', reachable', a, alphabets[c].1);
    }
  }

  /** A partition the split leaves off the work list is an old one other than the split
      partition, was not pending before, and has no edge into the split partition. */
  lemma Untouched(m: SymbolDfa.Edges, p: int, index: int, b: Buckets, reachable: Reachable, marked: Reachable,
                  partitions: seq<Partition>, names: Names, buffer: seq<int>, cursor: int,
                  partitions': seq<Partition>, buffer': seq<int>, a: int)
    requires Structure(partitions, names, reachable, buffer) && 0 <= p < |partitions| && 0 <= cursor <= |buffer|
    requires |b| > 1 && forall k | 0 <= k < |partitions| :: k in marked
    requires SplitPartitions(p, b, partitions, partitions')
    requires SplitBuffer(p, |b| - 1, |partitions|, marked[p], buffer, cursor, buffer')
    requires 0 <= a < |partitions'| && a !in buffer'[cursor..]
    ensures a < |partitions| && a !in [p] + buffer[cursor..] && a !in marked[p]
  {
    var n := |partitions|;
    var requeue := if p in buffer[cursor..] then [] else [p];
    var added := NewPositions(n, |b| - 1);
    var front := buffer[cursor..] + requeue + added;
    var tail := requeue + added + Without(marked[p], front);
    Regroup(buffer, requeue, added, Without(marked[p], front));
    DropConcat(buffer, tail, cursor);
    assert buffer'[cursor..] == buffer[cursor..] + tail;
    WithoutIn(marked[p], front);
    if a >= n {
      PositionsIn(n, |b| - 1, a);
    }
  }

  /** The split keeps a partition stable that was stable before, is not the split one,
      and has no edge into the split one. */
  lemma StableAfterSplit(m: SymbolDfa.Edges, p: int, index: int, b: Buckets, reachable: Reachable, marked: Reachable,
                         partitions: seq<Partition>, names: Names,
                         partitions': seq<Partition>, names': Names, reachable': Reachable, a: int, c: int)
    requires Named(partitions) && Placed(partitions, names) && Pointed(partitions, names)
    requires Keyed(reachable, |partitions|) && 0 <= p < |partitions|
    requires b == AllBuckets(KeyFn(m, names, index), partitions[p].states) && |b| > 1
    requires marked == Marked(reachable, LiveKeys(KeyFn(m, names, index), partitions[p].states), p)
    requires SplitPartitions(p, b, partitions, partitions') && SplitNames(b, |partitions|, names, names')
    requires SplitReachable(p, |b| - 1, |partitions|, marked, reachable')
    requires 0 <= a < |partitions| && a != p && a !in marked[p]
    requires StableOn(m, names, partitions, reachable, a, c)
    ensures StableOn(m, names', partitions', reachable', a, c)
  {
    var keyOf := KeyFn(m, names, index);
    BucketParts(keyOf, partitions[p].states, b, names, p);
    MarkedGrows(reachable, LiveKeys(keyOf, partitions[p].states), p);
    StableSplit(m, names, partitions, reachable, marked, p, b, a, c, partitions', names', reachable');
  }

  /** A pass of the index loop of `processWorkset` that splits partition `p` leaves the
      partitions refined against the new work list and each wholly accepting or wholly
      not; it adds partitions, keeps the named states and only appends to the work list. */
  lemma SplitStep(m: SymbolDfa.Edges, p: int, index: int, b: Buckets, reachable: Reachable, marked: Reachable,
                  partitions: seq<Partition>, names: Names, buffer: seq<int>, cursor: int,
                  partitions': seq<Partition>, names': Names, reachable': Reachable, buffer': seq<int>,
                  alphabets: seq<(string, int)>, accepting: set<int>)
    requires Structure(partitions, names, reachable, buffer) && 0 <= p < |partitions| && 0 <= cursor <= |buffer|
    requires Refined(m, names, partitions, reachable, alphabets, [p] + buffer[cursor..])
    requires Uniform(partitions, accepting)
    requires b == AllBuckets(KeyFn(m, names, index), partitions[p].states) && |b| > 1
    requires marked == Marked(reachable, LiveKeys(KeyFn(m, names, index), partitions[p].states), p)
    requires SplitInto(p, b, marked, partitions, names, buffer, cursor, partitions', names', reachable', buffer')
    ensures Refined(m, names', partitions', reachable', alphabets, buffer'[cursor..])
    ensures Uniform(partitions', accepting)
    ensures names'.Keys == names.Keys && |partitions'| > |partitions| && |buffer| <= |buffer'|
  {
    RefinedSplit(m, p, index, b, reachable, marked, partitions, names, buffer, cursor,
                 partitions', names', reachable', buffer', alphabets);
    UniformAfter(KeyFn(m, names, index), p, b, partitions, partitions', accepting);
  }

  /** A split keeps every partition wholly accepting or wholly not: the buckets lie inside
      the split partition. */
  lemma UniformSplit(keyOf: int -> int, p: int, b: Buckets, partitions: seq<Partition>, partitions': seq<Partition>, accepting: set<int>)
    requires Named(partitions) && Uniform(partitions, accepting) && 0 <= p < |partitions|
    requires |b| > 1 && Bucketed(keyOf, partitions[p].states, b)
    requires SplitPartitions(p, b, partitions, partitions')
    ensures Uniform(partitions', accepting)
  {
    var n, P := |partitions|, partitions[p];
    assert forall j, s | 0 <= j < |b| && s in b[j].1 :: s in P.states;
    forall a, s | 0 <= a < |partitions'| && s in partitions'[a].states
      ensures s in accepting <==> Rep(partitions'[a]) in accepting
    {
      if a == p || a >= n {
        var j := if a == p then |b| - 1 else a - n;
        assert partitions'[a].states == b[j].1;
        assert b[j].1[0] in b[j].1;
        assert s in P.states;
        assert Rep(partitions'[a]) in P.states;
      } else {
        assert partitions'[a] == partitions[a];
      }
    }
  }

  lemma UniformAfter(keyOf: int -> int, p: int, b: Buckets, partitions: seq<Partition>, partitions': seq<Partition>, accepting: set<int>)
    requires Named(partitions) && Uniform(partitions, accepting) && 0 <= p < |partitions|
    requires b == AllBuckets(keyOf, partitions[p].states) && |b| > 1
    requires SplitPartitions(p, b, partitions, partitions')
    ensures Uniform(partitions', accepting)
  {
    BucketsFacts(keyOf, partitions[p].states);
    UniformSplit(keyOf, p, b, partitions, partitions', accepting);
  }

  /** The indices before `c` stay stable for `p` as the reachable sets grow, and `c` is
      stable now. */
  /** A pass of the index loop of `processWorkset` that splits nothing keeps the
      refinement invariant and makes the partition stable on one more index. */
  lemma StableStep(m: SymbolDfa.Edges, names: Names, partitions: seq<Partition>, reachable: Reachable,
                   p: int, alphabets: seq<(string, int)>, c: int, pending: seq<int>)
    requires Named(partitions) && Pointed(partitions, names) && Keyed(reachable, |partitions|)
    requires 0 <= p < |partitions| && 0 <= c < |alphabets|
    requires |AllBuckets(KeyFn(m, names, alphabets[c].1), partitions[p].states)| <= 1
    requires Refined(m, names, partitions, reachable, alphabets, pending)
    requires forall c' | 0 <= c' < c :: StableOn(m, names, partitions, reachable, p, alphabets[c'].1)
    ensures var marked := Marked(reachable, LiveKeys(KeyFn(m, names, alphabets[c].1), partitions[p].states), p);
      Refined(m, names, partitions, marked, alphabets, pending) &&
      forall c' | 0 <= c' < c + 1 :: StableOn(m, names, partitions, marked, p, alphabets[c'].1)
  {
    var index := alphabets[c].1;
    var marked := Marked(reachable, LiveKeys(KeyFn(m, names, index), partitions[p].states), p);
    StableMarked(m, names, partitions, reachable, p, index);
    MarkedGrows(reachable, LiveKeys(KeyFn(m, names, index), partitions[p].states), p);
    RefinedGrows(m, names, partitions, reachable, marked, alphabets, pending);
    StablePrefix(m, names, partitions, reachable, marked, p, alphabets, c);
  }

  lemma StablePrefix(m: SymbolDfa.Edges, names: Names, partitions: seq<Partition>, reachable: Reachable, reachable': Reachable,
                     p: int, alphabets: seq<(string, int)>, c: int)
    requires 0 <= p < |partitions| && 0 <= c < |alphabets| && Grows(reachable, reachable')
    requires forall c' | 0 <= c' < c :: StableOn(m, names, partitions, reachable, p, alphabets[c'].1)
    requires StableOn(m, names, partitions, reachable', p, alphabets[c].1)
    ensures forall c' | 0 <= c' < c + 1 :: StableOn(m, names, partitions, reachable', p, alphabets[c'].1)
  {
  }

  /** A partition stable on every index need not be pending. */
  lemma RefinedDone(m: SymbolDfa.Edges, names: Names, partitions: seq<Partition>, reachable: Reachable,
                    p: int, alphabets: seq<(string, int)>, pending: seq<int>)
    requires 0 <= p < |partitions| && Refined(m, names, partitions, reachable, alphabets, [p] + pending)
    requires forall c | 0 <= c < |alphabets| :: StableOn(m, names, partitions, reachable, p, alphabets[c].1)
    ensures Refined(m, names, partitions, reachable, alphabets, pending)
  {
    forall a, c | 0 <= a < |partitions| && a !in pending && 0 <= c < |alphabets|
      ensures StableOn(m, names, partitions, reachable, a, alphabets[c].1)
    {
      assert a != p ==> a !in [p] + pending;
    }
  }

  /** `processWorkset(ctx, workset, partitionIndex)`: `processAlpha` on each registered
      index in turn, stopping at the first that splits the partition. Entered with every
      other partition not pending stable, it leaves every partition not pending stable,
      and either adds partitions or leaves the partitions and the work list as they were. */
  method ProcessWorkset(ctx: MinimizationContext, workset: Partition, partitionIndex: int) returns (r: Outcome)
    requires ctx.Valid() && 0 <= partitionIndex < |ctx.partitions| && workset == ctx.partitions[partitionIndex]
    requires Refined(ctx.dfa.mappings, ctx.names, ctx.partitions, ctx.reachable, ctx.dfa.alphabets.Entries(),
                     [partitionIndex] + ctx.worklist.buffer[ctx.worklist.index..])
    requires Uniform(ctx.partitions, ctx.dfa.accepting)
    modifies ctx, ctx.worklist
    ensures unchanged(ctx.dfa)
    ensures ctx.worklist.index == old(ctx.worklist.index)
    ensures r.Thrown? <==> |ctx.dfa.alphabets.Entries()| > 0 && exists s | s in workset.states :: !Good(ctx.dfa.mappings, s)
    ensures r.Thrown? ==> r.exception == TypeError
    ensures r.Done? ==> ctx.Valid() && ctx.names.Keys == old(ctx.names).Keys && Uniform(ctx.partitions, ctx.dfa.accepting)
    ensures r.Done? ==> Refined(ctx.dfa.mappings, ctx.names, ctx.partitions, ctx.reachable, ctx.dfa.alphabets.Entries(),
                                ctx.worklist.buffer[ctx.worklist.index..])
    ensures r.Done? ==> |ctx.partitions| > |old(ctx.partitions)| ||
                        (|ctx.partitions| == |old(ctx.partitions)| && ctx.worklist.buffer == old(ctx.worklist.buffer))
    ensures r.Done? ==> |old(ctx.worklist.buffer)| <= |ctx.worklist.buffer|
    ensures r.Done? ==> SplitsBy(ctx.dfa.mappings, ctx.dfa.alphabets.Entries(), old(ctx.names), ctx.names)
  {
    ghost var m, names, partitions := ctx.dfa.mappings, ctx.names, ctx.partitions;
    ghost var buffer, cursor := ctx.worklist.buffer, ctx.worklist.index;
    var alphabets := ctx.dfa.alphabets.Entries();
    var c := 0;
    while c < |alphabets|
      invariant 0 <= c <= |alphabets|
      invariant unchanged(ctx.dfa)
      invariant ctx.Valid() && ctx.names == names && ctx.partitions == partitions
      invariant ctx.worklist.buffer == buffer && ctx.worklist.index == cursor
      invariant Refined(m, names, partitions, ctx.reachable, alphabets, [partitionIndex] + buffer[cursor..])
      invariant forall c' | 0 <= c' < c :: StableOn(m, names, partitions, ctx.reachable, partitionIndex, alphabets[c'].1)
      invariant c > 0 ==> forall s | s in workset.states :: Good(m, s)
    {
      var split, done := IndexPass(ctx, workset, partitionIndex, alphabets, c, names, partitions, buffer, cursor);
      if done.Thrown? {
        return done;
      }
      if split {
        return Done;
      }
      c := c + 1;
    }
    RefinedDone(m, names, partitions, ctx.reachable, partitionIndex, alphabets, buffer[cursor..]);
    r := Done;
  }

  /** One pass of the index loop of `processWorkset`, on the index at position `c`: either
      the partition splits, leaving the partitions refined against the new work list, or
      it is stable on one more index. */
  method IndexPass(ctx: MinimizationContext, workset: Partition, partitionIndex: int, alphabets: seq<(string, int)>, c: int,
                   ghost names: Names, ghost partitions: seq<Partition>, ghost buffer: seq<int>, ghost cursor: int)
    returns (split: bool, r: Outcome)
    requires ctx.Valid() && ctx.names == names && ctx.partitions == partitions
    requires 0 <= c < |alphabets| && alphabets == ctx.dfa.alphabets.Entries()
    requires 0 <= partitionIndex < |partitions| && workset == partitions[partitionIndex]
    requires ctx.worklist.buffer == buffer && ctx.worklist.index == cursor
    requires Refined(ctx.dfa.mappings, names, partitions, ctx.reachable, alphabets, [partitionIndex] + buffer[cursor..])
    requires forall c' | 0 <= c' < c :: StableOn(ctx.dfa.mappings, names, partitions, ctx.reachable, partitionIndex, alphabets[c'].1)
    requires Uniform(partitions, ctx.dfa.accepting)
    modifies ctx, ctx.worklist
    ensures unchanged(ctx.dfa) && ctx.worklist.index == cursor
    ensures r.Thrown? <==> exists s | s in workset.states :: !Good(ctx.dfa.mappings, s)
    ensures r.Thrown? ==> r.exception == TypeError
    ensures r.Done? && split ==>
      ctx.Valid() && ctx.names.Keys == names.Keys && Uniform(ctx.partitions, ctx.dfa.accepting) &&
      Refined(ctx.dfa.mappings, ctx.names, ctx.partitions, ctx.reachable, alphabets, ctx.worklist.buffer[cursor..]) &&
      |ctx.partitions| > |partitions| && |buffer| <= |ctx.worklist.buffer| &&
      SplitsBy(ctx.dfa.mappings, alphabets, names, ctx.names)
    ensures r.Done? && !split ==>
      ctx.Valid() && ctx.names == names && ctx.partitions == partitions && ctx.worklist.buffer == buffer &&
      Refined(ctx.dfa.mappings, names, partitions, ctx.reachable, alphabets, [partitionIndex] + buffer[cursor..]) &&
      forall c' | 0 <= c' < c + 1 :: StableOn(ctx.dfa.mappings, names, partitions, ctx.reachable, partitionIndex, alphabets[c'].1)
  {
    ghost var m := ctx.dfa.mappings;
    var (alpha, index) := alphabets[c];
    ghost var reachable := ctx.reachable;
    var found := ProcessAlpha(ctx, workset, partitionIndex, index);
    if found.Throw? {
      return false, Thrown(found.exception);
    }
    ghost var keyOf := KeyFn(m, names, index);
    ghost var b := AllBuckets(keyOf, workset.states);
    ghost var marked := Marked(reachable, LiveKeys(keyOf, workset.states), partitionIndex);
    split, r := found.value, Done;
    if split {
      SplitStep(m, partitionIndex, index, b, reachable, marked, partitions, names, buffer, cursor,
                ctx.partitions, ctx.names, ctx.reachable, ctx.worklist.buffer, alphabets, ctx.dfa.accepting);
      SplitOnKeys(m, alphabets, c, partitions, partitionIndex, names, ctx.names);
    } else {
      StableStep(m, names, partitions, reachable, partitionIndex, alphabets, c, [partitionIndex] + buffer[cursor..]);
    }
  }

  /** The edges `toDfa` gives the state of a partition whose first state is `rep`, after
      the indices of `alphabets` in order: for each index whose image is not `ErrorState`,
      an edge to the partition holding the image. */
  function Row(m: SymbolDfa.Edges, names: Names, rep: int, alphabets: seq<(string, int)>): map<int, int>
    decreases |alphabets|
  {
    if |alphabets| == 0 then map[]
    else
      var row := Row(m, names, rep, alphabets[..|alphabets| - 1]);
      var index := alphabets[|alphabets| - 1].1;
      var image := SymbolDfa.Step(m, rep, index);
      if image == ErrorState then row else row[index := NameOf(names, image)]
  }

  /** The mappings of the DFA `toDfa` builds: partition `a` becomes state `a`. */
  function QuotientEdges(m: SymbolDfa.Edges, names: Names, partitions: seq<Partition>, alphabets: seq<(string, int)>): SymbolDfa.Edges
  {
    map a | 0 <= a < |partitions| :: Row(m, names, Rep(partitions[a]), alphabets)
  }

  /** The accepting states of the DFA `toDfa` builds: the partitions whose first state is
      accepting. */
  function QuotientAccepting(partitions: seq<Partition>, accepting: set<int>): set<int>
  {
    set a | 0 <= a < |partitions| && Rep(partitions[a]) in accepting
  }

  /** The state of the minimised DFA that stands for state `s` of the original. */
  function Cls(names: Names, s: int): int
  {
    if s in names then names[s] else ErrorState
  }

  /** A row has an edge on exactly the registered indices whose image is live, to the
      partition of the image. */
  lemma {:induction false} RowAt(m: SymbolDfa.Edges, names: Names, rep: int, alphabets: seq<(string, int)>, index: int)
    ensures index in Row(m, names, rep, alphabets) <==>
      (exists c :: 0 <= c < |alphabets| && alphabets[c].1 == index) && SymbolDfa.Step(m, rep, index) != ErrorState
    ensures index in Row(m, names, rep, alphabets) ==>
      Row(m, names, rep, alphabets)[index] == NameOf(names, SymbolDfa.Step(m, rep, index))
    decreases |alphabets|
  {
    if |alphabets| > 0 {
      var init := alphabets[..|alphabets| - 1];
      RowAt(m, names, rep, init, index);
      assert forall c | 0 <= c < |init| :: init[c] == alphabets[c];
      if alphabets[|alphabets| - 1].1 != index {
        assert (exists c :: 0 <= c < |alphabets| && alphabets[c].1 == index) ==>
          exists c :: 0 <= c < |init| && init[c].1 == index;
      }
    }
  }

  /** Every edge target of `m` is `ErrorState` or a named state. */
  predicate ClosedUnder(m: SymbolDfa.Edges, names: Names)
  {
    forall s, i | s in m && i in m[s] :: m[s][i] == ErrorState || m[s][i] in names
  }

  /** Once no partition is pending, one step of the minimised DFA from the partition of
      `s` lands in the partition of `s`'s image, or in `ErrorState` with it. */
  lemma QuotientStep(m: SymbolDfa.Edges, names: Names, partitions: seq<Partition>, reachable: Reachable,
                     alphabets: seq<(string, int)>, s: int, index: int)
    requires Named(partitions) && Pointed(partitions, names) && ErrorState !in names && ClosedUnder(m, names)
    requires Refined(m, names, partitions, reachable, alphabets, [])
    requires s in names && exists c :: 0 <= c < |alphabets| && alphabets[c].1 == index
    ensures SymbolDfa.Step(QuotientEdges(m, names, partitions, alphabets), names[s], index) == Cls(names, SymbolDfa.Step(m, s, index))
  {
    var a := names[s];
    var c :| 0 <= c < |alphabets| && alphabets[c].1 == index;
    assert 0 <= a < |partitions| && a !in [];
    assert StableOn(m, names, partitions, reachable, a, alphabets[c].1);
    var rep := Rep(partitions[a]);
    assert Key(m, names, s, index) == Key(m, names, rep, index);
    RowAt(m, names, rep, alphabets, index);
    var t := SymbolDfa.Step(m, s, index);
    var u := SymbolDfa.Step(m, rep, index);
    assert u in names ==> names[u] >= 0;
    assert t in names ==> names[t] >= 0;
    assert t != ErrorState ==> t in names;
  }

  /** Reading a word of registered indices in the minimised DFA from the partition of `s`
      ends in the partition of the state the original DFA ends in. */
  lemma {:induction false} QuotientRun(m: SymbolDfa.Edges, names: Names, partitions: seq<Partition>, reachable: Reachable,
                                       alphabets: seq<(string, int)>, s: int, w: seq<int>)
    requires Named(partitions) && Pointed(partitions, names) && ErrorState !in names && ClosedUnder(m, names)
    requires Refined(m, names, partitions, reachable, alphabets, [])
    requires s == ErrorState || s in names
    requires SymbolDfa.Registered(alphabets, w)
    ensures SymbolDfa.Run(m, s, w) == ErrorState || SymbolDfa.Run(m, s, w) in names
    ensures SymbolDfa.Run(QuotientEdges(m, names, partitions, alphabets), Cls(names, s), w) == Cls(names, SymbolDfa.Run(m, s, w))
    decreases |w|
  {
    var q := QuotientEdges(m, names, partitions, alphabets);
    if w != [] {
      if s == ErrorState {
        SymbolDfa.RunFromError(q, w);
        SymbolDfa.RunFromError(m, w);
      } else {
        var c := SymbolDfa.RegisteredAt(alphabets, w, 0);
        QuotientStep(m, names, partitions, reachable, alphabets, s, w[0]);
        var t := SymbolDfa.Step(m, s, w[0]);
        SymbolDfa.RegisteredTail(alphabets, w);
        QuotientRun(m, names, partitions, reachable, alphabets, t, w[1..]);
      }
    }
  }

  /** The minimised DFA accepts exactly the words of registered indices the original
      accepts: it runs through the partitions of the original's states, and each partition
      is wholly accepting or wholly not. */
  lemma QuotientAccepts(m: SymbolDfa.Edges, names: Names, partitions: seq<Partition>, reachable: Reachable,
                        alphabets: seq<(string, int)>, accepting: set<int>, start: int, w: seq<int>)
    requires Named(partitions) && Pointed(partitions, names) && ErrorState !in names && ClosedUnder(m, names)
    requires Refined(m, names, partitions, reachable, alphabets, []) && Uniform(partitions, accepting)
    requires accepting <= names.Keys && start in names
    requires SymbolDfa.Registered(alphabets, w)
    ensures SymbolDfa.Run(QuotientEdges(m, names, partitions, alphabets), names[start], w) in QuotientAccepting(partitions, accepting)
        <==> SymbolDfa.Run(m, start, w) in accepting
  {
    QuotientRun(m, names, partitions, reachable, alphabets, start, w);
    var t := SymbolDfa.Run(m, start, w);
    if t in names {
      assert t in partitions[names[t]].states;
    }
  }

  /** The state of the minimised DFA standing for `x` accepts exactly when `x` does, and
      is `ErrorState` exactly when `x` is. */
  lemma ClassAlike(partitions: seq<Partition>, names: Names, accepting: set<int>, x: int)
    requires Named(partitions) && Pointed(partitions, names) && Uniform(partitions, accepting)
    requires ErrorState !in accepting && ErrorState !in names && (x == ErrorState || x in names)
    ensures Cls(names, x) in QuotientAccepting(partitions, accepting) <==> x in accepting
    ensures Cls(names, x) == ErrorState <==> x == ErrorState
  {
    if x != ErrorState {
      assert x in partitions[names[x]].states;
    }
  }

  /** Once no partition is pending, no registered word tells apart two states of one
      partition: they run to states of one partition again. */
  lemma SamePartitionAlike(m: SymbolDfa.Edges, names: Names, partitions: seq<Partition>, reachable: Reachable,
                           alphabets: seq<(string, int)>, accepting: set<int>, s: int, t: int, w: seq<int>)
    requires Named(partitions) && Pointed(partitions, names) && ErrorState !in names && ClosedUnder(m, names)
    requires Refined(m, names, partitions, reachable, alphabets, []) && Uniform(partitions, accepting)
    requires ErrorState !in accepting
    requires s in names && t in names && names[s] == names[t] && SymbolDfa.Registered(alphabets, w)
    ensures !TellsApart(m, accepting, s, t, w)
  {
    QuotientRun(m, names, partitions, reachable, alphabets, s, w);
    QuotientRun(m, names, partitions, reachable, alphabets, t, w);
    ClassAlike(partitions, names, accepting, SymbolDfa.Run(m, s, w));
    ClassAlike(partitions, names, accepting, SymbolDfa.Run(m, t, w));
  }

  /** Two different states of the minimised DFA are apart: their partitions' first states
      are, and the minimised DFA runs through the partitions of the original's runs. */
  lemma QuotientApart(m: SymbolDfa.Edges, names: Names, partitions: seq<Partition>, reachable: Reachable,
                      alphabets: seq<(string, int)>, accepting: set<int>, a: int, b: int)
    requires Named(partitions) && Placed(partitions, names) && Pointed(partitions, names)
    requires ErrorState !in names && ClosedUnder(m, names)
    requires Refined(m, names, partitions, reachable, alphabets, []) && Uniform(partitions, accepting)
    requires ErrorState !in accepting && Separated(m, accepting, alphabets, names)
    requires 0 <= a < |partitions| && 0 <= b < |partitions| && a != b
    ensures Apart(QuotientEdges(m, names, partitions, alphabets), QuotientAccepting(partitions, accepting), alphabets, a, b)
  {
    var ra, rb := Rep(partitions[a]), Rep(partitions[b]);
    assert ra in partitions[a].states && rb in partitions[b].states;
    var w :| SymbolDfa.Registered(alphabets, w) && TellsApart(m, accepting, ra, rb, w);
    QuotientRun(m, names, partitions, reachable, alphabets, ra, w);
    QuotientRun(m, names, partitions, reachable, alphabets, rb, w);
    ClassAlike(partitions, names, accepting, SymbolDfa.Run(m, ra, w));
    ClassAlike(partitions, names, accepting, SymbolDfa.Run(m, rb, w));
    assert TellsApart(QuotientEdges(m, names, partitions, alphabets), QuotientAccepting(partitions, accepting), a, b, w);
  }

  /** When every two states the minimiser partitions are apart, no two share a partition,
      so there are as many partitions as states. */
  lemma NoMerge(m: SymbolDfa.Edges, names: Names, partitions: seq<Partition>, reachable: Reachable,
                alphabets: seq<(string, int)>, accepting: set<int>, u: set<int>)
    requires Named(partitions) && Placed(partitions, names) && Pointed(partitions, names)
    requires ErrorState !in names && ClosedUnder(m, names) && names.Keys == u
    requires Refined(m, names, partitions, reachable, alphabets, []) && Uniform(partitions, accepting)
    requires ErrorState !in accepting
    requires forall s, t | s in u && t in u && s != t :: Apart(m, accepting, alphabets, s, t)
    ensures |partitions| == |u|
  {
    forall s, t | s in u && t in u && s != t
      ensures names[s] != names[t]
    {
      var w :| SymbolDfa.Registered(alphabets, w) && TellsApart(m, accepting, s, t, w);
      if names[s] == names[t] {
        SamePartitionAlike(m, names, partitions, reachable, alphabets, accepting, s, t, w);
      }
    }
    forall s | s in u
      ensures names[s] in QuotientRange(|partitions|)
    {
      PositionsIn(0, |partitions|, names[s]);
    }
    SetFacts.MapInjectionCard(u, names, QuotientRange(|partitions|));
    RangeCard(|partitions|);
    PartitionCount(partitions, names);
  }

  /** The minimised DFA of drained partitions is well formed again: it starts in the
      partition of the start, and its accepting states and edge targets are partitions. */
  lemma QuotientWellFormed(m: SymbolDfa.Edges, names: Names, partitions: seq<Partition>, alphabets: seq<(string, int)>,
                           accepting: set<int>, start: int, states: set<int>)
    requires Named(partitions) && Pointed(partitions, names) && ClosedUnder(m, names) && start in names
    requires states == QuotientEdges(m, names, partitions, alphabets).Keys + {ErrorState}
    ensures WellFormed(names[start], states, QuotientEdges(m, names, partitions, alphabets), QuotientAccepting(partitions, accepting))
  {
    var q := QuotientEdges(m, names, partitions, alphabets);
    forall a, i | a in q && i in q[a]
      ensures q[a][i] in states
    {
      var rep := Rep(partitions[a]);
      RowAt(m, names, rep, alphabets, i);
      var image := SymbolDfa.Step(m, rep, i);
      assert image in names;
      assert q[a][i] in q;
    }
  }

  /** The mappings once the vertex loop of `toDfa` has passed the first `i` partitions:
      the start state and each partition passed, with no edges. */
  function Blank(start: int, i: nat): SymbolDfa.Edges
  {
    map a | a in NewPositions(0, i) + [start] :: map[]
  }

  /** The mappings once the edge loop of `toDfa` has passed the first `i` partitions. */
  function Built(m: SymbolDfa.Edges, names: Names, partitions: seq<Partition>, alphabets: seq<(string, int)>, i: int): SymbolDfa.Edges
  {
    map a | 0 <= a < |partitions| :: if a < i then Row(m, names, Rep(partitions[a]), alphabets) else map[]
  }

  lemma BlankStep(start: int, i: nat)
    ensures Blank(start, i + 1) == if i == start then Blank(start, i) else Blank(start, i)[i := map[]]
  {
    var b, b' := Blank(start, i), Blank(start, i + 1);
    assert NewPositions(0, i + 1) == NewPositions(0, i) + [i];
    assert forall a :: a in b' <==> a in b || a == i;
  }

  lemma BlankStart(start: int)
    ensures Blank(start, 0) == map[start := map[]]
  {
    assert Blank(start, 0).Keys == {start};
  }

  lemma BlankBuilt(m: SymbolDfa.Edges, names: Names, partitions: seq<Partition>, alphabets: seq<(string, int)>, start: int)
    requires 0 <= start < |partitions|
    ensures Blank(start, |partitions|) == Built(m, names, partitions, alphabets, 0)
  {
    var keys := NewPositions(0, |partitions|);
    forall a | 0 <= a < |partitions|
      ensures a in keys
    {
      assert keys[a] == a;
    }
    forall a | a in keys
      ensures 0 <= a < |partitions|
    {
      var j :| 0 <= j < |keys| && keys[j] == a;
    }
    assert Blank(start, |partitions|).Keys == Built(m, names, partitions, alphabets, 0).Keys;
  }

  lemma BuiltStep(m: SymbolDfa.Edges, names: Names, partitions: seq<Partition>, alphabets: seq<(string, int)>, i: int)
    requires 0 <= i < |partitions|
    ensures Built(m, names, partitions, alphabets, i + 1) ==
      Built(m, names, partitions, alphabets, i)[i := Row(m, names, Rep(partitions[i]), alphabets)]
  {
    var b, b' := Built(m, names, partitions, alphabets, i), Built(m, names, partitions, alphabets, i + 1);
    var row := Row(m, names, Rep(partitions[i]), alphabets);
    assert b'.Keys == b[i := row].Keys;
    forall a | a in b'
      ensures b'[a] == b[i := row][a]
    {
      if a == i {
        assert b'[a] == row;
      } else {
        assert b'[a] == b[a];
      }
    }
  }

  lemma BuiltAll(m: SymbolDfa.Edges, names: Names, partitions: seq<Partition>, alphabets: seq<(string, int)>)
    ensures Built(m, names, partitions, alphabets, |partitions|) == QuotientEdges(m, names, partitions, alphabets)
  {
    assert Built(m, names, partitions, alphabets, |partitions|).Keys == QuotientEdges(m, names, partitions, alphabets).Keys;
  }

  lemma AcceptingStep(partitions: seq<Partition>, accepting: set<int>, i: int)
    requires 0 <= i < |partitions|
    ensures QuotientAccepting(partitions[..i + 1], accepting) ==
      QuotientAccepting(partitions[..i], accepting) + if Rep(partitions[i]) in accepting then {i} else {}
  {
    var q, q' := QuotientAccepting(partitions[..i], accepting), QuotientAccepting(partitions[..i + 1], accepting);
    assert forall a | 0 <= a < i :: partitions[..i + 1][a] == partitions[..i][a];
    assert forall a :: a in q' <==> a in q || (a == i && Rep(partitions[i]) in accepting);
  }

  /** The vertex loop of `toDfa`: each partition other than the start one becomes a state
      with no edges, and a partition whose first state is accepting becomes accepting. */
  method AddVertices(result: SymbolDfa.DeterministicFiniteAutomata, partitions: seq<Partition>, start: int, accepting: set<int>)
    requires result.Valid() && result.start == start && 0 <= start < |partitions|
    requires result.mappings == map[start := map[]] && result.accepting == {}
    requires forall i | 0 <= i < |partitions| :: partitions[i].name == i
    modifies result
    ensures result.Valid() && result.start == start && result.alphabets == old(result.alphabets)
    ensures result.mappings == Blank(start, |partitions|)
    ensures result.accepting == QuotientAccepting(partitions, accepting)
  {
    BlankStart(start);
    var i := 0;
    while i < |partitions|
      invariant 0 <= i <= |partitions|
      invariant result.Valid() && result.start == start && result.alphabets == old(result.alphabets)
      invariant result.mappings == Blank(start, i)
      invariant result.accepting == QuotientAccepting(partitions[..i], accepting)
    {
      AddVertex(result, partitions, i, start, accepting);
      i := i + 1;
    }
    assert partitions[..i] == partitions;
  }

  /** One pass of the vertex loop of `toDfa`, on the partition at position `i`. */
  method AddVertex(result: SymbolDfa.DeterministicFiniteAutomata, partitions: seq<Partition>, i: int, start: int, accepting: set<int>)
    requires result.Valid() && 0 <= i < |partitions| && partitions[i].name == i
    requires result.mappings == Blank(start, i) && result.accepting == QuotientAccepting(partitions[..i], accepting)
    modifies result
    ensures result.Valid() && result.start == old(result.start) && result.alphabets == old(result.alphabets)
    ensures result.mappings == Blank(start, i + 1)
    ensures result.accepting == QuotientAccepting(partitions[..i + 1], accepting)
  {
    var partition := partitions[i];
    if partition.name != start {
      var appended := result.AppendVertex(Symbol(partition.name));
    }
    if Rep(partition) in accepting {
      result.accepting := result.accepting + {partition.name};
    }
    BlankStep(start, i);
    AcceptingStep(partitions, accepting, i);
  }

  /** The edge loop of `toDfa` for partition `a`: `delta` of its first state on each
      registered index, and an edge to the partition of every live image. */
  method AddRow(result: SymbolDfa.DeterministicFiniteAutomata, dfa: SymbolDfa.DeterministicFiniteAutomata, names: Names,
                partitions: seq<Partition>, a: int, alphabets: seq<(string, int)>) returns (r: Outcome)
    requires result.Valid() && dfa.Valid() && result != dfa
    requires 0 <= a < |partitions| && |partitions[a].states| > 0 && a in result.mappings && result.mappings[a] == map[]
    requires forall i | 0 <= i < |partitions| :: partitions[i].name == i
    requires forall s | s in names :: 0 <= names[s] < |partitions|
    modifies result
    ensures result.Valid() && result.start == old(result.start) && result.accepting == old(result.accepting)
    ensures result.alphabets == old(result.alphabets)
    ensures r.Thrown? <==> |alphabets| > 0 && !Good(dfa.mappings, Rep(partitions[a]))
    ensures r.Thrown? ==> r.exception == TypeError
    ensures r.Done? ==> result.mappings == old(result.mappings)[a := Row(dfa.mappings, names, Rep(partitions[a]), alphabets)]
  {
    var partitionA := partitions[a];
    var state1 := partitionA.states[0];
    var c := 0;
    while c < |alphabets|
      invariant 0 <= c <= |alphabets|
      invariant result.Valid() && result.start == old(result.start) && result.accepting == old(result.accepting)
      invariant result.alphabets == old(result.alphabets)
      invariant result.mappings == old(result.mappings)[a := Row(dfa.mappings, names, state1, alphabets[..c])]
      invariant c > 0 ==> Good(dfa.mappings, state1)
    {
      r := AddCell(result, dfa, names, partitions, a, alphabets, c);
      if r.Thrown? {
        return;
      }
      c := c + 1;
    }
    assert alphabets[..c] == alphabets;
    r := Done;
  }

  /** One pass of the edge loop of `toDfa` for partition `a`, on the index at position `c`. */
  method AddCell(result: SymbolDfa.DeterministicFiniteAutomata, dfa: SymbolDfa.DeterministicFiniteAutomata, names: Names,
                 partitions: seq<Partition>, a: int, alphabets: seq<(string, int)>, c: int) returns (r: Outcome)
    requires result.Valid() && dfa.Valid() && result != dfa
    requires 0 <= a < |partitions| && |partitions[a].states| > 0 && 0 <= c < |alphabets|
    requires forall i | 0 <= i < |partitions| :: partitions[i].name == i
    requires forall s | s in names :: 0 <= names[s] < |partitions|
    requires a in result.mappings && result.mappings[a] == Row(dfa.mappings, names, Rep(partitions[a]), alphabets[..c])
    modifies result
    ensures result.Valid() && result.start == old(result.start) && result.accepting == old(result.accepting)
    ensures result.alphabets == old(result.alphabets)
    ensures r.Thrown? <==> !Good(dfa.mappings, Rep(partitions[a]))
    ensures r.Thrown? ==> r.exception == TypeError
    ensures r.Done? ==> result.mappings == old(result.mappings)[a := Row(dfa.mappings, names, Rep(partitions[a]), alphabets[..c + 1])]
  {
    var partitionA := partitions[a];
    var state1 := partitionA.states[0];
    var (alpha, index) := alphabets[c];
    var state2 := dfa.Lookup(state1, index);
    if state2.Throw? {
      return Thrown(state2.exception);
    }
    assert alphabets[..c + 1][..c] == alphabets[..c];
    if state2.value != ErrorState {
      var partitionB := partitions[NameOf(names, state2.value)];
      var added := result.AddEdge(Number(index), Symbol(partitionA.name), Symbol(partitionB.name));
    }
    r := Done;
  }

  /** The edge loop of `toDfa` over all partitions. */
  method AddEdges(result: SymbolDfa.DeterministicFiniteAutomata, dfa: SymbolDfa.DeterministicFiniteAutomata, names: Names,
                  partitions: seq<Partition>, alphabets: seq<(string, int)>) returns (r: Outcome)
    requires result.Valid() && dfa.Valid() && result != dfa
    requires result.mappings == Built(dfa.mappings, names, partitions, alphabets, 0)
    requires forall i | 0 <= i < |partitions| :: partitions[i].name == i && |partitions[i].states| > 0
    requires forall s | s in names :: 0 <= names[s] < |partitions|
    modifies result
    ensures result.Valid() && result.start == old(result.start) && result.accepting == old(result.accepting)
    ensures result.alphabets == old(result.alphabets)
    ensures r.Thrown? <==> |alphabets| > 0 && exists a | 0 <= a < |partitions| :: !Good(dfa.mappings, Rep(partitions[a]))
    ensures r.Thrown? ==> r.exception == TypeError
    ensures r.Done? ==> result.mappings == QuotientEdges(dfa.mappings, names, partitions, alphabets)
  {
    var i := 0;
    while i < |partitions|
      invariant 0 <= i <= |partitions|
      invariant result.Valid() && result.start == old(result.start) && result.accepting == old(result.accepting)
      invariant result.alphabets == old(result.alphabets)
      invariant result.mappings == Built(dfa.mappings, names, partitions, alphabets, i)
      invariant |alphabets| > 0 ==> forall a | 0 <= a < i :: Good(dfa.mappings, Rep(partitions[a]))
    {
      var row := AddRow(result, dfa, names, partitions, i, alphabets);
      if row.Thrown? {
        return row;
      }
      BuiltStep(dfa.mappings, names, partitions, alphabets, i);
      i := i + 1;
    }
    BuiltAll(dfa.mappings, names, partitions, alphabets);
    r := Done;
  }

  /** The DFA is closed: its edges lead to its states, its accepting states are states
      other than `ErrorState`, and it does not start in `ErrorState`. */
  predicate WellFormed(start: int, states: set<int>, m: SymbolDfa.Edges, accepting: set<int>)
  {
    start != ErrorState && accepting <= states - {ErrorState} &&
    forall s, i | s in m && i in m[s] :: m[s][i] in states
  }

  /** The test of the state loop of `minimizeDfa`. */
  function Rejecting(accepting: set<int>): int -> bool
  {
    s => s != ErrorState && s !in accepting
  }

  /** The state loop of `minimizeDfa`: the states that are neither `ErrorState` nor
      accepting, in iteration order. */
  method NonAccepting(states: seq<int>, accepting: set<int>) returns (r: seq<int>)
    ensures r == Filter(states, Rejecting(accepting))
  {
    r := [];
    var i := 0;
    while i < |states|
      invariant 0 <= i <= |states|
      invariant r == Filter(states[..i], Rejecting(accepting))
    {
      var state := states[i];
      assert states[..i + 1] == states[..i] + [state];
      FilterAppend(states[..i], state, Rejecting(accepting));
      if state != ErrorState && state !in accepting {
        r := r + [state];
      }
      i := i + 1;
    }
    assert states[..i] == states;
  }

  /** There are no more partitions than states they hold: the first state of each
      partition is named by it, so no two share one. */
  lemma PartitionCount(partitions: seq<Partition>, names: Names)
    requires Named(partitions) && Placed(partitions, names)
    ensures |partitions| <= |names.Keys|
  {
    var first := (i: int) => if 0 <= i < |partitions| && |partitions[i].states| > 0 then partitions[i].states[0] else 0;
    forall i | 0 <= i < |partitions|
      ensures first(i) in names.Keys && names[first(i)] == i
    {
      assert partitions[i].states[0] in partitions[i].states;
    }
    SetFacts.InjectionCard(first, |partitions|, names.Keys);
  }

  /** There are no partitions exactly when no state is named. */
  lemma NoPartitions(partitions: seq<Partition>, names: Names)
    requires Named(partitions) && Placed(partitions, names) && Pointed(partitions, names)
    ensures |partitions| == 0 <==> names.Keys == {}
  {
    if |partitions| > 0 {
      var s := partitions[0].states[0];
      assert s in partitions[0].states;
      assert s in names.Keys;
    } else {
      forall s | s in names.Keys
        ensures 0 <= names[s] < |partitions|
      {
      }
    }
  }

  lemma RangeCard(n: nat)
    ensures |QuotientRange(n)| == n
  {
    if n > 0 {
      RangeCard(n - 1);
      assert NewPositions(0, n) == NewPositions(0, n - 1) + [n - 1];
      assert QuotientRange(n) == QuotientRange(n - 1) + {n - 1};
      assert n - 1 !in QuotientRange(n - 1);
    }
  }

  /** The state handles of the DFA `toDfa` builds from `n` partitions. */
  function QuotientRange(n: nat): set<int>
  {
    set a | a in NewPositions(0, n)
  }

  /** The minimised DFA has one state per partition. */
  lemma QuotientSize(m: SymbolDfa.Edges, names: Names, partitions: seq<Partition>, alphabets: seq<(string, int)>)
    ensures |QuotientEdges(m, names, partitions, alphabets)| == |partitions|
  {
    var q, keys := QuotientEdges(m, names, partitions, alphabets), NewPositions(0, |partitions|);
    forall a | 0 <= a < |partitions|
      ensures a in keys
    {
      assert keys[a] == a;
    }
    assert q.Keys == QuotientRange(|partitions|);
    RangeCard(|partitions|);
  }

  /** Adding a partition of states not yet named keeps the bookkeeping consistent. */
  lemma FreshStructure(partitions: seq<Partition>, names: Names, reachable: Reachable, buffer: seq<int>, states: seq<int>,
                       partitions': seq<Partition>, names': Names, reachable': Reachable, buffer': seq<int>)
    requires Structure(partitions, names, reachable, buffer)
    requires |states| > 0 && Distinct(states) && forall s | s in states :: s !in names
    requires partitions' == partitions + [Partition(|partitions|, states)]
    requires reachable' == reachable[|partitions| := []]
    requires forall s :: s in names' <==> s in names || s in states
    requires forall s | s in states :: names'[s] == |partitions|
    requires forall s | s in names && s !in states :: names'[s] == names[s]
    requires buffer' == buffer + [|partitions|]
    ensures Structure(partitions', names', reachable', buffer')
  {
    forall i, s | 0 <= i < |partitions'| && s in partitions'[i].states
      ensures s in names' && names'[s] == i
    {
      if i < |partitions| {
        assert s in partitions[i].states && s !in states;
      }
    }
  }

  /** A new partition wholly accepting or wholly not keeps `Uniform`. */
  lemma FreshUniform(partitions: seq<Partition>, accepting: set<int>, states: seq<int>)
    requires Uniform(partitions, accepting) && |states| > 0
    requires (forall s | s in states :: s in accepting) || (forall s | s in states :: s !in accepting)
    ensures Uniform(partitions + [Partition(|partitions|, states)], accepting)
  {
    assert states[0] in states;
  }

  /** With every partition pending, in order, there is nothing to promise yet. */
  lemma AllPending(m: SymbolDfa.Edges, names: Names, partitions: seq<Partition>, reachable: Reachable,
                   alphabets: seq<(string, int)>, pending: seq<int>)
    requires pending == NewPositions(0, |partitions|)
    ensures Refined(m, names, partitions, reachable, alphabets, pending)
  {
    forall a | 0 <= a < |partitions|
      ensures a in pending
    {
      assert pending[a] == a;
    }
  }

  lemma PositionsSnoc(n: nat)
    ensures NewPositions(0, n + 1) == NewPositions(0, n) + [n]
  {
    assert NewPositions(0, n + 1)[..n] == NewPositions(0, n);
  }

  /** The seeded partitions name every state but `ErrorState`, and every accepting one. */
  lemma SeedNames(accepting: seq<int>, states: seq<int>, nonAccepting: seq<int>, acceptingSet: set<int>,
                  stateSet: set<int>, names: Names)
    requires (set x | x in accepting) == acceptingSet && (set x | x in states) == stateSet
    requires nonAccepting == Filter(states, Rejecting(acceptingSet))
    requires forall s :: s in names <==> s in accepting || s in nonAccepting
    ensures names.Keys == Universe(acceptingSet, stateSet)
  {
    forall s | s in Universe(acceptingSet, stateSet)
      ensures s in names
    {
      if s !in acceptingSet {
        assert s in states && Rejecting(acceptingSet)(s);
      }
    }
    forall s | s in names
      ensures s in Universe(acceptingSet, stateSet)
    {
      if s in accepting {
        assert s in (set x | x in accepting);
      } else {
        assert s in states && Rejecting(acceptingSet)(s);
        assert s in (set x | x in states);
      }
    }
  }

  /** A state of a partition that `delta` throws for is accepting: every other state the
      minimiser partitions has a mapping. */
  lemma BadIsAccepting(m: SymbolDfa.Edges, states: set<int>, accepting: set<int>, names: Names, s: int)
    requires states == m.Keys + {ErrorState} && names.Keys == Universe(accepting, states)
    requires s in names && !Good(m, s)
    ensures s in accepting
  {
  }

  /** What a well-formed DFA gives the final partitions: `ErrorState` and every edge
      target outside `ErrorState` is named, and so is the start state. */
  lemma WellFormedNames(start: int, states: set<int>, m: SymbolDfa.Edges, accepting: set<int>, names: Names)
    requires WellFormed(start, states, m, accepting) && states == m.Keys + {ErrorState} && start in m
    requires names.Keys == Universe(accepting, states)
    ensures ErrorState !in names && ClosedUnder(m, names) && accepting <= names.Keys && start in names
    ensures forall s | s in accepting :: Good(m, s)
  {
  }

  /** `if (states.length > 0) ctx.addPartition(states)` in the seeding of `minimizeDfa`,
      for distinct states not yet named that are all accepting or all not: a nonempty
      group becomes a new partition, queued, and nothing else changes. */
  method SeedPartition(context: MinimizationContext, states: seq<int>)
    requires context.Valid() && Uniform(context.partitions, context.dfa.accepting) && Distinct(states)
    requires forall s | s in states :: s !in context.names && s in Universe(context.dfa.accepting, context.dfa.states)
    requires (forall s | s in states :: s in context.dfa.accepting) || (forall s | s in states :: s !in context.dfa.accepting)
    modifies context, context.worklist
    ensures unchanged(context.dfa)
    ensures context.Valid() && Uniform(context.partitions, context.dfa.accepting)
    ensures forall s :: s in context.names <==> s in old(context.names) || s in states
    ensures context.worklist.index == old(context.worklist.index)
    ensures |states| > 0 ==> context.partitions == old(context.partitions) + [Partition(|old(context.partitions)|, states)]
    ensures |states| > 0 ==> context.worklist.buffer == old(context.worklist.buffer) + [|old(context.partitions)|]
    ensures |states| == 0 ==> context.partitions == old(context.partitions) && context.worklist.buffer == old(context.worklist.buffer)
  {
    if |states| > 0 {
      ghost var partitions, names, reachable, buffer := context.partitions, context.names, context.reachable, context.worklist.buffer;
      context.AddPartition(states);
      FreshStructure(partitions, names, reachable, buffer, states,
                     context.partitions, context.names, context.reachable, context.worklist.buffer);
      FreshUniform(partitions, context.dfa.accepting, states);
    }
  }

  /** The two `addPartition` calls of the seeding on an empty context: the accepting
      states, then the other states, each if there are any. */
  method SeedBoth(context: MinimizationContext, accepting: seq<int>, nonAccepting: seq<int>)
    requires context.Valid() && context.partitions == [] && context.names == map[] && context.worklist.buffer == []
    requires Distinct(accepting) && Distinct(nonAccepting)
    requires forall s | s in accepting :: s in context.dfa.accepting
    requires forall s | s in nonAccepting :: s !in context.dfa.accepting && s in Universe(context.dfa.accepting, context.dfa.states)
    modifies context, context.worklist
    ensures unchanged(context.dfa)
    ensures context.Valid() && Uniform(context.partitions, context.dfa.accepting)
    ensures forall s :: s in context.names <==> s in accepting || s in nonAccepting
    ensures context.worklist.index == old(context.worklist.index)
    ensures context.worklist.buffer == NewPositions(0, |context.partitions|)
    ensures |accepting| > 0 ==> |context.partitions| > 0 && context.partitions[0] == Partition(0, accepting)
    ensures forall s, t | s in context.names && t in context.names && context.names[s] != context.names[t] ::
      (s in context.dfa.accepting) != (t in context.dfa.accepting)
  {
    SeedPartition(context, accepting);
    ghost var seeded := context.partitions;
    assert |accepting| > 0 ==> seeded == [Partition(0, accepting)];
    assert context.worklist.buffer == NewPositions(0, |seeded|);
    SeedPartition(context, nonAccepting);
    PositionsSnoc(|seeded|);
    assert seeded <= context.partitions;
    forall s, t | s in context.names && t in context.names && context.names[s] != context.names[t]
      ensures (s in context.dfa.accepting) != (t in context.dfa.accepting)
    {
      var a, b := context.names[s], context.names[t];
      assert s in context.partitions[a].states && t in context.partitions[b].states;
    }
  }

  /** States the seeding names differently differ in acceptance, so the empty word tells
      them apart. */
  lemma SeedSeparated(m: SymbolDfa.Edges, accepting: set<int>, alphabets: seq<(string, int)>, names: Names)
    requires forall s, t | s in names && t in names && names[s] != names[t] :: (s in accepting) != (t in accepting)
    ensures Separated(m, accepting, alphabets, names)
  {
    forall s, t | s in names && t in names && names[s] != names[t]
      ensures Apart(m, accepting, alphabets, s, t)
    {
      assert SymbolDfa.Registered(alphabets, []) && TellsApart(m, accepting, s, t, []);
    }
  }

  /** The seeding of `minimizeDfa`: the accepting states form the first partition and
      the other states but `ErrorState` the second, each only if there are any, both
      queued; nothing is settled yet. */
  method Seed(dfa: SymbolDfa.DeterministicFiniteAutomata) returns (context: MinimizationContext)
    requires dfa.Valid()
    ensures fresh(context) && fresh(context.worklist) && context.Valid() && context.dfa == dfa
    ensures context.names.Keys == Universe(dfa.accepting, dfa.states)
    ensures Uniform(context.partitions, dfa.accepting)
    ensures context.worklist.index == 0
    ensures Refined(dfa.mappings, context.names, context.partitions, context.reachable, dfa.alphabets.Entries(),
                    context.worklist.buffer)
    ensures |context.partitions| <= |Universe(dfa.accepting, dfa.states)|
    ensures |context.partitions| == 0 <==> Universe(dfa.accepting, dfa.states) == {}
    ensures Separated(dfa.mappings, dfa.accepting, dfa.alphabets.Entries(), context.names)
    ensures dfa.accepting != {} ==>
      (|context.worklist.buffer| > 0 && context.worklist.buffer[0] == 0 && |context.partitions| > 0 &&
       forall s | s in dfa.accepting :: s in context.partitions[0].states)
  {
    var accepting := ArrayFrom(dfa.accepting);
    var states := ArrayFrom(dfa.states);
    var nonAccepting := NonAccepting(states, dfa.accepting);
    FilterDistinct(states, Rejecting(dfa.accepting));
    context := new MinimizationContext(dfa);
    SeedBoth(context, accepting, nonAccepting);
    SeedNames(accepting, states, nonAccepting, dfa.accepting, dfa.states, context.names);
    AllPending(dfa.mappings, context.names, context.partitions, context.reachable, dfa.alphabets.Entries(),
               context.worklist.buffer);
    PartitionCount(context.partitions, context.names);
    NoPartitions(context.partitions, context.names);
    SeedSeparated(dfa.mappings, dfa.accepting, dfa.alphabets.Entries(), context.names);
    if dfa.accepting != {} {
      forall s | s in dfa.accepting
        ensures s in context.partitions[0].states
      {
        assert s in (set x | x in accepting);
      }
    }
  }

  /** What holds while the work list of `minimizeDfa` drains, given the partitions and
      the queue the seeding left: every state but `ErrorState` is named, each partition is
      wholly accepting or not, every partition no longer queued is stable, the count of
      partitions lies between the seeded count and the number of states, states of
      different partitions are apart (once no edge leaves the named states), and the first
      round has the accepting partition and is over before any other. */
  ghost predicate DrainingState(m: SymbolDfa.Edges, states: set<int>, accepting: set<int>, alphabets: seq<(string, int)>,
                                partitions: seq<Partition>, names: Names, reachable: Reachable,
                                buffer: seq<int>, index: int, seeds: seq<Partition>, seedBuffer: seq<int>)
  {
    0 <= index <= |buffer| &&
    names.Keys == Universe(accepting, states) && Uniform(partitions, accepting) &&
    Refined(m, names, partitions, reachable, alphabets, buffer[index..]) &&
    |seeds| <= |partitions| <= |Universe(accepting, states)| &&
    (ClosedUnder(m, names) ==> Separated(m, accepting, alphabets, names)) &&
    (index == 0 ==> partitions == seeds && buffer == seedBuffer) &&
    (index > 0 && |alphabets| > 0 ==> forall s | s in accepting :: Good(m, s)) &&
    (accepting != {} ==>
      (|seeds| > 0 && |seedBuffer| > 0 && seedBuffer[0] == 0 && forall s | s in accepting :: s in seeds[0].states))
  }

  /** `DrainingState` for the context. */
  ghost predicate Draining(context: MinimizationContext, seeds: seq<Partition>, seedBuffer: seq<int>)
    reads context, context.worklist, context.dfa
  {
    context.Valid() &&
    DrainingState(context.dfa.mappings, context.dfa.states, context.dfa.accepting, context.dfa.alphabets.Entries(),
                  context.partitions, context.names, context.reachable,
                  context.worklist.buffer, context.worklist.index, seeds, seedBuffer)
  }

  /** A round of `processWorkset` that did not fail keeps `DrainingState`, the cursor one
      place on. */
  lemma DrainingStep(m: SymbolDfa.Edges, states: set<int>, accepting: set<int>, alphabets: seq<(string, int)>,
                     partitions: seq<Partition>, names: Names, reachable: Reachable, buffer: seq<int>, cursor: int,
                     partitions': seq<Partition>, names': Names, reachable': Reachable, buffer': seq<int>,
                     seeds: seq<Partition>, seedBuffer: seq<int>)
    requires DrainingState(m, states, accepting, alphabets, partitions, names, reachable, buffer, cursor, seeds, seedBuffer)
    requires cursor < |buffer| && 0 <= buffer[cursor] < |partitions|
    requires Structure(partitions', names', reachable', buffer') && names'.Keys == names.Keys && |buffer| <= |buffer'|
    requires Uniform(partitions', accepting) && Refined(m, names', partitions', reachable', alphabets, buffer'[cursor + 1..])
    requires |partitions'| > |partitions| || (|partitions'| == |partitions| && buffer' == buffer)
    requires !(|alphabets| > 0 && exists s | s in partitions[buffer[cursor]].states :: !Good(m, s))
    requires SplitsBy(m, alphabets, names, names')
    ensures DrainingState(m, states, accepting, alphabets, partitions', names', reachable', buffer', cursor + 1, seeds, seedBuffer)
  {
    PartitionCount(partitions', names');
    if ClosedUnder(m, names') {
      assert ClosedUnder(m, names);
      SeparatedStep(m, accepting, alphabets, names, names');
    }
  }

  /** The body of the work-list loop of `minimizeDfa` once the iterator has yielded the
      partition position `index` from place `cursor`: `processWorkset` on that partition. */
  method Process(context: MinimizationContext, index: int, ghost cursor: int, ghost seeds: seq<Partition>,
                 ghost seedBuffer: seq<int>) returns (r: Outcome)
    requires context.Valid()
    requires DrainingState(context.dfa.mappings, context.dfa.states, context.dfa.accepting, context.dfa.alphabets.Entries(),
                           context.partitions, context.names, context.reachable, context.worklist.buffer, cursor,
                           seeds, seedBuffer)
    requires 0 <= cursor < |context.worklist.buffer| && index == context.worklist.buffer[cursor]
    requires context.worklist.index == cursor + 1
    modifies context, context.worklist
    ensures unchanged(context.dfa)
    ensures context.worklist.index == old(context.worklist.index)
    ensures r.Done? ==> Draining(context, seeds, seedBuffer)
    ensures r.Done? ==>
      (|context.partitions| > |old(context.partitions)| ||
       (|context.partitions| == |old(context.partitions)| && context.worklist.buffer == old(context.worklist.buffer)))
    ensures r.Done? ==> |context.partitions| <= |Universe(context.dfa.accepting, context.dfa.states)|
    ensures r.Thrown? ==> r.exception == TypeError
    ensures r.Thrown? ==>
      (|context.dfa.alphabets.Entries()| > 0 && exists s | s in context.dfa.accepting :: !Good(context.dfa.mappings, s))
  {
    ghost var m, accepting, alphabets := context.dfa.mappings, context.dfa.accepting, context.dfa.alphabets.Entries();
    ghost var partitions, names, reachable, buffer := context.partitions, context.names, context.reachable, context.worklist.buffer;
    ghost var states := context.dfa.states;
    SliceHead(buffer, cursor);
    var workset := context.partitions[index];
    assert forall s | s in workset.states :: s in names;
    r := ProcessWorkset(context, workset, index);
    if r.Thrown? {
      ghost var s :| s in workset.states && !Good(m, s);
      BadIsAccepting(m, states, accepting, names, s);
      return;
    }
    assert context.dfa.mappings == m && context.dfa.states == states && context.dfa.accepting == accepting;
    assert context.dfa.alphabets.Entries() == alphabets;
    DrainingStep(m, states, accepting, alphabets, partitions, names, reachable, buffer, cursor,
                 context.partitions, context.names, context.reachable, context.worklist.buffer, seeds, seedBuffer);
  }

  /** How many more partitions there is room for: the states the minimiser partitions
      bound the partition count. */
  ghost function Room(context: MinimizationContext): int
    reads context, context.dfa
  {
    |Universe(context.dfa.accepting, context.dfa.states)| - |context.partitions|
  }

  /** How many queued partitions the work list has yet to yield. */
  ghost function Left(context: MinimizationContext): int
    reads context, context.worklist
  {
    |context.worklist.buffer| - context.worklist.index
  }

  /** One round of the work-list loop of `minimizeDfa`: the next queued partition goes
      through `processWorkset`, or, with none left, the iteration ends. A round either
      adds partitions or moves the cursor on, and it fails only for an accepting state
      that `delta` throws for. */
  method Round(context: MinimizationContext, ghost seeds: seq<Partition>, ghost seedBuffer: seq<int>)
    returns (more: bool, r: Outcome)
    requires Draining(context, seeds, seedBuffer)
    modifies context, context.worklist
    ensures unchanged(context.dfa)
    ensures r.Done? ==> Draining(context, seeds, seedBuffer)
    ensures !more ==> r.Done? && context.worklist.index == |context.worklist.buffer|
    ensures more && r.Done? ==>
      Room(context) < old(Room(context)) || (Room(context) == old(Room(context)) && Left(context) < old(Left(context)))
    ensures r.Thrown? ==> r.exception == TypeError
    ensures r.Thrown? ==>
      (|context.dfa.alphabets.Entries()| > 0 && exists s | s in context.dfa.accepting :: !Good(context.dfa.mappings, s))
  {
    ghost var cursor := context.worklist.index;
    var next := context.worklist.Next();
    if next.None? {
      return false, Done;
    }
    more := true;
    r := Process(context, next.value, cursor, seeds, seedBuffer);
  }

  /** The work-list loop of `minimizeDfa`: rounds of `processWorkset` on every queued
      partition, those that splits queue included, until the cursor reaches the end. The
      partition count only grows and is bounded by the number of states, so the loop
      ends. Only the first partition, the accepting one, can hold a state that `delta`
      throws for, so a failure means an accepting state without a mapping. */
  method Drain(context: MinimizationContext, ghost seeds: seq<Partition>, ghost seedBuffer: seq<int>) returns (r: Outcome)
    requires Draining(context, seeds, seedBuffer)
    modifies context, context.worklist
    ensures r.Done? ==> Draining(context, seeds, seedBuffer) && context.worklist.index == |context.worklist.buffer|
    ensures r.Thrown? ==> r.exception == TypeError
    ensures r.Thrown? ==>
      (|context.dfa.alphabets.Entries()| > 0 && exists s | s in context.dfa.accepting :: !Good(context.dfa.mappings, s))
  {
    while true
      invariant Draining(context, seeds, seedBuffer)
      decreases Room(context), Left(context)
    {
      var more, done := Round(context, seeds, seedBuffer);
      if done.Thrown? {
        return done;
      }
      if !more {
        return Done;
      }
    }
  }

  /** The seeding leaves the context ready to drain. */
  lemma Seeded(m: SymbolDfa.Edges, states: set<int>, accepting: set<int>, alphabets: seq<(string, int)>,
               partitions: seq<Partition>, names: Names, reachable: Reachable, buffer: seq<int>)
    requires names.Keys == Universe(accepting, states) && Uniform(partitions, accepting)
    requires Refined(m, names, partitions, reachable, alphabets, buffer)
    requires |partitions| <= |Universe(accepting, states)| && Separated(m, accepting, alphabets, names)
    requires accepting != {} ==>
      (|buffer| > 0 && buffer[0] == 0 && |partitions| > 0 && forall s | s in accepting :: s in partitions[0].states)
    ensures DrainingState(m, states, accepting, alphabets, partitions, names, reachable, buffer, 0, partitions, buffer)
  {
    assert buffer[0..] == buffer;
  }

  /** With the cursor at the end, every partition is stable on every registered index,
      and no accepting state is one that `delta` throws for. */
  lemma Drained(m: SymbolDfa.Edges, states: set<int>, accepting: set<int>, alphabets: seq<(string, int)>,
                partitions: seq<Partition>, names: Names, reachable: Reachable, buffer: seq<int>,
                seeds: seq<Partition>, seedBuffer: seq<int>)
    requires DrainingState(m, states, accepting, alphabets, partitions, names, reachable, buffer, |buffer|, seeds, seedBuffer)
    ensures Refined(m, names, partitions, reachable, alphabets, [])
    ensures |alphabets| > 0 ==> forall s | s in accepting :: Good(m, s)
    ensures |seeds| <= |partitions| <= |Universe(accepting, states)|
    ensures ClosedUnder(m, names) ==> Separated(m, accepting, alphabets, names)
  {
    assert buffer[|buffer|..] == [];
  }

  lemma SliceHead(buffer: seq<int>, cursor: int)
    requires 0 <= cursor < |buffer|
    ensures buffer[cursor..] == [buffer[cursor]] + buffer[cursor + 1..]
  {
  }

  /** `minimizeDfa(dfa)`: seeds the partitions, drains the work list and builds the DFA
      of the partitions. A state that `delta` throws for can only be accepting, and fails
      when the first partition is processed, provided some index is registered; with no
      states to partition, `toDfa` throws. The result has at most as many states as the
      original has states other than `ErrorState`, and for a well-formed DFA it accepts
      exactly the words of registered indices the original accepts. */
  method MinimizeDfa(dfa: SymbolDfa.DeterministicFiniteAutomata) returns (r: Result<SymbolDfa.DeterministicFiniteAutomata>)
    requires dfa.Valid()
    ensures r.Throw? <==> (Universe(dfa.accepting, dfa.states) == {} ||
      (|dfa.alphabets.Entries()| > 0 && exists s | s in dfa.accepting :: !Good(dfa.mappings, s)))
    ensures r.Throw? ==> r.exception == TypeError
    ensures r.Ok? ==> fresh(r.value) && r.value.Valid() && r.value.alphabets == dfa.alphabets
    ensures r.Ok? ==> |r.value.mappings| <= |Universe(dfa.accepting, dfa.states)|
    ensures WellFormed(dfa.start, dfa.states, dfa.mappings, dfa.accepting) ==> r.Ok?
    ensures WellFormed(dfa.start, dfa.states, dfa.mappings, dfa.accepting) && r.Ok? ==>
      forall w | SymbolDfa.Registered(dfa.alphabets.Entries(), w) ::
        (SymbolDfa.Run(r.value.mappings, r.value.start, w) in r.value.accepting <==>
         SymbolDfa.Run(dfa.mappings, dfa.start, w) in dfa.accepting)
    ensures WellFormed(dfa.start, dfa.states, dfa.mappings, dfa.accepting) && r.Ok? ==>
      WellFormed(r.value.start, r.value.states, r.value.mappings, r.value.accepting) &&
      forall a, b | a in r.value.mappings && b in r.value.mappings && a != b ::
        Apart(r.value.mappings, r.value.accepting, dfa.alphabets.Entries(), a, b)
    ensures (WellFormed(dfa.start, dfa.states, dfa.mappings, dfa.accepting) && r.Ok? &&
             forall s, t | s in Universe(dfa.accepting, dfa.states) && t in Universe(dfa.accepting, dfa.states) && s != t ::
               Apart(dfa.mappings, dfa.accepting, dfa.alphabets.Entries(), s, t)) ==>
      |r.value.mappings| == |Universe(dfa.accepting, dfa.states)|
  {
    var context, done := Partitioned(dfa);
    if done.Thrown? {
      return Throw(done.exception);
    }
    r := context.ToDfa();
    if r.Ok? {
      QuotientSize(dfa.mappings, context.names, context.partitions, dfa.alphabets.Entries());
      if WellFormed(dfa.start, dfa.states, dfa.mappings, dfa.accepting) {
        SameLanguage(context, r.value);
        Minimal(context, r.value);
      }
    }
  }

  /** The seeding and the work-list loop of `minimizeDfa`: the drained partitions `toDfa`
      is called on, or the TypeError a `delta` of the loop throws. */
  method Partitioned(dfa: SymbolDfa.DeterministicFiniteAutomata) returns (context: MinimizationContext, r: Outcome)
    requires dfa.Valid()
    ensures fresh(context) && context.dfa == dfa
    ensures r.Thrown? <==> (|dfa.alphabets.Entries()| > 0 && exists s | s in dfa.accepting :: !Good(dfa.mappings, s))
    ensures r.Thrown? ==> r.exception == TypeError
    ensures r.Done? ==> context.Valid() && context.names.Keys == Universe(dfa.accepting, dfa.states)
    ensures r.Done? ==> Uniform(context.partitions, dfa.accepting)
    ensures r.Done? ==> Refined(dfa.mappings, context.names, context.partitions, context.reachable, dfa.alphabets.Entries(), [])
    ensures r.Done? ==> (|context.partitions| == 0 <==> Universe(dfa.accepting, dfa.states) == {})
    ensures r.Done? ==> |context.partitions| <= |Universe(dfa.accepting, dfa.states)|
    ensures r.Done? ==> forall a | 0 <= a < |context.partitions| ::
      |dfa.alphabets.Entries()| > 0 ==> Good(dfa.mappings, Rep(context.partitions[a]))
    ensures r.Done? && ClosedUnder(dfa.mappings, context.names) ==>
      Separated(dfa.mappings, dfa.accepting, dfa.alphabets.Entries(), context.names)
  {
    context := Seed(dfa);
    ghost var seeds, seedBuffer := context.partitions, context.worklist.buffer;
    Seeded(dfa.mappings, dfa.states, dfa.accepting, dfa.alphabets.Entries(),
           context.partitions, context.names, context.reachable, context.worklist.buffer);
    r := Drain(context, seeds, seedBuffer);
    if r.Thrown? {
      return;
    }
    Drained(dfa.mappings, dfa.states, dfa.accepting, dfa.alphabets.Entries(), context.partitions, context.names,
            context.reachable, context.worklist.buffer, seeds, seedBuffer);
    BadReps(context);
  }

  /** After the work list drains without failure, `toDfa` fails only for want of
      partitions: each first state that `delta` throws for is accepting. */
  lemma BadReps(context: MinimizationContext)
    requires context.Valid() && context.names.Keys == Universe(context.dfa.accepting, context.dfa.states)
    requires |context.dfa.alphabets.Entries()| > 0 ==> forall s | s in context.dfa.accepting :: Good(context.dfa.mappings, s)
    ensures forall a | 0 <= a < |context.partitions| ::
      Rep(context.partitions[a]) in context.names && (|context.dfa.alphabets.Entries()| > 0 ==> Good(context.dfa.mappings, Rep(context.partitions[a])))
  {
    forall a | 0 <= a < |context.partitions|
      ensures Rep(context.partitions[a]) in context.names
    {
      assert context.partitions[a].states[0] in context.partitions[a].states;
    }
  }

  /** The DFA `toDfa` builds from the drained partitions of a well-formed DFA is well
      formed and minimal: a registered word tells any two of its states apart, and when
      one tells apart any two states of the original, no two states were merged. */
  lemma Minimal(context: MinimizationContext, q: SymbolDfa.DeterministicFiniteAutomata)
    requires context.Valid() && q.Valid()
    requires WellFormed(context.dfa.start, context.dfa.states, context.dfa.mappings, context.dfa.accepting)
    requires context.names.Keys == Universe(context.dfa.accepting, context.dfa.states)
    requires Uniform(context.partitions, context.dfa.accepting)
    requires Refined(context.dfa.mappings, context.names, context.partitions, context.reachable,
                     context.dfa.alphabets.Entries(), [])
    requires ClosedUnder(context.dfa.mappings, context.names) ==>
      Separated(context.dfa.mappings, context.dfa.accepting, context.dfa.alphabets.Entries(), context.names)
    requires q.start == NameOf(context.names, context.dfa.start)
    requires q.mappings == QuotientEdges(context.dfa.mappings, context.names, context.partitions, context.dfa.alphabets.Entries())
    requires q.accepting == QuotientAccepting(context.partitions, context.dfa.accepting)
    ensures WellFormed(q.start, q.states, q.mappings, q.accepting)
    ensures forall a, b | a in q.mappings && b in q.mappings && a != b ::
      Apart(q.mappings, q.accepting, context.dfa.alphabets.Entries(), a, b)
    ensures (forall s, t | s in Universe(context.dfa.accepting, context.dfa.states) &&
                           t in Universe(context.dfa.accepting, context.dfa.states) && s != t ::
               Apart(context.dfa.mappings, context.dfa.accepting, context.dfa.alphabets.Entries(), s, t)) ==>
      |context.partitions| == |Universe(context.dfa.accepting, context.dfa.states)|
  {
    var dfa, names, partitions := context.dfa, context.names, context.partitions;
    var alphabets := dfa.alphabets.Entries();
    WellFormedNames(dfa.start, dfa.states, dfa.mappings, dfa.accepting, names);
    QuotientWellFormed(dfa.mappings, names, partitions, alphabets, dfa.accepting, dfa.start, q.states);
    forall a, b | a in q.mappings && b in q.mappings && a != b
      ensures Apart(q.mappings, q.accepting, alphabets, a, b)
    {
      QuotientApart(dfa.mappings, names, partitions, context.reachable, alphabets, dfa.accepting, a, b);
    }
    var u := Universe(dfa.accepting, dfa.states);
    if forall s, t | s in u && t in u && s != t :: Apart(dfa.mappings, dfa.accepting, alphabets, s, t) {
      NoMerge(dfa.mappings, names, partitions, context.reachable, alphabets, dfa.accepting, u);
    }
  }

  /** The DFA `toDfa` builds from the drained partitions of a well-formed DFA accepts the
      same words of registered indices. */
  lemma SameLanguage(context: MinimizationContext, q: SymbolDfa.DeterministicFiniteAutomata)
    requires context.Valid()
    requires WellFormed(context.dfa.start, context.dfa.states, context.dfa.mappings, context.dfa.accepting)
    requires context.names.Keys == Universe(context.dfa.accepting, context.dfa.states)
    requires Uniform(context.partitions, context.dfa.accepting)
    requires Refined(context.dfa.mappings, context.names, context.partitions, context.reachable,
                     context.dfa.alphabets.Entries(), [])
    requires q.start == NameOf(context.names, context.dfa.start)
    requires q.mappings == QuotientEdges(context.dfa.mappings, context.names, context.partitions, context.dfa.alphabets.Entries())
    requires q.accepting == QuotientAccepting(context.partitions, context.dfa.accepting)
    ensures forall w | SymbolDfa.Registered(context.dfa.alphabets.Entries(), w) ::
      (SymbolDfa.Run(q.mappings, q.start, w) in q.accepting <==>
       SymbolDfa.Run(context.dfa.mappings, context.dfa.start, w) in context.dfa.accepting)
  {
    var dfa := context.dfa;
    WellFormedNames(dfa.start, dfa.states, dfa.mappings, dfa.accepting, context.names);
    forall w | SymbolDfa.Registered(dfa.alphabets.Entries(), w)
      ensures SymbolDfa.Run(q.mappings, q.start, w) in q.accepting <==>
              SymbolDfa.Run(dfa.mappings, dfa.start, w) in dfa.accepting
    {
      QuotientAccepts(dfa.mappings, context.names, context.partitions, context.reachable, dfa.alphabets.Entries(),
                      dfa.accepting, dfa.start, w);
    }
  }
}
